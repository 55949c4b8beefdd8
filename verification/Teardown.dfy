/** Unmapping user pages: deallocuvm with its skipping of absent subtrees
    (kernel/x86_64vm.c:198-258), against a scan of every page. */
module Teardown {
  import opened Options
  import opened Mmu
  import opened Kalloc
  import opened PageTable

  /** How many table levels below the root are present on the way to `va` (3: all). */
  function Depth(mem: seq<seq<nat>>, root: nat, va: nat): (d: nat)
    ensures d <= 3
  {
    match Follow(mem, root, Pml4Index(va))
    case None => 0
    case Some(pdpt) =>
      match Follow(mem, pdpt, PdptIndex(va))
      case None => 1
      case Some(pgdir) => if Follow(mem, pgdir, PdIndex(va)).None? then 2 else 3
  }

  /** find_next_possible_page, one page further on; None where it panics. */
  function NextAfterAbsent(mem: seq<seq<nat>>, root: nat, va: nat): Option<nat>
  {
    match Depth(mem, root, va)
    case 0 => Some(PgAddr(Pml4Index(va) + 1, 0, 0, 0, 0))
    case 1 => Some(PgAddr(Pml4Index(va), PdptIndex(va) + 1, 0, 0, 0))
    case 2 => Some(PgAddr(Pml4Index(va), PdptIndex(va), PdIndex(va) + 1, 0, 0))
    case _ => None
  }

  /** The absent entry met at `va` is one from which the scan does not get away: its
      index is 511 under an odd parent index, or the address is beyond the 48 bits that
      PGADDR builds. */
  predicate Stuck(mem: seq<seq<nat>>, root: nat, va: nat)
  {
    match Depth(mem, root, va)
    case 0 => va >= LOW_HALF_END
    case 1 => va >= LOW_HALF_END || (PdptIndex(va) == 511 && Pml4Index(va) % 2 == 1)
    case 2 => va >= LOW_HALF_END || (PdIndex(va) == 511 && PdptIndex(va) % 2 == 1)
    case _ => false
  }

  /** Bytes spanned by an entry at each level. */
  function Span(depth: nat): nat
  {
    match depth
    case 0 => 0x80_0000_0000
    case 1 => 0x4000_0000
    case _ => 0x20_0000
  }

  lemma SlotDepth(mem: seq<seq<nat>>, root: nat, va: nat)
    ensures Slot(mem, root, va).Some? <==> Depth(mem, root, va) == 3
  {
    var p := PathOf(va);
    assert p[1..] == [PdptIndex(va), PdIndex(va)] && p[1..][1..] == [PdIndex(va)] && p[1..][1..][1..] == [];
    hide Follow, Pml4Index, PdptIndex, PdIndex, PtIndex;
    FollowStep(mem, root, p);
    if Follow(mem, root, p[0]).Some? {
      var f := Follow(mem, root, p[0]).value;
      FollowStep(mem, f, p[1..]);
      if Follow(mem, f, p[1]).Some? {
        FollowStep(mem, Follow(mem, f, p[1]).value, p[1..][1..]);
      }
    }
  }

  lemma FollowStep(mem: seq<seq<nat>>, f: nat, p: Path)
    requires p != []
    ensures FollowPath(mem, f, p)
      == match Follow(mem, f, p[0]) case None => None case Some(g) => FollowPath(mem, g, p[1..])
  {
  }

  /** The address after an absent entry is the end of what the entry spans, except at a
      stuck address, where it lies at or before the address itself. */
  lemma NextAddress(mem: seq<seq<nat>>, root: nat, va: nat)
    requires Depth(mem, root, va) < 3
    ensures NextAfterAbsent(mem, root, va).Some?
    ensures !Stuck(mem, root, va) ==>
      NextAfterAbsent(mem, root, va).value == (va / Span(Depth(mem, root, va)) + 1) * Span(Depth(mem, root, va))
    ensures Stuck(mem, root, va) ==> NextAfterAbsent(mem, root, va).value <= va
  {
    var d := Depth(mem, root, va);
    AddressSplit(va);
    hide Depth, PgAddr, Pml4Index, PdptIndex, PdIndex;
    if d == 0 {
      PgAddrSum(Pml4Index(va) + 1, 0, 0, 0, 0);
    } else if d == 1 {
      if PdptIndex(va) < 511 {
        PgAddrSum(Pml4Index(va), PdptIndex(va) + 1, 0, 0, 0);
      } else {
        PgAddrCarryPdpt(Pml4Index(va));
      }
    } else {
      if PdIndex(va) < 511 {
        PgAddrSum(Pml4Index(va), PdptIndex(va), PdIndex(va) + 1, 0, 0);
      } else {
        PgAddrCarryPd(Pml4Index(va), PdptIndex(va));
      }
    }
  }

  lemma AddressSplit(va: nat)
    ensures va / 0x80_0000_0000 == va / LOW_HALF_END * 512 + Pml4Index(va)
    ensures va / 0x4000_0000 == va / 0x80_0000_0000 * 512 + PdptIndex(va)
    ensures va / 0x20_0000 == va / 0x4000_0000 * 512 + PdIndex(va)
    ensures va < LOW_HALF_END <==> va / LOW_HALF_END == 0
  {
    QuotientSplit(va / 0x80_0000_0000);
    QuotientSplit(va / 0x4000_0000);
    QuotientSplit(va / 0x20_0000);
    assert va / 0x80_0000_0000 / 512 == va / LOW_HALF_END;
    assert va / 0x4000_0000 / 512 == va / 0x80_0000_0000;
    assert va / 0x20_0000 / 512 == va / 0x4000_0000;
  }

  lemma QuotientSplit(x: nat)
    ensures x == x / 512 * 512 + x % 512
  {
  }

  /** Addresses below the same absent entry look alike. */
  lemma SameAbsentEntry(mem: seq<seq<nat>>, root: nat, va: nat, vc: nat)
    requires Depth(mem, root, va) < 3
    requires va / Span(Depth(mem, root, va)) == vc / Span(Depth(mem, root, va))
    ensures Depth(mem, root, vc) == Depth(mem, root, va)
    ensures Stuck(mem, root, vc) == Stuck(mem, root, va)
  {
    AddressSplit(va);
    AddressSplit(vc);
    assert va / LOW_HALF_END == va / 0x80_0000_0000 / 512;
    assert vc / LOW_HALF_END == vc / 0x80_0000_0000 / 512;
    assert va / 0x80_0000_0000 == va / 0x4000_0000 / 512 && vc / 0x80_0000_0000 == vc / 0x4000_0000 / 512;
    assert va / 0x4000_0000 == va / 0x20_0000 / 512 && vc / 0x4000_0000 == vc / 0x20_0000 / 512;
    hide Follow, Pml4Index, PdptIndex, PdIndex;
  }

  /** What the scan does to a page whose table is present: drop a reference to the frame
      and clear the entry, if the entry is present. */
  function Released(ph: Phys, root: nat, va: nat): (r: Phys)
    requires ph.Valid()
    ensures r.Valid() && |r.core| == |ph.core|
  {
    match Slot(ph.mem, root, va)
    case None => ph
    case Some((t, i)) =>
      var w := Entry(ph.mem, root, va);
      if Present(w) && FrameOf(w) < |ph.core| && t < |ph.mem| && i < ENTRIES
      then Stored(Freed(ph, FrameOf(w)), t, i, 0) else ph
  }

  /** The reference: visit every page from `a` up to `hi`. */
  function NaiveScan(ph: Phys, root: nat, a: nat, hi: nat): (r: Phys)
    requires ph.Valid()
    ensures r.Valid() && |r.core| == |ph.core|
    decreases hi - a
  {
    if a >= hi then ph else NaiveScan(Released(ph, root, a), root, a + PGSIZE, hi)
  }

  datatype Scan = Scan(ph: Phys, a: nat)

  /** One round of the loop of deallocuvm. */
  function Round(s: Scan, root: nat): (s': Scan)
    requires s.ph.Valid()
    ensures s'.ph.Valid()
  {
    var next := NextAfterAbsent(s.ph.mem, root, s.a);
    if next.Some? then s.(a := next.value) else Scan(Released(s.ph, root, s.a), s.a + PGSIZE)
  }

  function Rounds(s: Scan, root: nat, hi: nat, n: nat): (s': Scan)
    requires s.ph.Valid()
    ensures s'.ph.Valid()
    decreases n
  {
    if n == 0 || s.a >= hi then s else Rounds(Round(s, root), root, hi, n - 1)
  }

  /** What deallocuvm asks of the entries it may free: no panic, and no table page mapped
      as data. */
  ghost predicate LeavesFreeable(ph: Phys, root: nat, tabs: Tables, lo: nat, hi: nat)
  {
    && Tree(ph, root, tabs)
    && forall va :: lo <= va < hi && Present(Entry(ph.mem, root, va)) ==>
         var f := FrameOf(Entry(ph.mem, root, va)); f != 0 && Freeable(ph, f) && f !in tabs.Values
  }

  predicate NoneStuck(ph: Phys, root: nat, lo: nat, hi: nat)
  {
    forall va :: lo <= va < hi ==> !Stuck(ph.mem, root, va)
  }

  lemma DepthInTree(ph: Phys, root: nat, tabs: Tables, va: nat)
    requires Tree(ph, root, tabs)
    ensures Depth(ph.mem, root, va)
         == if PathOf(va)[..1] !in tabs then 0 else if PathOf(va)[..2] !in tabs then 1
           else if PathOf(va) !in tabs then 2 else 3
  {
    var p := PathOf(va);
    assert p[..1] == [] + [p[0]] && p[..2] == p[..1] + [p[1]] && p == p[..2] + [p[2]];
    assert EntryMatches(ph.mem, tabs, [], p[0]);
    if p[..1] in tabs {
      assert EntryMatches(ph.mem, tabs, p[..1], p[1]);
      if p[..2] in tabs {
        assert EntryMatches(ph.mem, tabs, p[..2], p[2]);
      }
    }
  }

  lemma FreedKeepsTree(ph: Phys, root: nat, tabs: Tables, f: nat)
    requires Tree(ph, root, tabs) && f < |ph.core| && f !in tabs.Values
    ensures Tree(Freed(ph, f), root, tabs)
  {
    forall p, i | p in tabs && |p| < 3 && 0 <= i < ENTRIES
      ensures EntryMatches(Freed(ph, f).mem, tabs, p, i)
    {
      assert EntryMatches(ph.mem, tabs, p, i) && tabs[p] in tabs.Values;
    }
  }

  lemma FreedKeepsFlat(ph: Phys, root: nat, tabs: Tables, f: nat)
    requires Tree(ph, root, tabs) && f < |ph.core| && f !in tabs.Values
    ensures SameFlat(ph, Freed(ph, f), root)
  {
    FreedKeepsTree(ph, root, tabs, f);
    hide EntryMatches, PathOf, PtIndex;
    forall va ensures Entry(Freed(ph, f).mem, root, va) == Entry(ph.mem, root, va) {
      SlotInTree(ph, root, tabs, va);
      SlotInTree(Freed(ph, f), root, tabs, va);
      if PathOf(va) in tabs { assert tabs[PathOf(va)] in tabs.Values; }
    }
  }

  /** Releasing a page keeps the table tree and clears that page's entry and no other. */
  lemma ReleaseIsFlatUpdate(ph: Phys, root: nat, tabs: Tables, va: nat, lo: nat, hi: nat)
    requires LeavesFreeable(ph, root, tabs, lo, hi) && lo <= va < hi
    ensures Tree(Released(ph, root, va), root, tabs)
    ensures if Present(Entry(ph.mem, root, va))
            then FlatUpdate(ph, Released(ph, root, va), root, VPage(va), 0)
            else Released(ph, root, va) == ph
  {
    SlotInTree(ph, root, tabs, va);
    var w := Entry(ph.mem, root, va);
    if Present(w) {
      var f := FrameOf(w);
      FreedKeepsTree(ph, root, tabs, f);
      FreedKeepsFlat(ph, root, tabs, f);
      StoreIsFlatUpdate(Freed(ph, f), root, tabs, va, 0);
      FlatUpdateAfter(ph, Freed(ph, f), Released(ph, root, va), root, VPage(va), 0);
    }
  }

  /** Releasing keeps everything the scan relies on. */
  lemma ReleaseKeeps(ph: Phys, root: nat, tabs: Tables, va: nat, lo: nat, hi: nat)
    requires LeavesFreeable(ph, root, tabs, lo, hi) && lo <= va < hi
    ensures LeavesFreeable(Released(ph, root, va), root, tabs, lo, hi)
    ensures forall vc :: Depth(Released(ph, root, va).mem, root, vc) == Depth(ph.mem, root, vc)
  {
    var ph' := Released(ph, root, va);
    ReleaseIsFlatUpdate(ph, root, tabs, va, lo, hi);
    forall vc ensures Depth(ph'.mem, root, vc) == Depth(ph.mem, root, vc) {
      DepthInTree(ph, root, tabs, vc);
      DepthInTree(ph', root, tabs, vc);
    }
    hide Tree, Depth, Entry, VPage;
    forall vc | lo <= vc < hi && Present(Entry(ph'.mem, root, vc))
      ensures var f := FrameOf(Entry(ph'.mem, root, vc)); f != 0 && Freeable(ph', f) && f !in tabs.Values
    {
      assert Present(0) == false;
      assert Entry(ph'.mem, root, vc) == Entry(ph.mem, root, vc);
    }
  }

  /** A scan over absent pages does nothing. */
  lemma {:induction false} NaiveSkips(ph: Phys, root: nat, a: nat, b: nat, hi: nat)
    requires ph.Valid() && a <= b && a % PGSIZE == 0 && b % PGSIZE == 0
    requires forall va :: a <= va < b ==> Depth(ph.mem, root, va) < 3
    ensures NaiveScan(ph, root, a, hi) == NaiveScan(ph, root, b, hi)
    decreases b - a
  {
    hide Depth, Slot;
    if a < b && a < hi {
      SlotDepth(ph.mem, root, a);
      NextPage(a, b);
      NaiveSkips(ph, root, a + PGSIZE, b, hi);
    }
  }

  /** Everything before the address after an absent entry is below that entry. */
  lemma SkippedAlike(mem: seq<seq<nat>>, root: nat, a: nat, va: nat)
    requires Depth(mem, root, a) < 3 && !Stuck(mem, root, a)
    requires NextAfterAbsent(mem, root, a).Some? && a <= va < NextAfterAbsent(mem, root, a).value
    ensures Depth(mem, root, va) == Depth(mem, root, a) && Stuck(mem, root, va) == Stuck(mem, root, a)
  {
    hide Depth, Stuck, NextAfterAbsent;
    NextAddress(mem, root, a);
    SameBlock(a, va, Depth(mem, root, a));
    SameAbsentEntry(mem, root, a, va);
  }

  lemma SameBlock(a: nat, va: nat, d: nat)
    requires a <= va < (a / Span(d) + 1) * Span(d)
    ensures va / Span(d) == a / Span(d)
  {
  }

  /** A round at an absent entry that is not stuck advances over pages on which the
      naive scan does nothing. */
  lemma RoundSkips(ph: Phys, root: nat, a: nat, hi: nat)
    requires ph.Valid() && a % PGSIZE == 0
    requires Depth(ph.mem, root, a) < 3 && !Stuck(ph.mem, root, a)
    ensures var s := Round(Scan(ph, a), root);
      && s.ph == ph && s.a > a && s.a % PGSIZE == 0
      && NaiveScan(ph, root, a, hi) == NaiveScan(ph, root, s.a, hi)
  {
    hide Depth, Slot, Stuck, NextAfterAbsent, Released, NaiveScan;
    NextAddress(ph.mem, root, a);
    var b := Round(Scan(ph, a), root).a;
    SpanPages(a, Depth(ph.mem, root, a));
    forall va | a <= va < b ensures Depth(ph.mem, root, va) < 3 {
      SkippedAlike(ph.mem, root, a, va);
    }
    NaiveSkips(ph, root, a, b, hi);
  }

  /** The range can be scanned: its tables form a tree and its leaves may be freed. */
  ghost predicate Scannable(ph: Phys, root: nat, lo: nat, hi: nat)
  {
    exists tabs :: LeavesFreeable(ph, root, tabs, lo, hi)
  }

  ghost predicate SameDepths(ph: Phys, ph': Phys, root: nat)
  {
    forall va :: Depth(ph'.mem, root, va) == Depth(ph.mem, root, va)
  }

  lemma DepthsSame(ph: Phys, root: nat)
    ensures SameDepths(ph, ph, root)
  {
  }

  lemma ReleaseKeepsScannable(ph: Phys, root: nat, va: nat, lo: nat, hi: nat)
    requires ph.Valid() && Scannable(ph, root, lo, hi) && lo <= va < hi
    ensures Scannable(Released(ph, root, va), root, lo, hi)
    ensures SameDepths(ph, Released(ph, root, va), root)
  {
    var tabs :| LeavesFreeable(ph, root, tabs, lo, hi);
    ReleaseKeeps(ph, root, tabs, va, lo, hi);
  }

  /** One round at an address that is not stuck advances, keeps what the loop needs, and
      leaves the naive scan with the same result to reach. */
  lemma RoundRefinesScan(ph: Phys, root: nat, a: nat, lo: nat, hi: nat)
    requires ph.Valid() && Scannable(ph, root, lo, hi) && lo <= a < hi && a % PGSIZE == 0
    requires !Stuck(ph.mem, root, a)
    ensures var s := Round(Scan(ph, a), root);
      && s.a > a && s.a % PGSIZE == 0
      && Scannable(s.ph, root, lo, hi) && SameDepths(ph, s.ph, root)
      && NaiveScan(ph, root, a, hi) == NaiveScan(s.ph, root, s.a, hi)
  {
    hide Depth, Stuck, Released, Scannable, SameDepths, Round;
    if Depth(ph.mem, root, a) < 3 {
      RoundSkips(ph, root, a, hi);
      DepthsSame(ph, root);
    } else {
      ReleaseKeepsScannable(ph, root, a, lo, hi);
      RoundAtTable(ph, root, a);
    }
  }

  lemma RoundAtTable(ph: Phys, root: nat, a: nat)
    requires ph.Valid() && Depth(ph.mem, root, a) == 3
    ensures Round(Scan(ph, a), root) == Scan(Released(ph, root, a), a + PGSIZE)
  {
  }

  lemma SpanPages(a: nat, d: nat)
    ensures (a / Span(d) + 1) * Span(d) % PGSIZE == 0 && (a / Span(d) + 1) * Span(d) > a
  {
    var q := a / Span(d) + 1;
    if d == 0 {
      assert q * 0x80_0000_0000 == q * 0x800_0000 * PGSIZE;
    } else if d == 1 {
      assert q * 0x4000_0000 == q * 0x4_0000 * PGSIZE;
    } else {
      assert q * 0x20_0000 == q * 512 * PGSIZE;
    }
  }

  lemma StuckByDepth(ph: Phys, ph': Phys, root: nat, va: nat)
    requires SameDepths(ph, ph', root)
    ensures Stuck(ph'.mem, root, va) == Stuck(ph.mem, root, va)
  {
  }

  lemma NoneStuckHead(ph: Phys, root: nat, a: nat, hi: nat)
    requires NoneStuck(ph, root, a, hi) && a < hi
    ensures !Stuck(ph.mem, root, a)
  {
  }

  lemma NoneStuckTail(ph: Phys, ph': Phys, root: nat, a: nat, b: nat, hi: nat)
    requires NoneStuck(ph, root, a, hi) && a <= b && SameDepths(ph, ph', root)
    ensures NoneStuck(ph', root, b, hi)
  {
    hide SameDepths, Stuck;
    forall va | b <= va < hi ensures !Stuck(ph'.mem, root, va) {
      StuckByDepth(ph, ph', root, va);
    }
  }

  /** With no stuck address in the range, the loop of deallocuvm ends, having freed
      exactly what a page-by-page scan frees. */
  lemma {:induction false} DeallocTerminates(ph: Phys, root: nat, a: nat, lo: nat, hi: nat) returns (n: nat)
    requires ph.Valid() && Scannable(ph, root, lo, hi) && lo <= a && a % PGSIZE == 0
    requires NoneStuck(ph, root, a, hi)
    ensures Rounds(Scan(ph, a), root, hi, n).a >= hi
    ensures Rounds(Scan(ph, a), root, hi, n).ph == NaiveScan(ph, root, a, hi)
    decreases hi - a
  {
    hide Scannable, Stuck, Depth, Round, SameDepths, Released, NoneStuck;
    if a >= hi {
      n := 0;
    } else {
      NoneStuckHead(ph, root, a, hi);
      var s := Round(Scan(ph, a), root);
      RoundRefinesScan(ph, root, a, lo, hi);
      NoneStuckTail(ph, s.ph, root, a, s.a, hi);
      var k := DeallocTerminates(s.ph, root, s.a, lo, hi);
      n := k + 1;
    }
  }

  /** With a stuck address in the range the loop never gets past it. */
  lemma {:induction false} DeallocDiverges(ph: Phys, root: nat, a: nat, hi: nat, stuck: nat, n: nat)
    requires ph.Valid() && Scannable(ph, root, 0, hi) && a % PGSIZE == 0
    requires a <= stuck < hi && stuck % PGSIZE == 0 && Stuck(ph.mem, root, stuck)
    ensures Rounds(Scan(ph, a), root, hi, n).a < hi
    decreases n
  {
    hide Scannable, Stuck, Depth, Round, SameDepths, Released;
    if n > 0 {
      var s := Round(Scan(ph, a), root);
      if Stuck(ph.mem, root, a) {
        StuckRound(ph, root, a);
      } else {
        RoundRefinesScan(ph, root, a, 0, hi);
        NotPastStuck(ph, root, a, stuck);
        StuckByDepth(ph, s.ph, root, stuck);
      }
      DeallocDiverges(s.ph, root, s.a, hi, stuck, n - 1);
    }
  }

  predicate Ends(ph: Phys, root: nat, a: nat, hi: nat, n: nat)
    requires ph.Valid()
  {
    Rounds(Scan(ph, a), root, hi, n).a >= hi
  }

  /** deallocuvm over pages from `a` up to `hi` ends if and only if no page of the range is
      stuck, and then its result is that of the naive scan. */
  lemma DeallocEndsIff(ph: Phys, root: nat, a: nat, hi: nat)
    requires ph.Valid() && Scannable(ph, root, 0, hi) && a % PGSIZE == 0
    ensures (exists n: nat :: Ends(ph, root, a, hi, n)) <==> NoneStuck(ph, root, a, hi)
    ensures forall n: nat :: Ends(ph, root, a, hi, n) ==>
              Rounds(Scan(ph, a), root, hi, n).ph == NaiveScan(ph, root, a, hi)
  {
    if NoneStuck(ph, root, a, hi) {
      var k := DeallocTerminates(ph, root, a, 0, hi);
      assert Ends(ph, root, a, hi, k);
      forall n: nat | Ends(ph, root, a, hi, n)
        ensures Rounds(Scan(ph, a), root, hi, n).ph == NaiveScan(ph, root, a, hi)
      {
        RoundsSettle(Scan(ph, a), root, hi, k, n);
      }
    } else {
      var va :| a <= va < hi && Stuck(ph.mem, root, va);
      StuckOnPage(ph.mem, root, va);
      assert PageRoundDown(va) >= a by { Aligned(a, va); }
      forall n: nat ensures !Ends(ph, root, a, hi, n) {
        DeallocDiverges(ph, root, a, hi, PageRoundDown(va), n);
      }
    }
  }

  lemma Aligned(a: nat, va: nat)
    requires a % PGSIZE == 0 && a <= va
    ensures a <= PageRoundDown(va)
  {
    assert a == a / PGSIZE * PGSIZE;
  }

  lemma StuckOnPage(mem: seq<seq<nat>>, root: nat, va: nat)
    requires Stuck(mem, root, va)
    ensures Stuck(mem, root, PageRoundDown(va))
  {
    hide Depth, PageRoundDown;
    RoundDownSpan(va);
    SameAbsentEntry(mem, root, va, PageRoundDown(va));
  }

  lemma RoundDownSpan(va: nat)
    ensures forall d :: va / Span(d) == PageRoundDown(va) / Span(d)
  {
    var p := va / PGSIZE;
    assert PageRoundDown(va) == p * PGSIZE;
    assert va / 0x20_0000 == p / 512 == p * PGSIZE / 0x20_0000;
    assert va / 0x4000_0000 == p / 0x4_0000 == p * PGSIZE / 0x4000_0000;
    assert va / 0x80_0000_0000 == p / 0x800_0000 == p * PGSIZE / 0x80_0000_0000;
  }

  lemma {:induction false} RoundsSettle(s: Scan, root: nat, hi: nat, m: nat, n: nat)
    requires s.ph.Valid()
    requires Rounds(s, root, hi, m).a >= hi && Rounds(s, root, hi, n).a >= hi
    ensures Rounds(s, root, hi, m) == Rounds(s, root, hi, n)
    decreases m
  {
    if s.a < hi {
      RoundsSettle(Round(s, root), root, hi, m - 1, n - 1);
    }
  }

  lemma StuckRound(ph: Phys, root: nat, a: nat)
    requires ph.Valid() && Stuck(ph.mem, root, a) && a % PGSIZE == 0
    ensures Round(Scan(ph, a), root).ph == ph && Round(Scan(ph, a), root).a <= a
    ensures Round(Scan(ph, a), root).a % PGSIZE == 0
  {
    NextAddress(ph.mem, root, a);
    NextAligned(ph.mem, root, a);
  }

  lemma NextAligned(mem: seq<seq<nat>>, root: nat, va: nat)
    requires Depth(mem, root, va) < 3
    ensures NextAfterAbsent(mem, root, va).Some? && NextAfterAbsent(mem, root, va).value % PGSIZE == 0
  {
    hide Depth, PgAddr, Pml4Index, PdptIndex, PdIndex;
    var d, i, j, k := Depth(mem, root, va), Pml4Index(va), PdptIndex(va), PdIndex(va);
    if d == 0 {
      PgAddrSum(i + 1, 0, 0, 0, 0);
      WholePages(i + 1, 0, 0);
    } else if d == 1 {
      if j < 511 {
        PgAddrSum(i, j + 1, 0, 0, 0);
        WholePages(i, j + 1, 0);
      } else {
        PgAddrCarryPdpt(i);
        WholePages(if i % 2 == 1 then i else i + 1, 0, 0);
      }
    } else {
      if k < 511 {
        PgAddrSum(i, j, k + 1, 0, 0);
        WholePages(i, j, k + 1);
      } else {
        PgAddrCarryPd(i, j);
        WholePages(i, if j % 2 == 1 then j else j + 1, 0);
      }
    }
  }

  lemma WholePages(i: nat, j: nat, k: nat)
    ensures (i * 0x80_0000_0000 + j * 0x4000_0000 + k * 0x20_0000) % PGSIZE == 0
  {
    assert i * 0x80_0000_0000 + j * 0x4000_0000 + k * 0x20_0000
        == PGSIZE * (i * 0x800_0000 + j * 0x4_0000 + k * 0x200);
  }

  lemma NotPastStuck(ph: Phys, root: nat, a: nat, stuck: nat)
    requires ph.Valid() && !Stuck(ph.mem, root, a) && Stuck(ph.mem, root, stuck)
    requires a <= stuck && a % PGSIZE == 0 && stuck % PGSIZE == 0
    ensures Round(Scan(ph, a), root).a <= stuck
  {
    hide Stuck, Depth, NextAfterAbsent, Released;
    if Depth(ph.mem, root, a) < 3 {
      NextAddress(ph.mem, root, a);
      if Round(Scan(ph, a), root).a > stuck {
        SkippedAlike(ph.mem, root, a, stuck);
      }
    } else {
      RoundAtTable(ph, root, a);
      NextPage(a, stuck);
    }
  }

  lemma NextPage(a: nat, b: nat)
    requires a % PGSIZE == 0 && b % PGSIZE == 0
    ensures a < b ==> a + PGSIZE <= b
  {
  }

  // ---- what the naive scan means

  predicate InScan(va: nat, a: nat, hi: nat) { a <= VPage(va) * PGSIZE < hi }

  /** Exactly the present entries of the range were cleared. */
  ghost predicate Cleared(before: Phys, after: Phys, root: nat, a: nat, hi: nat)
  {
    forall va :: Entry(after.mem, root, va) ==
      if InScan(va, a, hi) && Present(Entry(before.mem, root, va)) then 0 else Entry(before.mem, root, va)
  }

  lemma {:induction false} ScanClears(ph: Phys, root: nat, a: nat, lo: nat, hi: nat)
    requires ph.Valid() && Scannable(ph, root, lo, hi) && lo <= a && a % PGSIZE == 0 && hi <= LOW_HALF_END
    ensures Cleared(ph, NaiveScan(ph, root, a, hi), root, a, hi)
    decreases hi - a
  {
    hide Scannable, Released, Entry, SameDepths;
    if a < hi {
      var ph' := Released(ph, root, a);
      ReleaseKeepsScannable(ph, root, a, lo, hi);
      ReleaseClears(ph, root, a, lo, hi);
      ScanClears(ph', root, a + PGSIZE, lo, hi);
      ClearedStep(ph, ph', NaiveScan(ph, root, a, hi), root, a, hi);
    } else {
      forall va ensures !InScan(va, a, hi) { }
    }
  }

  ghost predicate PageCleared(before: Phys, after: Phys, root: nat, page: nat)
  {
    forall va :: Entry(after.mem, root, va) ==
      if VPage(va) == page && Present(Entry(before.mem, root, va)) then 0 else Entry(before.mem, root, va)
  }

  lemma ReleaseClears(ph: Phys, root: nat, a: nat, lo: nat, hi: nat)
    requires ph.Valid() && Scannable(ph, root, lo, hi) && lo <= a < hi
    ensures PageCleared(ph, Released(ph, root, a), root, VPage(a))
  {
    hide Released, VPage;
    var tabs :| LeavesFreeable(ph, root, tabs, lo, hi);
    ReleaseIsFlatUpdate(ph, root, tabs, a, lo, hi);
    forall va | VPage(va) == VPage(a) ensures Entry(ph.mem, root, va) == Entry(ph.mem, root, a) {
      SamePageSameEntry(ph, root, tabs, va, a);
    }
  }

  lemma SamePageSameEntry(ph: Phys, root: nat, tabs: Tables, va: nat, vb: nat)
    requires Tree(ph, root, tabs) && VPage(va) == VPage(vb)
    ensures Entry(ph.mem, root, va) == Entry(ph.mem, root, vb)
  {
    hide Tree;
    SlotInTree(ph, root, tabs, va);
    SlotInTree(ph, root, tabs, vb);
    if PathOf(va) in tabs {
      SlotsDistinct(ph, root, tabs, va, vb);
    } else if PathOf(vb) in tabs {
      SlotsDistinct(ph, root, tabs, vb, va);
    }
  }

  lemma ClearedStep(p0: Phys, p1: Phys, p2: Phys, root: nat, a: nat, hi: nat)
    requires a < hi <= LOW_HALF_END && a % PGSIZE == 0
    requires PageCleared(p0, p1, root, VPage(a))
    requires Cleared(p1, p2, root, a + PGSIZE, hi)
    ensures Cleared(p0, p2, root, a, hi)
  {
    hide Entry;
    assert VPage(a) * PGSIZE == a;
    forall va
      ensures Entry(p2.mem, root, va) ==
        if InScan(va, a, hi) && Present(Entry(p0.mem, root, va)) then 0 else Entry(p0.mem, root, va)
    {
      assert InScan(va, a, hi) <==> VPage(va) == VPage(a) || InScan(va, a + PGSIZE, hi);
      assert !Present(0);
    }
  }

  /** How many present entries of the range name frame `f`. */
  ghost function Drops(mem: seq<seq<nat>>, root: nat, a: nat, hi: nat, f: nat): nat
    decreases hi - a
  {
    if a >= hi then 0
    else (if Present(Entry(mem, root, a)) && FrameOf(Entry(mem, root, a)) == f then 1 else 0)
         + Drops(mem, root, a + PGSIZE, hi, f)
  }

  lemma {:induction false} DropsSame(m0: seq<seq<nat>>, m1: seq<seq<nat>>, root: nat, a: nat, hi: nat, f: nat)
    requires forall va :: a <= va < hi ==> Entry(m0, root, va) == Entry(m1, root, va)
    ensures Drops(m0, root, a, hi, f) == Drops(m1, root, a, hi, f)
    decreases hi - a
  {
    hide Entry;
    if a < hi {
      DropsSame(m0, m1, root, a + PGSIZE, hi, f);
    }
  }

  /** Every mapping of the range gives back exactly one reference: a frame loses as many
      references as it had mappings, becomes free exactly when none is left, and is not
      touched when it had none. */
  lemma {:induction false} ScanDropsRefs(ph: Phys, root: nat, a: nat, lo: nat, hi: nat, f: nat)
    requires ph.Valid() && Scannable(ph, root, lo, hi) && lo <= a && a % PGSIZE == 0 && hi <= LOW_HALF_END
    requires f < |ph.core| && Drops(ph.mem, root, a, hi, f) <= ph.core[f].ref
    ensures var k, e, e' := Drops(ph.mem, root, a, hi, f), ph.core[f], NaiveScan(ph, root, a, hi).core[f];
      && (k == 0 ==> e' == e)
      && e'.ref == e.ref - k
      && (!e.available && k > 0 ==> e'.available == (e'.ref == 0))
    decreases hi - a
  {
    hide Scannable, Entry, SameDepths, Slot, VPage;
    if a < hi {
      var ph' := Released(ph, root, a);
      ReleaseKeepsScannable(ph, root, a, lo, hi);
      LaterEntriesKept(ph, root, a, lo, hi);
      DropsSame(ph.mem, ph'.mem, root, a + PGSIZE, hi, f);
      ReleasedCore(ph, root, a, lo, hi, f);
      ScanDropsRefs(ph', root, a + PGSIZE, lo, hi, f);
    }
  }

  lemma LaterEntriesKept(ph: Phys, root: nat, a: nat, lo: nat, hi: nat)
    requires ph.Valid() && Scannable(ph, root, lo, hi) && lo <= a < hi <= LOW_HALF_END && a % PGSIZE == 0
    ensures forall va :: a + PGSIZE <= va < hi ==> Entry(Released(ph, root, a).mem, root, va) == Entry(ph.mem, root, va)
  {
    hide Entry, Released, Scannable;
    ReleaseClears(ph, root, a, lo, hi);
    forall va | a + PGSIZE <= va < hi ensures VPage(va) != VPage(a) {
      assert VPage(va) == va / PGSIZE && VPage(a) == a / PGSIZE;
    }
  }

  lemma ReleasedCore(ph: Phys, root: nat, a: nat, lo: nat, hi: nat, f: nat)
    requires ph.Valid() && Scannable(ph, root, lo, hi) && lo <= a < hi && f < |ph.core|
    ensures var w, e, e' := Entry(ph.mem, root, a), ph.core[f], Released(ph, root, a).core[f];
      |Released(ph, root, a).core| == |ph.core| &&
      if Present(w) && FrameOf(w) == f
      then e' == (if e.ref > 1 then e.(ref := e.ref - 1) else CoreEntry(true, false, 0, 0)) else e' == e
  {
    var tabs :| LeavesFreeable(ph, root, tabs, lo, hi);
    SlotInTree(ph, root, tabs, a);
    hide Tree, PathOf, PtIndex;
  }

  /** deallocuvm. */
  method DeallocUvm(m: Machine, root: nat, start: nat, oldsz: nat, newsz: nat) returns (r: nat)
    requires m.State().Valid() && start + oldsz <= WORD_END - PGSIZE
    requires Scannable(m.State(), root, PageRoundUp(start + newsz), start + oldsz)
    requires NoneStuck(m.State(), root, PageRoundUp(start + newsz), start + oldsz)
    modifies m
    ensures r == if newsz >= oldsz then oldsz else newsz
    ensures m.State() == NaiveScan(old(m.State()), root, PageRoundUp(start + newsz), start + oldsz)
  {
    hide Scannable, NoneStuck, SameDepths, NaiveScan, Depth, Stuck, Slot, Released;
    ghost var s0, lo := m.State(), PageRoundUp(start + newsz);
    if newsz >= oldsz {
      NothingToScan(s0, root, lo, start + oldsz);
      return oldsz;
    }
    var a := PageRoundUp(start + newsz);
    while a < start + oldsz
      invariant lo <= a && a % PGSIZE == 0 && m.State().Valid()
      invariant Scannable(m.State(), root, lo, start + oldsz) && NoneStuck(m.State(), root, a, start + oldsz)
      invariant NaiveScan(m.State(), root, a, start + oldsz) == NaiveScan(s0, root, lo, start + oldsz)
      decreases start + oldsz - a
    {
      ghost var before, a0 := m.State(), a;
      NoneStuckHead(before, root, a, start + oldsz);
      RoundRefinesScan(before, root, a, lo, start + oldsz);
      a := DeallocRound(m, root, a, lo, start + oldsz);
      NoneStuckTail(before, m.State(), root, a0, a, start + oldsz);
    }
    NothingToScan(m.State(), root, a, start + oldsz);
    r := newsz;
  }

  lemma NothingToScan(ph: Phys, root: nat, a: nat, hi: nat)
    requires ph.Valid() && a >= hi
    ensures NaiveScan(ph, root, a, hi) == ph
  {
  }

  lemma LeafFacts(ph: Phys, root: nat, a: nat, lo: nat, hi: nat)
    requires ph.Valid() && Scannable(ph, root, lo, hi) && lo <= a < hi
    ensures IsTree(ph, root)
    ensures Walked(ph, root, a, false).ph == ph && SlotFound(Walked(ph, root, a, false), a) == Slot(ph.mem, root, a)
    ensures var slot := Slot(ph.mem, root, a);
      slot.Some? ==>
        && slot.value.0 < |ph.mem| && slot.value.1 < ENTRIES
        && ph.mem[slot.value.0][slot.value.1] == Entry(ph.mem, root, a)
        && (Present(Entry(ph.mem, root, a)) ==> Freeable(ph, FrameOf(Entry(ph.mem, root, a))))
  {
    var tabs :| LeavesFreeable(ph, root, tabs, lo, hi);
    SlotInTree(ph, root, tabs, a);
    hide EntryMatches, PathOf, PtIndex, Walked;
    var t := WalkGrows(ph, root, tabs, a, false);
  }

  /** The body of the loop: walk, then skip an absent subtree or free a present page. */
  method DeallocRound(m: Machine, root: nat, a: nat, ghost lo: nat, ghost hi: nat) returns (next: nat)
    requires m.State().Valid() && Scannable(m.State(), root, lo, hi) && lo <= a < hi
    modifies m
    ensures Scan(m.State(), next) == Round(Scan(old(m.State()), a), root)
  {
    hide Scannable, IsTree, Walked, Depth, Slot, Entry, NextAfterAbsent;
    LeafFacts(m.State(), root, a, lo, hi);
    SlotDepth(m.mem, root, a);
    var pte := WalkPml4(m, root, a, false);
    if pte.None? {
      var p := FindNextPossiblePage(m, root, a);
      next := p + PGSIZE;
    } else {
      DepthFull(m.mem, root, a);
      var (t, i) := pte.value;
      if Present(m.mem[t][i]) {
        var f := FrameOf(m.mem[t][i]);
        m.Kfree(f);
        var page: seq<nat> := m.mem[t][i := 0];
        m.mem := m.mem[t := page];
      }
      next := a + PGSIZE;
    }
  }

  lemma DepthFull(mem: seq<seq<nat>>, root: nat, va: nat)
    requires Depth(mem, root, va) == 3
    ensures NextAfterAbsent(mem, root, va).None?
  {
  }

  /** find_next_possible_page: its panic is never reached after a failed walk. */
  method FindNextPossiblePage(m: Machine, root: nat, va: nat) returns (r: int)
    requires Slot(m.mem, root, va).None?
    ensures NextAfterAbsent(m.mem, root, va) == Some(r + PGSIZE)
  {
    SlotDepth(m.mem, root, va);
    var pdpt := Follow(m.mem, root, Pml4Index(va));
    if pdpt.None? {
      return PgAddr(Pml4Index(va) + 1, 0, 0, 0, 0) - PGSIZE;
    }
    var pgdir := Follow(m.mem, pdpt.value, PdptIndex(va));
    if pgdir.None? {
      return PgAddr(Pml4Index(va), PdptIndex(va) + 1, 0, 0, 0) - PGSIZE;
    }
    if Follow(m.mem, pgdir.value, PdIndex(va)).None? {
      return PgAddr(Pml4Index(va), PdptIndex(va), PdIndex(va) + 1, 0, 0) - PGSIZE;
    }
    assert false;
  }
}
