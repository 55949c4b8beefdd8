/** vspaceinvalidate (kernel/vspace.c:244-273): the page table of a process is rebuilt from
    its region descriptors, which are the source of truth. */
module VSpace {
  import opened Options
  import opened Mmu
  import opened Kalloc
  import opened PageTable
  import opened Teardown
  import opened FreeTables

  datatype Vpi = Vpi(used: bool, ppn: nat, present: bool, writable: bool, cow: bool)
  datatype Dir = Up | Down

  const EMPTY_VPI: Vpi := Vpi(false, 0, false, false, false)

  /** va2vpi_idx. */
  function VpiIndex(dir: Dir, base: nat, va: nat): int
  {
    if dir.Up? then (va - base) / PGSIZE else (base - 1 - va) / PGSIZE
  }

  /** A region and its descriptors, indexed as va2vpi_idx does. */
  datatype Region = Region(dir: Dir, base: nat, size: nat, infos: seq<Vpi>)
  {
    function Top(): nat { if dir.Up? then base + size else base }
    function Bottom(): int { if dir.Up? then base else base - size }

    predicate Valid() {
      Bottom() >= 0 && Bottom() % PGSIZE == 0 && Top() <= PML4_SPAN * PGSIZE
    }

    function Index(va: nat): int { VpiIndex(dir, base, va) }

    /** The record va2vpage_info leads to; a chunk not yet present reads as zeros. */
    function Lookup(va: nat): Vpi {
      if 0 <= Index(va) < |infos| then infos[Index(va)] else EMPTY_VPI
    }

    /** The page of `va` is one that the loop over the region visits. */
    predicate Spans(page: nat) { Bottom() <= page * PGSIZE < Top() }
  }

  /** x86perms. */
  function Perms(v: Vpi): (p: nat)
    ensures p < PGSIZE
    ensures Present(p) == v.present && Writable(p) == v.writable && User(p)
  {
    PTE_U + (if v.present then PTE_P else 0) + (if v.writable then PTE_W else 0)
  }

  function EntryFor(r: Region, page: nat): nat
  {
    var v := r.Lookup(page * PGSIZE);
    MakeEntry(v.ppn, Perms(v))
  }

  datatype PageMap = PageMap(vpn: nat, ppn: nat, perm: nat)

  /** The calls to mappages made for one region from address `start` on. */
  function RegionPages(r: Region, start: nat): seq<PageMap>
    decreases r.Top() - start
  {
    if start >= r.Top() then []
    else [PageMap(start / PGSIZE, r.Lookup(start).ppn, Perms(r.Lookup(start)))] + RegionPages(r, start + PGSIZE)
  }

  function AllPages(rs: seq<Region>): seq<PageMap>
    requires AllValid(rs)
  {
    if rs == [] then []
    else assert rs[0].Valid(); RegionPages(rs[0], rs[0].Bottom()) + AllPages(rs[1..])
  }

  function ListMapped(ph: Phys, root: nat, l: seq<PageMap>): (o: MapOutcome)
    requires ph.Valid()
    ensures o.ph.Valid()
    decreases |l|
  {
    if l == [] then MapOutcome(ph, Ok)
    else
      var o := MappedOne(ph, root, l[0].vpn, l[0].ppn, l[0].perm, false);
      if o.result != Ok then o else ListMapped(o.ph, root, l[1..])
  }

  /** The word a list of mappings gives to a page, `w` where it says nothing. */
  function ListTarget(l: seq<PageMap>, page: nat, w: nat): nat
  {
    if l == [] then w
    else if l[0].vpn == page then MakeEntry(l[0].ppn, l[0].perm)
    else ListTarget(l[1..], page, w)
  }

  ghost predicate Distinct(l: seq<PageMap>)
  {
    && (forall i :: 0 <= i < |l| ==> l[i].vpn < VPAGES)
    && (forall i, j :: 0 <= i < j < |l| ==> l[i].vpn != l[j].vpn)
  }

  ghost predicate ListAbsent(ph: Phys, root: nat, l: seq<PageMap>)
  {
    forall i :: 0 <= i < |l| ==> !Present(Entry(ph.mem, root, PageAddr(l[i].vpn)))
  }

  ghost predicate ListFlat(before: Phys, after: Phys, root: nat, l: seq<PageMap>)
  {
    forall va :: Entry(after.mem, root, va) == ListTarget(l, VPage(va), Entry(before.mem, root, va))
  }

  lemma ListAbsentStep(a: Phys, b: Phys, root: nat, l: seq<PageMap>)
    requires l != [] && Distinct(l) && ListAbsent(a, root, l)
    requires FlatUpdate(a, b, root, l[0].vpn % VPAGES, MakeEntry(l[0].ppn, l[0].perm))
    ensures Distinct(l[1..]) && ListAbsent(b, root, l[1..])
  {
    hide Entry, VPage;
    forall i | 0 <= i < |l[1..]|
      ensures !Present(Entry(b.mem, root, PageAddr(l[1..][i].vpn)))
    {
      VPageOf(l[i + 1].vpn);
      assert l[0].vpn != l[i + 1].vpn;
    }
  }

  lemma NotInList(l: seq<PageMap>, page: nat, w: nat)
    requires forall i :: 0 <= i < |l| ==> l[i].vpn != page
    ensures ListTarget(l, page, w) == w
  {
  }

  lemma ListFlatStep(a: Phys, b: Phys, c: Phys, root: nat, l: seq<PageMap>)
    requires l != [] && Distinct(l)
    requires FlatUpdate(a, b, root, l[0].vpn % VPAGES, MakeEntry(l[0].ppn, l[0].perm))
    requires ListFlat(b, c, root, l[1..])
    ensures ListFlat(a, c, root, l)
  {
    hide Entry, VPage, MakeEntry;
    forall va
      ensures Entry(c.mem, root, va) == ListTarget(l, VPage(va), Entry(a.mem, root, va))
    {
      if VPage(va) == l[0].vpn {
        NotInList(l[1..], VPage(va), Entry(b.mem, root, va));
      }
    }
  }

  /** Mapping a list of distinct absent pages never finds one mapped already, and on
      success gives the flat map exactly the listed words. */
  lemma {:induction false} ListMappedFlat(ph: Phys, root: nat, tabs: Tables, l: seq<PageMap>) returns (tabs': Tables)
    requires Tree(ph, root, tabs) && Distinct(l) && ListAbsent(ph, root, l)
    ensures var o := ListMapped(ph, root, l);
      && MapEffect(ph, o.ph, root, tabs, tabs')
      && o.result != Remap
      && (o.result == NoMemory ==> NoneAvailable(o.ph))
      && (o.result == BadFrame ==> exists i :: 0 <= i < |l| && l[i].ppn >= |ph.core|)
      && (o.result == Ok ==> ListFlat(ph, o.ph, root, l) && forall i :: 0 <= i < |l| ==> l[i].ppn < |ph.core|)
      && PathsFrom(tabs, tabs', l) && (o.result == Ok ==> PathsIn(tabs', l))
    decreases |l|
  {
    hide Tree, MapEffect, MappedOne, NoneAvailable, ListAbsent, Distinct, ListFlat, FlatUpdate;
    hide OnPath, PathsFrom, PathsIn, PathOf;
    InTree(ph, root, tabs, []);
    if l == [] {
      tabs' := tabs;
      NothingMapped(ph, root, tabs, 0, 0, 0);
      EmptyListFlat(ph, root);
      NoPaths(tabs);
    } else {
      var o1 := MappedOne(ph, root, l[0].vpn, l[0].ppn, l[0].perm, false);
      var t1 := MapOneFlat(ph, root, tabs, l[0].vpn, l[0].ppn, l[0].perm, false);
      EffectTree(ph, o1.ph, root, tabs, t1);
      HeadAbsent(ph, root, l);
      NoPaths(t1);
      PathsStep(tabs, t1, t1, l, []);
      if o1.result == Ok {
        ListAbsentStep(ph, o1.ph, root, l);
        tabs' := ListMappedFlat(o1.ph, root, t1, l[1..]);
        var o := ListMapped(o1.ph, root, l[1..]);
        EffectTransitive(ph, o1.ph, o.ph, root, tabs, t1, tabs');
        PathsStep(tabs, t1, tabs', l, l[1..]);
        if o.result == Ok {
          ListFlatStep(ph, o1.ph, o.ph, root, l);
          PathsInStep(o1.ph, o.ph, root, t1, tabs', l);
        }
      } else {
        tabs' := t1;
      }
    }
  }

  /** Every added table lies on the path to a listed page. */
  ghost predicate PathsFrom(tabs: Tables, tabs': Tables, l: seq<PageMap>)
  {
    forall x :: x in tabs' && x !in tabs ==> OnSome(x, l)
  }

  ghost predicate OnSome(x: Path, l: seq<PageMap>)
  {
    exists i :: 0 <= i < |l| && x <= PathOf(PageAddr(l[i].vpn))
  }

  /** The path to every listed page is there. */
  ghost predicate PathsIn(tabs: Tables, l: seq<PageMap>)
  {
    forall i :: 0 <= i < |l| ==> PathOf(PageAddr(l[i].vpn)) in tabs
  }

  lemma NoPaths(tabs: Tables)
    ensures PathsFrom(tabs, tabs, []) && PathsIn(tabs, [])
  {
  }

  lemma PathsStep(t0: Tables, t1: Tables, t2: Tables, l: seq<PageMap>, rest: seq<PageMap>)
    requires l != [] && (rest == l[1..] || rest == [])
    requires OnPath(t0, t1, PathOf(PageAddr(l[0].vpn))) && PathsFrom(t1, t2, rest)
    ensures PathsFrom(t0, t2, l)
  {
    hide PathOf, PageAddr;
    forall x | x in t2 && x !in t0 ensures OnSome(x, l) {
      if x in t1 {
        assert x <= PathOf(PageAddr(l[0].vpn));
      } else {
        var i :| 0 <= i < |rest| && x <= PathOf(PageAddr(rest[i].vpn));
        assert rest[i] == l[i + 1];
      }
    }
  }

  lemma PathsInStep(before: Phys, after: Phys, root: nat, t1: Tables, t2: Tables, l: seq<PageMap>)
    requires l != [] && PathOf(PageAddr(l[0].vpn)) in t1 && PathsIn(t2, l[1..])
    requires MapEffect(before, after, root, t1, t2)
    ensures PathsIn(t2, l)
  {
    hide PathOf, PageAddr, Tree;
    forall i | 0 <= i < |l| ensures PathOf(PageAddr(l[i].vpn)) in t2 {
      if i > 0 { assert l[1..][i - 1] == l[i]; }
    }
  }

  lemma HeadAbsent(ph: Phys, root: nat, l: seq<PageMap>)
    requires l != [] && ListAbsent(ph, root, l)
    ensures !Present(Entry(ph.mem, root, PageAddr(l[0].vpn)))
  {
  }

  lemma EmptyListFlat(ph: Phys, root: nat)
    ensures ListFlat(ph, ph, root, [])
  {
  }

  // ---- from the list of mappings back to the regions

  lemma {:induction false} RegionPagesAt(r: Region, start: nat, i: nat)
    requires start % PGSIZE == 0 && i < |RegionPages(r, start)|
    ensures RegionPages(r, start)[i].vpn == start / PGSIZE + i
    ensures start <= RegionPages(r, start)[i].vpn * PGSIZE < r.Top()
    decreases r.Top() - start
  {
    hide Perms;
    if i > 0 {
      RegionPagesAt(r, start + PGSIZE, i - 1);
    }
  }

  lemma {:induction false} RegionTarget(r: Region, start: nat, page: nat, w: nat)
    requires start % PGSIZE == 0
    ensures ListTarget(RegionPages(r, start), page, w)
         == if start <= page * PGSIZE < r.Top() then EntryFor(r, page) else w
    decreases r.Top() - start
  {
    hide Perms, MakeEntry;
    if start < r.Top() {
      RegionTarget(r, start + PGSIZE, page, w);
      var l := RegionPages(r, start);
      assert l[1..] == RegionPages(r, start + PGSIZE);
      assert start / PGSIZE * PGSIZE == start;
    }
  }

  lemma {:induction false} TargetConcat(a: seq<PageMap>, b: seq<PageMap>, page: nat, w: nat)
    ensures ListTarget(a + b, page, w) == ListTarget(a, page, ListTarget(b, page, w))
    decreases |a|
  {
    hide MakeEntry;
    if a == [] {
      assert a + b == b;
    } else {
      assert (a + b)[1..] == a[1..] + b;
      TargetConcat(a[1..], b, page, w);
    }
  }

  predicate AllValid(rs: seq<Region>) { forall i :: 0 <= i < |rs| ==> rs[i].Valid() }

  /** No page belongs to two regions. */
  ghost predicate Disjoint(rs: seq<Region>)
  {
    forall i, j, page :: 0 <= i < j < |rs| && rs[i].Spans(page) ==> !rs[j].Spans(page)
  }

  /** The word the regions ask for on a page. */
  function Wanted(rs: seq<Region>, page: nat, w: nat): nat
  {
    if rs == [] then w else if rs[0].Spans(page) then EntryFor(rs[0], page) else Wanted(rs[1..], page, w)
  }

  lemma {:induction false} AllPagesTarget(rs: seq<Region>, page: nat, w: nat)
    requires AllValid(rs)
    ensures ListTarget(AllPages(rs), page, w) == Wanted(rs, page, w)
    decreases |rs|
  {
    hide EntryFor;
    if rs != [] {
      AllPagesTarget(rs[1..], page, w);
      TargetConcat(RegionPages(rs[0], rs[0].Bottom()), AllPages(rs[1..]), page, w);
      RegionTarget(rs[0], rs[0].Bottom(), page, ListTarget(AllPages(rs[1..]), page, w));
    }
  }

  lemma {:induction false} AllPagesSpanned(rs: seq<Region>, i: nat) returns (j: nat)
    requires AllValid(rs) && i < |AllPages(rs)|
    ensures j < |rs| && rs[j].Spans(AllPages(rs)[i].vpn)
    decreases |rs|
  {
    var first := RegionPages(rs[0], rs[0].Bottom());
    if i < |first| {
      RegionPagesAt(rs[0], rs[0].Bottom(), i);
      j := 0;
    } else {
      var k := AllPagesSpanned(rs[1..], i - |first|);
      j := k + 1;
    }
  }

  lemma {:induction false} AllPagesDistinct(rs: seq<Region>)
    requires AllValid(rs) && Disjoint(rs)
    ensures Distinct(AllPages(rs))
    ensures forall i :: 0 <= i < |AllPages(rs)| ==> AllPages(rs)[i].vpn < PML4_SPAN
    decreases |rs|
  {
    if rs != [] {
      var first, rest := RegionPages(rs[0], rs[0].Bottom()), AllPages(rs[1..]);
      assert Disjoint(rs[1..]) by {
        forall i, j, page | 0 <= i < j < |rs[1..]| && rs[1..][i].Spans(page) ensures !rs[1..][j].Spans(page) {
          assert rs[i + 1].Spans(page);
        }
      }
      AllPagesDistinct(rs[1..]);
      forall i | 0 <= i < |first|
        ensures first[i].vpn == rs[0].Bottom() / PGSIZE + i && rs[0].Spans(first[i].vpn) && first[i].vpn < PML4_SPAN
      {
        RegionPagesAt(rs[0], rs[0].Bottom(), i);
      }
      forall i, j | 0 <= i < |first| && 0 <= j < |rest| ensures first[i].vpn != rest[j].vpn {
        var k := AllPagesSpanned(rs[1..], j);
        assert rs[k + 1].Spans(rest[j].vpn);
      }
    }
  }

  // ---- cutting off the user half

  /** vspaceinvalidate frees the tables below entry 0 and clears it. */
  function UserCut(ph: Phys, root: nat): (r: Option<Phys>)
    requires ph.Valid() && root < |ph.mem|
    ensures r.Some? ==> r.value.Valid()
  {
    if !Present(ph.mem[root][0]) then Some(ph)
    else match TableFreed(ph, FrameOf(ph.mem[root][0]), 0, 1)
      case None => None
      case Some(s) => Some(Stored(s, root, 0, 0))
  }

  ghost function Kept(tabs: Tables): Tables { map p | p in tabs && !([0] <= p) :: tabs[p] }

  lemma CutFrames(ph: Phys, root: nat, tabs: Tables) returns (s: Phys)
    requires Tree(ph, root, tabs) && (forall p :: p in tabs ==> Freeable(ph, tabs[p])) && [0] in tabs
    ensures FreedAll(ph, s, Subtree(tabs, [0]))
    ensures root < |ph.mem| && UserCut(ph, root) == Some(Stored(s, root, 0, 0))
  {
    assert [] + [0] == [0];
    assert EntryMatches(ph.mem, tabs, [], 0);
    BelowNothing(tabs, {}, [0]);
    NothingFreed(ph);
    FreesSubtree(ph, ph, root, tabs, {}, [0], 0);
    s := TableFreed(ph, tabs[[0]], 0, 1).value;
    assert {} + Subtree(tabs, [0]) == Subtree(tabs, [0]);
  }

  lemma KeptTables(ph: Phys, root: nat, tabs: Tables, p: Path)
    requires Tree(ph, root, tabs) && p in Kept(tabs)
    ensures tabs[p] !in Subtree(tabs, [0]) && (p != [] ==> Parent(p) in Kept(tabs) && tabs[p] != root)
  {
    if p != [] { assert Parent(p) in tabs; }
  }

  lemma CutKeepsTree(ph: Phys, s: Phys, root: nat, tabs: Tables)
    requires Tree(ph, root, tabs) && FreedAll(ph, s, Subtree(tabs, [0])) && root < |ph.mem|
    ensures Tree(Stored(s, root, 0, 0), root, Kept(tabs))
  {
    hide Follow, EntryMatches, Subtree;
    var t, cut := Kept(tabs), Stored(s, root, 0, 0);
    forall p | p in t ensures tabs[p] !in Subtree(tabs, [0]) && (p != [] ==> Parent(p) in t) {
      KeptTables(ph, root, tabs, p);
    }
    forall p, i | p in t && |p| < 3 && 0 <= i < ENTRIES
      ensures EntryMatches(cut.mem, t, p, i)
    {
      CutEntryMatches(ph, s, root, tabs, p, i);
    }
  }

  lemma CutEntryMatches(ph: Phys, s: Phys, root: nat, tabs: Tables, p: Path, i: nat)
    requires Tree(ph, root, tabs) && FreedAll(ph, s, Subtree(tabs, [0])) && root < |ph.mem|
    requires p in Kept(tabs) && |p| < 3 && i < ENTRIES
    ensures EntryMatches(Stored(s, root, 0, 0).mem, Kept(tabs), p, i)
  {
    KeptTables(ph, root, tabs, p);
    assert EntryMatches(ph.mem, tabs, p, i) && tabs[p] < |ph.mem|;
    assert p + [i] in Kept(tabs) <==> p + [i] in tabs && !(p == [] && i == 0);
    assert p == [] ==> tabs[p] == root;
    hide Tree, Subtree;
  }

  /** Cutting the user half off clears every translation of the first top-level entry and
      keeps all others. */
  lemma CutEntries(ph: Phys, root: nat, tabs: Tables) returns (tabs': Tables)
    requires Tree(ph, root, tabs) && forall p :: p in tabs ==> Freeable(ph, tabs[p])
    ensures root < |ph.mem| && UserCut(ph, root).Some?
    ensures Tree(UserCut(ph, root).value, root, tabs')
    ensures HalfCleared(ph, UserCut(ph, root).value, root)
    ensures OthersSafe(ph, UserCut(ph, root).value, tabs, tabs') && Extends(tabs', tabs)
    ensures forall x: Path :: x in tabs' ==> !([0] <= x)
  {
    assert [] + [0] == [0];
    assert EntryMatches(ph.mem, tabs, [], 0);
    if [0] !in tabs {
      tabs' := tabs;
      NoUserHalf(ph, root, tabs);
      forall x: Path | x in tabs ensures !([0] <= x) {
        if [0] <= x {
          assert [0] + x[1..] == x;
          PrefixClosed(ph, root, tabs, [0], x[1..]);
        }
      }
    } else {
      var s := CutFrames(ph, root, tabs);
      tabs' := Kept(tabs);
      CutKeepsTree(ph, s, root, tabs);
      CutIsHalf(ph, s, root, tabs);
      CutSafe(ph, s, root, tabs);
    }
  }

  /** The tables of a process: a tree of frames that kfree takes back. */
  ghost predicate OwnTree(ph: Phys, root: nat, tabs: Tables)
  {
    Tree(ph, root, tabs) && forall p :: p in tabs ==> Freeable(ph, tabs[p])
  }

  /** The free frames lie above the kernel image, as mem_init leaves them. */
  ghost predicate FreeAboveKernel(ph: Phys)
  {
    forall f :: 0 <= f < |ph.core| && ph.core[f].available ==> Freeable(ph, f)
  }

  /** Frames in use outside the tables keep their words and references, and stay outside the
      tables. */
  ghost predicate OthersSafe(before: Phys, after: Phys, tabs: Tables, tabs': Tables)
  {
    && before.Valid() && after.Valid() && |after.core| == |before.core| && after.kend == before.kend
    && forall f :: 0 <= f < |before.core| && !before.core[f].available && f !in tabs.Values ==>
         && f !in tabs'.Values && !after.core[f].available
         && after.core[f].ref == before.core[f].ref && after.mem[f] == before.mem[f]
  }

  lemma CutSafe(ph: Phys, s: Phys, root: nat, tabs: Tables)
    requires Tree(ph, root, tabs) && FreedAll(ph, s, Subtree(tabs, [0])) && root < |ph.mem|
    ensures OthersSafe(ph, Stored(s, root, 0, 0), tabs, Kept(tabs))
  {
    hide EntryMatches;
    assert root in tabs.Values;
    assert forall f :: f in Subtree(tabs, [0]) ==> f in tabs.Values;
    assert forall f :: f in Kept(tabs).Values ==> f in tabs.Values;
  }

  lemma EffectSafe(before: Phys, after: Phys, root: nat, tabs: Tables, tabs': Tables)
    requires MapEffect(before, after, root, tabs, tabs')
    ensures OthersSafe(before, after, tabs, tabs')
  {
    hide Tree;
    forall f | 0 <= f < |before.core| && !before.core[f].available && f !in tabs.Values ensures f !in tabs'.Values {
      if p :| p in tabs' && tabs'[p] == f { assert p in tabs; }
    }
  }

  lemma SafeTransitive(a: Phys, b: Phys, c: Phys, t0: Tables, t1: Tables, t2: Tables)
    requires OthersSafe(a, b, t0, t1) && OthersSafe(b, c, t1, t2)
    ensures OthersSafe(a, c, t0, t2)
  {
  }

  /** New tables and free frames come from old tables and frames that were free. */
  lemma SafeOwns(before: Phys, after: Phys, root: nat, tabs: Tables, tabs': Tables)
    requires OwnTree(before, root, tabs) && FreeAboveKernel(before) && OthersSafe(before, after, tabs, tabs')
    requires Tree(after, root, tabs')
    ensures OwnTree(after, root, tabs') && FreeAboveKernel(after)
  {
    assert |after.core| == |before.core| && after.kend == before.kend;
    assert forall p :: p in tabs' ==> tabs'[p] in tabs'.Values && tabs'[p] < |after.core|;
    hide EntryMatches, Tree;
    forall f | 0 <= f < |before.core| && (after.core[f].available || f in tabs'.Values) ensures Freeable(after, f) {
      assert before.core[f].available || f in tabs.Values;
      if f in tabs.Values {
        var p :| p in tabs && tabs[p] == f;
      }
    }
  }

  ghost predicate HalfCleared(before: Phys, after: Phys, root: nat)
  {
    forall va :: Entry(after.mem, root, va) == if Pml4Index(va) == 0 then 0 else Entry(before.mem, root, va)
  }

  lemma NoUserHalf(ph: Phys, root: nat, tabs: Tables)
    requires Tree(ph, root, tabs) && [0] !in tabs
    ensures HalfCleared(ph, ph, root)
  {
    hide Tree, Entry;
    forall va ensures Pml4Index(va) == 0 ==> Entry(ph.mem, root, va) == 0 {
      SlotInTree(ph, root, tabs, va);
      if PathOf(va) in tabs && Pml4Index(va) == 0 {
        assert [0] + PathOf(va)[1..] == PathOf(va);
        PrefixClosed(ph, root, tabs, [0], PathOf(va)[1..]);
      }
    }
  }

  lemma CutIsHalf(ph: Phys, s: Phys, root: nat, tabs: Tables)
    requires Tree(ph, root, tabs) && FreedAll(ph, s, Subtree(tabs, [0])) && root < |ph.mem|
    requires Tree(Stored(s, root, 0, 0), root, Kept(tabs))
    ensures HalfCleared(ph, Stored(s, root, 0, 0), root)
  {
    var cut := Stored(s, root, 0, 0);
    hide Entry;
    forall va ensures Entry(cut.mem, root, va) == if Pml4Index(va) == 0 then 0 else Entry(ph.mem, root, va) {
      SlotInTree(ph, root, tabs, va);
      SlotInTree(cut, root, Kept(tabs), va);
      var p := PathOf(va);
      assert [0] <= p <==> Pml4Index(va) == 0;
      if p in tabs && Pml4Index(va) != 0 {
        assert tabs[p] !in Subtree(tabs, [0]) && tabs[p] != root;
      }
    }
  }

  // ---- the rebuild as a whole

  /** vspaceinvalidate as a function; None is a panic of kfree. */
  function Invalidated(ph: Phys, root: nat, rs: seq<Region>): Option<MapOutcome>
    requires ph.Valid() && root < |ph.mem| && AllValid(rs)
  {
    match UserCut(ph, root)
    case None => None
    case Some(cut) => Some(ListMapped(cut, root, AllPages(rs)))
  }

  /** Below the first top-level entry the flat map is what the regions ask for, and the processor
      grants what it says; the rest is as before. */
  ghost predicate Rebuilt(before: Phys, after: Phys, root: nat, rs: seq<Region>)
  {
    FlatRebuilt(before, after, root, rs) && UserGranted(after, root)
  }

  ghost predicate FlatRebuilt(before: Phys, after: Phys, root: nat, rs: seq<Region>)
  {
    forall va :: Entry(after.mem, root, va)
      == if Pml4Index(va) == 0 then Wanted(rs, VPage(va), 0) else Entry(before.mem, root, va)
  }

  ghost predicate UserGranted(ph: Phys, root: nat)
  {
    forall va :: Pml4Index(va) == 0 ==> Access(ph.mem, root, va) == LeafGrant(Entry(ph.mem, root, va))
  }

  /** All user tables are new, and new tables take no permission away. */
  lemma NewTablesGrant(cut: Phys, after: Phys, root: nat, t1: Tables, tabs: Tables)
    requires MapEffect(cut, after, root, t1, tabs) && forall x: Path :: x in t1 ==> !([0] <= x)
    ensures UserGranted(after, root)
  {
    assert OpenUnder(cut.mem, t1, [0]);
    hide OpenUnder, Tree, Access, LeafGrant, Entry;
    EffectOpen(cut, after, root, t1, tabs, [0]);
    EffectTree(cut, after, root, t1, tabs);
    forall va | Pml4Index(va) == 0 ensures Access(after.mem, root, va) == LeafGrant(Entry(after.mem, root, va)) {
      assert [0] <= PathOf(va);
      AccessIsLeaf(after, root, tabs, [0], va);
    }
  }

  lemma RebuiltBoth(before: Phys, after: Phys, root: nat, rs: seq<Region>)
    requires FlatRebuilt(before, after, root, rs) && UserGranted(after, root)
    ensures Rebuilt(before, after, root, rs)
  {
  }

  lemma UserPage(va: nat)
    ensures Pml4Index(va) == 0 <==> VPage(va) < PML4_SPAN
  {
    IndicesOfPage(va);
  }

  lemma RebuiltFrom(a: Phys, b: Phys, c: Phys, root: nat, rs: seq<Region>)
    requires AllValid(rs) && Disjoint(rs)
    requires HalfCleared(a, b, root) && ListFlat(b, c, root, AllPages(rs))
    ensures FlatRebuilt(a, c, root, rs)
  {
    hide Entry, VPage, Pml4Index, Wanted;
    AllPagesDistinct(rs);
    forall va
      ensures Entry(c.mem, root, va) == if Pml4Index(va) == 0 then Wanted(rs, VPage(va), 0) else Entry(a.mem, root, va)
    {
      UserPage(va);
      AllPagesTarget(rs, VPage(va), Entry(b.mem, root, va));
      if Pml4Index(va) != 0 {
        NotInList(AllPages(rs), VPage(va), Entry(b.mem, root, va));
      }
    }
  }

  lemma CutAbsent(a: Phys, b: Phys, root: nat, l: seq<PageMap>)
    requires HalfCleared(a, b, root) && forall i :: 0 <= i < |l| ==> l[i].vpn < PML4_SPAN
    ensures ListAbsent(b, root, l)
  {
    hide Entry, VPage, Pml4Index;
    forall i | 0 <= i < |l| ensures !Present(Entry(b.mem, root, PageAddr(l[i].vpn))) {
      UserPage(PageAddr(l[i].vpn));
      VPageOf(l[i].vpn);
    }
  }

  /** The tables of the user half lie on the paths to pages of the regions. */
  ghost predicate UserTables(tabs: Tables, rs: seq<Region>)
    requires AllValid(rs)
  {
    forall x: Path :: x in tabs && [0] <= x ==> OnSome(x, AllPages(rs))
  }

  lemma OnlyListed(t1: Tables, tabs: Tables, rs: seq<Region>)
    requires AllValid(rs) && PathsFrom(t1, tabs, AllPages(rs)) && forall x: Path :: x in t1 ==> !([0] <= x)
    ensures UserTables(tabs, rs)
  {
    hide OnSome, AllPages;
  }

  /** For page-disjoint regions, vspaceinvalidate never frees a wrong frame and never finds
      a page mapped twice; it can fail only for lack of frames or on a descriptor naming
      a frame that does not exist, and otherwise the user half of the page table is
      exactly what the regions ask for while every other top-level entry is untouched.  No
      frame in use outside the tables is touched or becomes a table, and the new tables can
      be freed again. */
  lemma InvalidateRebuilds(ph: Phys, root: nat, tabs: Tables, rs: seq<Region>) returns (tabs': Tables)
    requires Tree(ph, root, tabs) && (forall p :: p in tabs ==> Freeable(ph, tabs[p]))
    requires AllValid(rs) && Disjoint(rs)
    ensures root < |ph.mem| && Invalidated(ph, root, rs).Some?
    ensures var o := Invalidated(ph, root, rs).value;
      && Tree(o.ph, root, tabs')
      && (o.result == Ok || o.result == NoMemory || o.result == BadFrame)
      && (o.result == NoMemory ==> NoneAvailable(o.ph))
      && (o.result == Ok ==> Rebuilt(ph, o.ph, root, rs))
      && (o.result == Ok ==> forall i :: 0 <= i < |AllPages(rs)| ==> AllPages(rs)[i].ppn < FRAMES)
      && OthersSafe(ph, o.ph, tabs, tabs')
      && (FreeAboveKernel(ph) ==> OwnTree(o.ph, root, tabs') && FreeAboveKernel(o.ph))
    ensures UserTables(tabs', rs)
    ensures Invalidated(ph, root, rs).value.result == Ok ==> PathsIn(tabs', AllPages(rs))
  {
    hide Tree, UserCut, OthersSafe, Extends, FreeAboveKernel, PathsFrom, PathsIn, MapEffect, NoneAvailable,
      HalfCleared, Rebuilt, FlatRebuilt, UserGranted, ListAbsent, Distinct, ListFlat,
      AllValid, Disjoint;
    var t1 := CutEntries(ph, root, tabs);
    InTree(ph, root, tabs, []);
    var cut := UserCut(ph, root).value;
    AllPagesDistinct(rs);
    CutAbsent(ph, cut, root, AllPages(rs));
    tabs' := ListMappedFlat(cut, root, t1, AllPages(rs));
    var o := ListMapped(cut, root, AllPages(rs));
    EffectTree(cut, o.ph, root, t1, tabs');
    EffectSafe(cut, o.ph, root, t1, tabs');
    SafeTransitive(ph, cut, o.ph, tabs, t1, tabs');
    if FreeAboveKernel(ph) { SafeOwns(ph, o.ph, root, tabs, tabs'); }
    OnlyListed(t1, tabs', rs);
    if o.result == Ok {
      RebuiltFrom(ph, cut, o.ph, root, rs);
      NewTablesGrant(cut, o.ph, root, t1, tabs');
      RebuiltBoth(ph, o.ph, root, rs);
    }
  }

  lemma {:induction false} WantedNone(rs: seq<Region>, page: nat)
    requires forall j :: 0 <= j < |rs| ==> !rs[j].Spans(page)
    ensures Wanted(rs, page, 0) == 0
    decreases |rs|
  {
    hide EntryFor;
    if rs != [] {
      WantedNone(rs[1..], page);
    }
  }

  lemma {:induction false} WantedBy(rs: seq<Region>, page: nat, j: nat)
    requires Disjoint(rs) && j < |rs| && rs[j].Spans(page)
    ensures Wanted(rs, page, 0) == EntryFor(rs[j], page)
    decreases |rs|
  {
    hide EntryFor;
    if j > 0 {
      assert !rs[0].Spans(page);
      assert Disjoint(rs[1..]) by {
        forall i, k, pg | 0 <= i < k < |rs[1..]| && rs[1..][i].Spans(pg) ensures !rs[1..][k].Spans(pg) {
          assert rs[i + 1].Spans(pg);
        }
      }
      WantedBy(rs[1..], page, j - 1);
    }
  }

  lemma {:induction false} RegionHasPage(r: Region, start: nat, page: nat) returns (i: nat)
    requires start % PGSIZE == 0 && start <= page * PGSIZE < r.Top()
    ensures i < |RegionPages(r, start)| && RegionPages(r, start)[i].vpn == page
    ensures RegionPages(r, start)[i].ppn == r.Lookup(page * PGSIZE).ppn
    decreases r.Top() - start
  {
    hide Perms;
    if start == page * PGSIZE {
      i := 0;
    } else {
      var k := RegionHasPage(r, start + PGSIZE, page);
      i := k + 1;
    }
  }

  lemma {:induction false} ListHasPage(rs: seq<Region>, page: nat, j: nat) returns (i: nat)
    requires AllValid(rs) && j < |rs| && rs[j].Spans(page)
    ensures i < |AllPages(rs)| && AllPages(rs)[i].vpn == page && AllPages(rs)[i].ppn == rs[j].Lookup(page * PGSIZE).ppn
    decreases |rs|
  {
    assert rs[0].Valid();
    var first := RegionPages(rs[0], rs[0].Bottom());
    if j == 0 {
      i := RegionHasPage(rs[0], rs[0].Bottom(), page);
    } else {
      var k := ListHasPage(rs[1..], page, j - 1);
      i := |first| + k;
    }
  }

  /** The processor grants the user the address, in frame `f` and with the given permission. */
  ghost predicate Translates(ph: Phys, root: nat, va: nat, f: nat, writable: bool)
  {
    Access(ph.mem, root, va) == Granted(f, writable, true)
  }

  /** Some region spans the page with a present descriptor of those values. */
  ghost predicate Described(rs: seq<Region>, page: nat, f: nat, writable: bool)
  {
    exists j :: 0 <= j < |rs| && rs[j].Spans(page) &&
      var v := rs[j].Lookup(page * PGSIZE); v.present && v.ppn == f && v.writable == writable
  }

  /** The entry of a user address after a rebuild: a present one is the user's, and is there exactly
      if a region describes it. */
  lemma EntryIff(before: Phys, after: Phys, root: nat, rs: seq<Region>, va: nat, f: nat, writable: bool)
    requires AllValid(rs) && Disjoint(rs) && FlatRebuilt(before, after, root, rs) && Pml4Index(va) == 0
    requires forall i :: 0 <= i < |AllPages(rs)| ==> AllPages(rs)[i].ppn < FRAMES
    ensures LeafGrant(Entry(after.mem, root, va)) == Granted(f, writable, true)
      <==> Described(rs, VPage(va), f, writable)
    ensures Present(Entry(after.mem, root, va)) ==> User(Entry(after.mem, root, va))
  {
    hide Entry, VPage, Wanted, Disjoint, AllPages, MakeEntry;
    var page := VPage(va);
    if j :| 0 <= j < |rs| && rs[j].Spans(page) {
      WantedBy(rs, page, j);
      var v := rs[j].Lookup(page * PGSIZE);
      var i := ListHasPage(rs, page, j);
      EntryRoundTrip(v.ppn, Perms(v));
      forall k | 0 <= k < |rs| && rs[k].Spans(page) ensures k == j {
        OneSpans(rs, page, j, k);
      }
    } else {
      WantedNone(rs, page);
    }
  }

  /** After a rebuild the processor grants the user an address, in a frame and with a permission, if
      and only if a region describes exactly that. */
  lemma TranslatesIff(before: Phys, after: Phys, root: nat, rs: seq<Region>, va: nat, f: nat, writable: bool)
    requires AllValid(rs) && Disjoint(rs) && Rebuilt(before, after, root, rs) && Pml4Index(va) == 0
    requires forall i :: 0 <= i < |AllPages(rs)| ==> AllPages(rs)[i].ppn < FRAMES
    ensures Translates(after, root, va, f, writable) <==> Described(rs, VPage(va), f, writable)
  {
    hide Entry, Access, LeafGrant, VPage, Disjoint, AllPages, FlatRebuilt, Described;
    EntryIff(before, after, root, rs, va, f, writable);
  }

  lemma OneSpans(rs: seq<Region>, page: nat, j: nat, k: nat)
    requires Disjoint(rs) && j < |rs| && k < |rs| && rs[j].Spans(page) && rs[k].Spans(page)
    ensures j == k
  {
  }

  // ---- teardown after a rebuild

  /** Some region has a page under position `p`. */
  ghost predicate Touches(rs: seq<Region>, p: Path)
  {
    exists j, page: nat :: 0 <= j < |rs| && rs[j].Spans(page) && p <= PathOf(PageAddr(page))
  }

  /** Present descriptors name frames in use that are neither the kernel's nor tables. */
  ghost predicate FramesInUse(ph: Phys, tabs: Tables, rs: seq<Region>)
  {
    forall j, page: nat :: 0 <= j < |rs| && rs[j].Spans(page) && rs[j].Lookup(page * PGSIZE).present ==>
      var f := rs[j].Lookup(page * PGSIZE).ppn;
      f != 0 && Freeable(ph, f) && !ph.core[f].available && f !in tabs.Values
  }

  /** After a rebuild a user table is there exactly if a region has a page under it. */
  lemma TableIff(ph: Phys, root: nat, tabs: Tables, rs: seq<Region>, p: Path)
    requires Tree(ph, root, tabs) && AllValid(rs) && UserTables(tabs, rs) && PathsIn(tabs, AllPages(rs)) && [0] <= p
    ensures p in tabs <==> Touches(rs, p)
  {
    hide Tree, AllPages, PathOf, PageAddr;
    if p in tabs {
      var l := AllPages(rs);
      var i :| 0 <= i < |l| && p <= PathOf(PageAddr(l[i].vpn));
      var j := AllPagesSpanned(rs, i);
    }
    if j, page: nat :| 0 <= j < |rs| && rs[j].Spans(page) && p <= PathOf(PageAddr(page)) {
      var i := ListHasPage(rs, page, j);
      var q := PathOf(PageAddr(page));
      assert q in tabs && p + q[|p|..] == q;
      PrefixClosed(ph, root, tabs, p, q[|p|..]);
    }
  }

  lemma RebuiltFreeable(before: Phys, after: Phys, root: nat, tabs: Tables, tabs': Tables, rs: seq<Region>)
    requires AllValid(rs) && Disjoint(rs) && Rebuilt(before, after, root, rs) && Tree(after, root, tabs')
    requires forall i :: 0 <= i < |AllPages(rs)| ==> AllPages(rs)[i].ppn < FRAMES
    requires FramesInUse(before, tabs, rs) && OthersSafe(before, after, tabs, tabs')
    ensures LeavesFreeable(after, root, tabs', 0, SZ_4G)
  {
    assert FlatRebuilt(before, after, root, rs);
    hide Tree, Disjoint, Rebuilt, FlatRebuilt, AllPages, Entry, VPage;
    forall va: nat | va < SZ_4G && Present(Entry(after.mem, root, va))
      ensures var f := FrameOf(Entry(after.mem, root, va)); f != 0 && Freeable(after, f) && f !in tabs'.Values
    {
      var w := Entry(after.mem, root, va);
      assert Pml4Index(va) == 0;
      EntryIff(before, after, root, rs, va, FrameOf(w), Writable(w));
      assert Described(rs, VPage(va), FrameOf(w), Writable(w));
    }
  }

  /** freevm on a rebuilt table ends exactly if the regions have no page in [1 GB, 2 GB) or one in
      its last 2 MB, and the same of [3 GB, 4 GB). */
  lemma FreevmEndsAfter(ph: Phys, root: nat, tabs: Tables, rs: seq<Region>)
    requires OwnTree(ph, root, tabs) && AllValid(rs) && Disjoint(rs) && FramesInUse(ph, tabs, rs)
    ensures root < |ph.mem| && Invalidated(ph, root, rs).Some?
    ensures var o := Invalidated(ph, root, rs).value;
      o.result == Ok ==>
        ((exists n: nat :: Ends(o.ph, root, 0, SZ_4G, n)) <==>
         (Touches(rs, [0, 1]) ==> Touches(rs, [0, 1, 511])) && (Touches(rs, [0, 3]) ==> Touches(rs, [0, 3, 511])))
  {
    hide Tree, Invalidated, Rebuilt, AllPages, OthersSafe, FreeAboveKernel, UserTables, PathsIn, Touches, Ends;
    hide Disjoint, AllValid, LeavesFreeable, NoneAvailable, FramesInUse;
    OkValid(ph, root, tabs);
    var tabs' := InvalidateRebuilds(ph, root, tabs, rs);
    var o := Invalidated(ph, root, rs).value;
    if o.result == Ok {
      RebuiltFreeable(ph, o.ph, root, tabs, tabs', rs);
      TableIff(o.ph, root, tabs', rs, [0, 1]);
      TableIff(o.ph, root, tabs', rs, [0, 1, 511]);
      TableIff(o.ph, root, tabs', rs, [0, 3]);
      TableIff(o.ph, root, tabs', rs, [0, 3, 511]);
      OkValid(o.ph, root, tabs');
      FreevmEndsIff(o.ph, root, tabs');
    }
  }

  lemma OkValid(ph: Phys, root: nat, tabs: Tables)
    requires Tree(ph, root, tabs)
    ensures ph.Valid()
  {
  }

  const LAST_BELOW_2G: nat := 0x7_FFFF

  /** The layout of exec: every region lies below 2 GB and the stack has the page right below it.
      There freevm ends. */
  lemma ExecLayoutEnds(ph: Phys, root: nat, tabs: Tables, rs: seq<Region>, j: nat)
    requires OwnTree(ph, root, tabs) && AllValid(rs) && Disjoint(rs) && FramesInUse(ph, tabs, rs)
    requires (forall k :: 0 <= k < |rs| ==> rs[k].Top() <= 0x8000_0000) && j < |rs| && rs[j].Spans(LAST_BELOW_2G)
    ensures root < |ph.mem| && Invalidated(ph, root, rs).Some?
    ensures var o := Invalidated(ph, root, rs).value;
      o.result == Ok ==> exists n: nat :: Ends(o.ph, root, 0, SZ_4G, n)
  {
    hide Ends, Invalidated, Disjoint, FramesInUse, Tree, Touches, AllValid;
    LowLayout(rs, j);
    FreevmEndsAfter(ph, root, tabs, rs);
  }

  lemma LowLayout(rs: seq<Region>, j: nat)
    requires (forall k :: 0 <= k < |rs| ==> rs[k].Top() <= 0x8000_0000) && j < |rs| && rs[j].Spans(LAST_BELOW_2G)
    ensures Touches(rs, [0, 1, 511]) && !Touches(rs, [0, 3])
  {
    LowPage(LAST_BELOW_2G);
    hide PathOf, PageAddr;
    if Touches(rs, [0, 3]) {
      var k, page: nat :| 0 <= k < |rs| && rs[k].Spans(page) && [0, 3] <= PathOf(PageAddr(page));
      assert PathOf(PageAddr(page))[1] == 3;
      LowPage(page);
    }
  }

  lemma LowPage(page: nat)
    requires page * PGSIZE < 0x8000_0000
    ensures PathOf(PageAddr(page))[1] < 2
    ensures PathOf(PageAddr(LAST_BELOW_2G)) == [0, 1, 511]
  {
  }

  lemma CutKeepsIsTree(ph: Phys, root: nat, tabs: Tables)
    requires Tree(ph, root, tabs) && forall p :: p in tabs ==> Freeable(ph, tabs[p])
    ensures root < |ph.mem| && UserCut(ph, root).Some? && IsTree(UserCut(ph, root).value, root)
  {
    hide UserCut, HalfCleared;
    var t := CutEntries(ph, root, tabs);
  }

  lemma ListStep(ph: Phys, root: nat, l: seq<PageMap>)
    requires ph.Valid() && l != []
    ensures var o := MappedOne(ph, root, l[0].vpn, l[0].ppn, l[0].perm, false);
      ListMapped(ph, root, l) == if o.result != Ok then o else ListMapped(o.ph, root, l[1..])
  {
  }

  /** vspaceinvalidate: free the user tables, then map every page of every region. */
  method VspaceInvalidate(m: Machine, root: nat, ghost tabs: Tables, regions: seq<Region>)
    returns (r: Option<MapResult>)
    requires m.State().Valid() && root < |m.mem|
    requires Tree(m.State(), root, tabs) && forall p :: p in tabs ==> Freeable(m.State(), tabs[p])
    requires AllValid(regions)
    modifies m
    ensures r.Some? == Invalidated(old(m.State()), root, regions).Some?
    ensures r.Some? ==> Invalidated(old(m.State()), root, regions).value == MapOutcome(m.State(), r.value)
  {
    hide Tree, IsTree, TableFreed, MappedOne, ListMapped, Invalidated;
    ghost var s0 := m.State();
    CutKeepsIsTree(s0, root, tabs);
    InvalidatedIs(s0, root, regions);
    if Present(m.mem[root][0]) {
      var pdpt := FrameOf(m.mem[root][0]);
      if pdpt >= |m.mem| {
        WildTable(m.State(), pdpt, 1);
        return None;
      }
      var ok := FreevmPdpt(m, pdpt);
      if !ok {
        return None;
      }
      var page: seq<nat> := m.mem[root][0 := 0];
      m.mem := m.mem[root := page];
    }
    assert m.State() == UserCut(s0, root).value;
    var result := MapRegions(m, root, regions);
    r := Some(result);
  }

  lemma InvalidatedIs(ph: Phys, root: nat, rs: seq<Region>)
    requires ph.Valid() && root < |ph.mem| && AllValid(rs)
    ensures UserCut(ph, root).None? ==> Invalidated(ph, root, rs).None?
    ensures UserCut(ph, root).Some?
      ==> Invalidated(ph, root, rs) == Some(ListMapped(UserCut(ph, root).value, root, AllPages(rs)))
  {
  }

  lemma RegionStep(vr: Region, start: nat, rest: seq<PageMap>)
    requires vr.Valid() && start % PGSIZE == 0 && start < vr.Top()
    ensures var l := RegionPages(vr, start) + rest;
      && |l| > 0 && l[0] == PageMap(start / PGSIZE, vr.Lookup(start).ppn, Perms(vr.Lookup(start)))
      && l[1..] == RegionPages(vr, start + PGSIZE) + rest
  {
  }

  lemma RegionEnd(vr: Region, start: nat, rest: seq<PageMap>)
    requires vr.Valid() && start % PGSIZE == 0 && start >= vr.Top()
    ensures RegionPages(vr, start) + rest == rest
  {
  }

  /** The inner loop: map every page of one region. */
  method MapRegion(m: Machine, root: nat, vr: Region, ghost rest: seq<PageMap>) returns (r: MapResult)
    requires m.State().Valid() && IsTree(m.State(), root) && vr.Valid()
    modifies m
    ensures m.State().Valid()
    ensures r == Ok ==> IsTree(m.State(), root)
    ensures ListMapped(old(m.State()), root, RegionPages(vr, vr.Bottom()) + rest) ==
            if r == Ok then ListMapped(m.State(), root, rest) else MapOutcome(m.State(), r)
  {
    hide IsTree, MappedOne, ListMapped, RegionPages, Perms;
    ghost var goal := ListMapped(m.State(), root, RegionPages(vr, vr.Bottom()) + rest);
    var start := vr.Bottom();
    while start < vr.Top()
      invariant 0 <= start && start % PGSIZE == 0 && m.State().Valid() && IsTree(m.State(), root)
      invariant ListMapped(m.State(), root, RegionPages(vr, start) + rest) == goal
      decreases vr.Top() - start
    {
      RegionStep(vr, start, rest);
      ListStep(m.State(), root, RegionPages(vr, start) + rest);
      var vpi := vr.Lookup(start);
      MapOneKeepsTree(m.State(), root, start / PGSIZE, vpi.ppn, Perms(vpi), false);
      r := MapOnePage(m, root, start / PGSIZE, vpi.ppn, Perms(vpi), false);
      if r != Ok {
        return;
      }
      start := start + PGSIZE;
    }
    RegionEnd(vr, start, rest);
    r := Ok;
  }

  method MapRegions(m: Machine, root: nat, regions: seq<Region>) returns (r: MapResult)
    requires m.State().Valid() && IsTree(m.State(), root) && AllValid(regions)
    modifies m
    ensures ListMapped(old(m.State()), root, AllPages(regions)) == MapOutcome(m.State(), r)
  {
    hide IsTree, ListMapped, RegionPages;
    ghost var goal := ListMapped(m.State(), root, AllPages(regions));
    var k := 0;
    assert regions[0..] == regions;
    while k < |regions|
      invariant 0 <= k <= |regions| && m.State().Valid() && IsTree(m.State(), root)
      invariant ListMapped(m.State(), root, AllPages(regions[k..])) == goal
    {
      assert regions[k].Valid() && regions[k..][0] == regions[k] && regions[k..][1..] == regions[k + 1..];
      r := MapRegion(m, root, regions[k], AllPages(regions[k + 1..]));
      if r != Ok {
        return;
      }
      k := k + 1;
    }
    EmptyList(m.State(), root);
    r := Ok;
  }

  lemma EmptyList(ph: Phys, root: nat)
    requires ph.Valid()
    ensures ListMapped(ph, root, []) == MapOutcome(ph, Ok)
  {
  }
}
