/** Page tables from their beginning: a zeroed root, any sequence of calls that build it, and a page
    table that freevm never gets rid of. */
module PageTableRuns {
  import opened Options
  import opened Mmu
  import opened Kalloc
  import opened PageTable
  import opened Teardown
  import opened FreeTables

  /** A root as kalloc and memset leave it. */
  predicate ZeroRoot(ph: Phys, root: nat)
  {
    ph.Valid() && root < |ph.mem| && TableFrame(ph.core[root]) && ph.mem[root] == Filled(0)
  }

  /** A zeroed root is a tree of one table that maps nothing. */
  lemma ZeroRootTree(ph: Phys, root: nat)
    requires ZeroRoot(ph, root)
    ensures Tree(ph, root, map[[] := root])
    ensures forall va :: Entry(ph.mem, root, va) == 0
  {
    var tabs: Tables := map[[] := root];
    forall p, i | p in tabs && |p| < 3 && 0 <= i < ENTRIES ensures EntryMatches(ph.mem, tabs, p, i) {
      assert p + [i] != [];
    }
    forall va ensures Entry(ph.mem, root, va) == 0 { SlotInTree(ph, root, tabs, va); }
  }

  // ---- any sequence of calls

  /** mappages; walkpml4 with alloc; and walkpml4 with alloc and a store to the slot it returns,
      which looks at nothing that was there. */
  datatype TableCall =
    | MapCall(vpn: nat, n: nat, ppn: nat, perm: nat, kern: bool)
    | WalkCall(va: nat)
    | SetCall(va: nat, w: nat)

  function CallDone(ph: Phys, root: nat, c: TableCall): (o: MapOutcome)
    requires ph.Valid()
    ensures o.ph.Valid()
  {
    match c
    case MapCall(vpn, n, ppn, perm, kern) => Mapped(ph, root, vpn, n, ppn, perm, kern)
    case WalkCall(va) =>
      var r := Walked(ph, root, va, true);
      MapOutcome(r.ph, if r.table.None? then NoMemory else Ok)
    case SetCall(va, w) =>
      var r := Walked(ph, root, va, true);
      if r.table.None? then MapOutcome(r.ph, NoMemory)
      else MapOutcome(Stored(r.ph, r.table.value, PtIndex(va), w), Ok)
  }

  /** The calls in order; the first that fails is the last. */
  function MapAll(ph: Phys, root: nat, calls: seq<TableCall>): (o: MapOutcome)
    requires ph.Valid()
    ensures o.ph.Valid()
    decreases |calls|
  {
    if calls == [] then MapOutcome(ph, Ok)
    else
      var o := CallDone(ph, root, calls[0]);
      if o.result != Ok then o else MapAll(o.ph, root, calls[1..])
  }

  /** What a call makes of the entry `e` of the address `va` in the flat page map. */
  function FlatOne(c: TableCall, va: nat, e: nat): nat
  {
    match c
    case MapCall(vpn, n, ppn, perm, _) =>
      var k := (VPage(va) - vpn) % VPAGES;
      if k < n then MakeEntry(ppn + k, perm) else e
    case WalkCall(_) => e
    case SetCall(at, w) => if VPage(va) == VPage(at) then w else e
  }

  /** The flat page map that the calls describe, over entries `e`. */
  function FlatAfter(calls: seq<TableCall>, va: nat, e: nat): nat
    decreases |calls|
  {
    if calls == [] then e else FlatAfter(calls[1..], va, FlatOne(calls[0], va, e))
  }

  ghost predicate FlatAll(before: Phys, after: Phys, root: nat, calls: seq<TableCall>)
  {
    forall va :: Entry(after.mem, root, va) == FlatAfter(calls, va, Entry(before.mem, root, va))
  }

  ghost predicate FlatCall(before: Phys, after: Phys, root: nat, c: TableCall)
  {
    forall va :: Entry(after.mem, root, va) == FlatOne(c, va, Entry(before.mem, root, va))
  }

  /** No call asks for more pages than there are. */
  predicate Sane(calls: seq<TableCall>) { forall i :: 0 <= i < |calls| && calls[i].MapCall? ==> calls[i].n <= VPAGES }

  lemma CallFlat(ph: Phys, root: nat, tabs: Tables, c: TableCall) returns (tabs': Tables)
    requires Tree(ph, root, tabs) && (c.MapCall? ==> c.n <= VPAGES)
    ensures var o := CallDone(ph, root, c);
      && MapEffect(ph, o.ph, root, tabs, tabs') && Tree(o.ph, root, tabs')
      && (o.result == NoMemory ==> NoneAvailable(o.ph)) && (o.result == Ok ==> FlatCall(ph, o.ph, root, c))
  {
    hide Tree, MapEffect, NoneAvailable, Mapped, NonePresent, Walked, PathOf, PtIndex, Entry, MakeEntry, VPage, OnPath;
    InTree(ph, root, tabs, []);
    match c
    case MapCall(vpn, n, ppn, perm, kern) =>
      tabs' := MapFlat(ph, root, tabs, vpn, n, ppn, perm, kern);
    case WalkCall(va) =>
      tabs' := WalkEffect(ph, root, tabs, va);
    case SetCall(va, w) =>
      tabs' := WalkEffect(ph, root, tabs, va);
      var r := Walked(ph, root, va, true);
      if r.table.Some? {
        StoreEffect(r.ph, root, tabs', va, w);
        var s := Stored(r.ph, r.table.value, PtIndex(va), w);
        FlatUpdateAfter(ph, r.ph, s, root, VPage(va), w);
        EffectTransitive(ph, r.ph, s, root, tabs, tabs', tabs');
      }
  }

  lemma {:induction false} MapAllFlat(ph: Phys, root: nat, tabs: Tables, calls: seq<TableCall>)
    returns (tabs': Tables)
    requires Tree(ph, root, tabs) && Sane(calls)
    ensures var o := MapAll(ph, root, calls);
      && MapEffect(ph, o.ph, root, tabs, tabs') && Tree(o.ph, root, tabs')
      && (o.result == NoMemory ==> NoneAvailable(o.ph))
      && (o.result == Ok ==> FlatAll(ph, o.ph, root, calls))
    decreases |calls|
  {
    hide Tree, MapEffect, NoneAvailable, CallDone, FlatCall, FlatAll;
    InTree(ph, root, tabs, []);
    if calls == [] {
      tabs' := tabs;
      NothingMapped(ph, root, tabs, 0, 0, 0);
      FlatNone(ph, root);
    } else {
      var o1 := CallDone(ph, root, calls[0]);
      tabs' := CallFlat(ph, root, tabs, calls[0]);
      if o1.result == Ok {
        var t1 := tabs';
        tabs' := MapAllFlat(o1.ph, root, t1, calls[1..]);
        var o := MapAll(o1.ph, root, calls[1..]);
        EffectTransitive(ph, o1.ph, o.ph, root, tabs, t1, tabs');
        if o.result == Ok { FlatStep(ph, o1.ph, o.ph, root, calls); }
      }
    }
  }

  lemma FlatNone(ph: Phys, root: nat)
    ensures FlatAll(ph, ph, root, [])
  {
  }

  lemma {:induction false} FlatStep(a: Phys, b: Phys, c: Phys, root: nat, calls: seq<TableCall>)
    requires calls != [] && FlatCall(a, b, root, calls[0]) && FlatAll(b, c, root, calls[1..])
    ensures FlatAll(a, c, root, calls)
  {
    hide Entry, FlatOne;
    forall va ensures Entry(c.mem, root, va) == FlatAfter(calls, va, Entry(a.mem, root, va)) {
      assert Entry(b.mem, root, va) == FlatOne(calls[0], va, Entry(a.mem, root, va));
      assert Entry(c.mem, root, va) == FlatAfter(calls[1..], va, Entry(b.mem, root, va));
    }
  }

  /** Every page table reached from a zeroed root by such calls is a tree without sharing in
      which two addresses reach the same slot iff they are on the same page, and translates as the
      flat map that the calls describe: the processor grants exactly what its entries say. */
  lemma MapsFromZero(ph: Phys, root: nat, calls: seq<TableCall>) returns (tabs: Tables)
    requires ZeroRoot(ph, root) && Sane(calls)
    ensures Tree(MapAll(ph, root, calls).ph, root, tabs)
    ensures var o := MapAll(ph, root, calls);
      && (o.result == NoMemory ==> NoneAvailable(o.ph))
      && (o.result == Ok ==> forall va :: Entry(o.ph.mem, root, va) == FlatAfter(calls, va, 0))
      && (o.result == Ok ==> forall va :: Access(o.ph.mem, root, va) == LeafGrant(FlatAfter(calls, va, 0)))
      && forall va, vb :: SameSlotIff(o.ph, root, va, vb)
  {
    hide Tree, MapEffect, NoneAvailable, MapAll, Entry, SameSlotIff, Access, LeafGrant, OpenUnder;
    ZeroRootTree(ph, root);
    tabs := MapAllFlat(ph, root, map[[] := root], calls);
    var o := MapAll(ph, root, calls);
    RootOpen(ph, root);
    EffectOpen(ph, o.ph, root, map[[] := root], tabs, []);
    forall va ensures Access(o.ph.mem, root, va) == LeafGrant(Entry(o.ph.mem, root, va)) {
      AccessIsLeaf(o.ph, root, tabs, [], va);
    }
    forall va, vb ensures SameSlotIff(o.ph, root, va, vb) { SlotIff(o.ph, root, tabs, va, vb); }
  }

  lemma RootOpen(ph: Phys, root: nat)
    ensures OpenUnder(ph.mem, map[[] := root], [])
  {
  }

  /** Two addresses, the first of which has a slot, share it iff all four indices agree. */
  predicate SameSlotIff(ph: Phys, root: nat, va: nat, vb: nat)
  {
    Slot(ph.mem, root, va).Some? ==>
      (Slot(ph.mem, root, va) == Slot(ph.mem, root, vb) <==> PathOf(va) == PathOf(vb) && PtIndex(va) == PtIndex(vb))
  }

  lemma SlotIff(ph: Phys, root: nat, tabs: Tables, va: nat, vb: nat)
    requires Tree(ph, root, tabs)
    ensures SameSlotIff(ph, root, va, vb)
  {
    hide PathOf, PtIndex, Slot;
    if Slot(ph.mem, root, va).Some? { SlotsDistinct(ph, root, tabs, va, vb); }
  }

  // ---- a page table that freevm never gets rid of

  /** One page at 1 GB. */
  const AT_1G: nat := 0x4_0000

  lemma PathAt1G()
    ensures PathOf(PageAddr(AT_1G)) == [0, 1, 0]
  {
  }

  ghost predicate FourFree(ph: Phys, free: seq<nat>)
  {
    && |free| == 4 && (forall i :: 0 <= i < 4 ==> free[i] < |ph.core| && ph.core[free[i]].available)
    && forall i, j :: 0 <= i < j < 4 ==> free[i] != free[j]
  }

  /** The frame of the table at `p`, or one that does not matter. */
  function TableAt(tabs: Tables, p: Path, other: nat): nat { if p in tabs then tabs[p] else other }

  lemma ThreeTables(root: nat, tabs: Tables, f: nat)
    requires OnPath(map[[] := root], tabs, [0, 1, 0]) && [] in tabs && tabs[[]] == root && f in tabs.Values
    ensures f in {root, TableAt(tabs, [0], root), TableAt(tabs, [0, 1], root), TableAt(tabs, [0, 1, 0], root)}
  {
    var x :| x in tabs && tabs[x] == f;
    if x != [] {
      assert x <= [0, 1, 0] && x == [0, 1, 0][..|x|];
      assert |x| == 1 || |x| == 2 || |x| == 3;
      assert [0, 1, 0][..1] == [0] && [0, 1, 0][..2] == [0, 1] && [0, 1, 0][..3] == [0, 1, 0];
    }
  }

  /** Three new tables leave one of four free frames. */
  lemma OneFrameLeft(ph: Phys, after: Phys, root: nat, tabs: Tables, free: seq<nat>)
    requires ZeroRoot(ph, root) && FourFree(ph, free)
    requires MapEffect(ph, after, root, map[[] := root], tabs) && OnPath(map[[] := root], tabs, [0, 1, 0])
    ensures !NoneAvailable(after)
  {
    assert [] in tabs && tabs[[]] == root && DataKept(ph, after, tabs);
    hide Tree, OnPath, MapEffect;
    var a, b, c := TableAt(tabs, [0], root), TableAt(tabs, [0, 1], root), TableAt(tabs, [0, 1, 0], root);
    hide TableAt;
    forall f | f in tabs.Values ensures f in {root, a, b, c} { ThreeTables(root, tabs, f); }
    assert !ph.core[root].available;
    var i :=
      if free[0] !in {a, b, c} then 0
      else if free[1] !in {a, b, c} then 1
      else if free[2] !in {a, b, c} then 2
      else 3;
    assert free[i] !in tabs.Values;
    assert after.core[free[i]].available;
  }

  /** Mapping a single page at 1 GB into a fresh page table works when four frames are free, and
      makes the second page directory with its first table only. */
  lemma OnePageMaps(ph: Phys, root: nat, ppn: nat, perm: nat, free: seq<nat>) returns (tabs: Tables)
    requires ZeroRoot(ph, root) && FourFree(ph, free) && ppn < |ph.core| && perm < PGSIZE && Present(perm)
    ensures var o := MappedOne(ph, root, AT_1G, ppn, perm, false);
      && o.result == Ok && MapEffect(ph, o.ph, root, map[[] := root], tabs)
      && FlatUpdate(ph, o.ph, root, AT_1G, MakeEntry(ppn, perm))
    ensures [0, 1] in tabs && [0, 1, 511] !in tabs
  {
    hide MappedOne, Entry, MakeEntry, Tree, PathOf, MapEffect, NoneAvailable, FlatUpdate;
    ZeroRootTree(ph, root);
    PathAt1G();
    var start: Tables := map[[] := root];
    tabs := MapOneFlat(ph, root, start, AT_1G, ppn, perm, false);
    var o := MappedOne(ph, root, AT_1G, ppn, perm, false);
    OneFrameLeft(ph, o.ph, root, tabs, free);
    NothingPresent(ph, root);
    assert o.result == Ok;
    MappedPath(ph, o.ph, root, tabs, ppn, perm);
    assert [0, 1, 511] !in start;
    assert !([0, 1, 511] <= [0, 1, 0]) by { assert [0, 1, 511][2] != [0, 1, 0][2]; }
  }

  lemma NothingPresent(ph: Phys, root: nat)
    requires forall va :: Entry(ph.mem, root, va) == 0
    ensures !Present(Entry(ph.mem, root, PageAddr(AT_1G)))
  {
  }

  lemma MappedPath(ph: Phys, after: Phys, root: nat, tabs: Tables, ppn: nat, perm: nat)
    requires MapEffect(ph, after, root, map[[] := root], tabs)
    requires FlatUpdate(ph, after, root, AT_1G, MakeEntry(ppn, perm))
    requires ppn < FRAMES && perm < PGSIZE && Present(perm)
    ensures [0, 1] in tabs
  {
    EntryRoundTrip(ppn, perm);
    VPageOf(AT_1G);
    assert Present(Entry(after.mem, root, PageAddr(AT_1G)));
    hide FlatUpdate, Entry, MakeEntry;
    MappedPrefix(after, root, tabs);
  }

  lemma MappedPrefix(ph: Phys, root: nat, tabs: Tables)
    requires Tree(ph, root, tabs) && Present(Entry(ph.mem, root, PageAddr(AT_1G)))
    ensures [0, 1] in tabs
  {
    PathAt1G();
    SlotInTree(ph, root, tabs, PageAddr(AT_1G));
    hide Tree, Entry, PathOf;
    assert [0, 1] + [0] == [0, 1, 0];
    PrefixClosed(ph, root, tabs, [0, 1], [0]);
  }

  /** The failing input of freevm: a process whose only user page lies at 1 GB.  Its page table is
      set up without failure, and no number of rounds ends the scan that should tear it down. */
  lemma OnePageHangsFreevm(ph: Phys, root: nat, ppn: nat, perm: nat, free: seq<nat>, n: nat)
    requires ZeroRoot(ph, root) && FourFree(ph, free) && perm < PGSIZE && Present(perm)
    requires ppn != 0 && Freeable(ph, ppn) && !ph.core[ppn].available && ppn != root
    ensures var o := MappedOne(ph, root, AT_1G, ppn, perm, false);
      o.result == Ok && !Ends(o.ph, root, 0, SZ_4G, n)
  {
    hide MappedOne, Entry, MakeEntry, Ends, MapEffect, FlatUpdate, Tree, LeavesFreeable, FourFree;
    ZeroRootTree(ph, root);
    var tabs := OnePageMaps(ph, root, ppn, perm, free);
    var o := MappedOne(ph, root, AT_1G, ppn, perm, false);
    OneLeaf(ph, o.ph, root, tabs, ppn, perm);
    FreevmEndsIff(o.ph, root, tabs);
  }

  lemma OneLeaf(ph: Phys, after: Phys, root: nat, tabs: Tables, ppn: nat, perm: nat)
    requires MapEffect(ph, after, root, map[[] := root], tabs) && (forall va :: Entry(ph.mem, root, va) == 0)
    requires FlatUpdate(ph, after, root, AT_1G, MakeEntry(ppn, perm)) && perm < PGSIZE && ppn < FRAMES
    requires ppn != 0 && Freeable(ph, ppn) && !ph.core[ppn].available && ppn != root
    ensures LeavesFreeable(after, root, tabs, 0, SZ_4G) && after.Valid()
  {
    NotATable(ph, after, root, tabs, ppn);
    EntryRoundTrip(ppn, perm);
    assert after.Valid();
    hide Tree, Entry, MakeEntry, MapEffect;
    forall va: nat | va < SZ_4G && Present(Entry(after.mem, root, va))
      ensures FrameOf(Entry(after.mem, root, va)) == ppn
    {
      assert Entry(ph.mem, root, va) == 0;
    }
  }

  lemma NotATable(ph: Phys, after: Phys, root: nat, tabs: Tables, f: nat)
    requires MapEffect(ph, after, root, map[[] := root], tabs) && f < |ph.core| && !ph.core[f].available && f != root
    ensures f !in tabs.Values && after.kend == ph.kend && |after.core| == |ph.core| && Tree(after, root, tabs)
  {
    forall x | x in tabs ensures tabs[x] != f {
      if x == [] { assert tabs[x] == root; } else { assert x != []; }
    }
  }

  /** A machine of eight frames: the kernel's, a zeroed root, a data page and five free ones. */
  function Small(): Phys
  {
    var used, free := CoreEntry(false, false, 0, 1), CoreEntry(true, false, 0, 0);
    Phys(seq(8, _ => Filled(0)), [used, used, used, free, free, free, free, free], 3, 5, 1)
  }

  lemma SmallHangs(n: nat)
    ensures Small().Valid()
    ensures var o := MappedOne(Small(), 1, AT_1G, 2, PTE_P + PTE_W + PTE_U, false);
      o.result == Ok && !Ends(o.ph, 1, 0, SZ_4G, n)
  {
    hide MappedOne, Ends;
    assert FourFree(Small(), [3, 4, 5, 6]);
    OnePageHangsFreevm(Small(), 1, 2, PTE_P + PTE_W + PTE_U, [3, 4, 5, 6], n);
  }
}
