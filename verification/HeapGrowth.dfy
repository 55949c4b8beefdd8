/** sys_sbrk as a whole (kernel/sysproc.c:42-62): the heap's descriptors grow and the page table is
    rebuilt from them. */
module HeapGrowth {
  import opened Options
  import opened Mmu
  import opened Kalloc
  import opened PageTable
  import opened VSpace
  import opened VRegions

  /** The value of a region has the records of its chunks. */
  lemma LookupIsRecord(heap: VRegion, va: nat)
    requires heap.Valid() && heap.base % PGSIZE == 0 && InReach(heap.dir, heap.base, va)
    ensures VpiIndex(heap.dir, heap.base, va) >= 0
    ensures heap.Value().Lookup(va) == heap.Record(VpiIndex(heap.dir, heap.base, va))
  {
    IndexOfPage(heap.dir, heap.base, va);
    var i := VpiIndex(heap.dir, heap.base, va);
    hide VpiIndex;
    if i >= |heap.chunks| * VPIPPAGE { BeyondChunks(i, |heap.chunks|); }
  }

  lemma BeyondChunks(i: nat, n: nat)
    requires i >= n * VPIPPAGE
    ensures i / VPIPPAGE >= n
  {
  }

  /** Allocating frames leaves a page table alone. */
  lemma AllocationKeepsTree(before: Phys, after: Phys, root: nat, tabs: Tables)
    requires Tree(before, root, tabs) && OnlyAllocates(before, after)
    ensures Tree(after, root, tabs)
    ensures forall va :: Entry(after.mem, root, va) == Entry(before.mem, root, va)
    ensures forall va :: Access(after.mem, root, va) == Access(before.mem, root, va)
  {
    forall p, i | p in tabs && |p| < 3 && 0 <= i < ENTRIES ensures EntryMatches(after.mem, tabs, p, i) {
      assert EntryMatches(before.mem, tabs, p, i);
    }
    forall va ensures Entry(after.mem, root, va) == Entry(before.mem, root, va) {
      SlotInTree(before, root, tabs, va);
      SlotInTree(after, root, tabs, va);
    }
    TablesHeld(before, root, tabs);
    hide Access;
    forall va ensures Access(after.mem, root, va) == Access(before.mem, root, va) {
      AccessSame(before, after, root, tabs, va);
    }
  }

  /** Every address of the heap translates to what its record says, and to nothing else. */
  ghost predicate HeapShown(ph: Phys, root: nat, heap: VRegion)
    reads heap, heap.chunks
  {
    && heap.Valid()
    && forall va: nat, f: nat, writable: bool {:trigger Translates(ph, root, va, f, writable)} ::
         heap.base <= va < heap.base + heap.size ==>
           (Translates(ph, root, va, f, writable) <==> Says(heap.Record((va - heap.base) / PGSIZE), f, writable))
  }

  predicate Says(v: Vpi, f: nat, writable: bool) { v.present && v.ppn == f && v.writable == writable }

  lemma HeapAddress(heap: VRegion, va: nat)
    requires heap.Valid() && heap.dir.Up? && heap.base % PGSIZE == 0 && heap.base <= va < heap.base + heap.size
    requires heap.base + heap.size <= PML4_SPAN * PGSIZE
    ensures Pml4Index(va) == 0 && heap.Value().Spans(VPage(va))
    ensures heap.Value().Lookup(VPage(va) * PGSIZE) == heap.Record((va - heap.base) / PGSIZE)
  {
    var page := VPage(va);
    assert page == va / PGSIZE;
    assert heap.base <= page * PGSIZE <= va < (page + 1) * PGSIZE by {
      assert heap.base == heap.base / PGSIZE * PGSIZE;
    }
    UserPage(va);
    LookupIsRecord(heap, page * PGSIZE);
    SharedRecordIff(heap.dir, heap.base, page * PGSIZE, va);
  }

  lemma ShownByRebuild(before: Phys, after: Phys, root: nat, rs: seq<Region>, j: nat, heap: VRegion)
    requires heap.Valid() && heap.dir.Up? && heap.base % PGSIZE == 0 && heap.base + heap.size <= PML4_SPAN * PGSIZE
    requires AllValid(rs) && Disjoint(rs) && Rebuilt(before, after, root, rs) && j < |rs| && rs[j] == heap.Value()
    requires forall i :: 0 <= i < |AllPages(rs)| ==> AllPages(rs)[i].ppn < FRAMES
    ensures HeapShown(after, root, heap)
  {
    hide Disjoint, Rebuilt, AllPages, Translates, Described;
    forall va: nat, f: nat, writable: bool | heap.base <= va < heap.base + heap.size
      ensures Translates(after, root, va, f, writable) <==> Says(heap.Record((va - heap.base) / PGSIZE), f, writable)
    {
      HeapAddress(heap, va);
      TranslatesIff(before, after, root, rs, va, f, writable);
      DescribedBy(rs, VPage(va), j, f, writable);
    }
  }

  lemma DescribedBy(rs: seq<Region>, page: nat, j: nat, f: nat, writable: bool)
    requires Disjoint(rs) && j < |rs| && rs[j].Spans(page)
    ensures Described(rs, page, f, writable) <==> Says(rs[j].Lookup(page * PGSIZE), f, writable)
  {
    forall k | 0 <= k < |rs| && rs[k].Spans(page) ensures k == j { OneSpans(rs, page, j, k); }
  }

  /** No used record names a frame that holds a table. */
  ghost predicate Clear(rec: imap<nat, Vpi>, tabs: Tables)
  {
    forall i: nat :: i in rec && rec[i].used ==> rec[i].ppn !in tabs.Values
  }

  /** What every call of sys_sbrk finds and leaves: the used records of the heap are the first
      `top`, on distinct frames in use; the tables are a tree of frames that can be freed; free
      frames can be freed too; and no frame is both in the heap and in the tables. */
  ghost predicate Sound(ph: Phys, root: nat, tabs: Tables, heap: VRegion, top: nat)
    reads heap, heap.chunks
  {
    && ph.Valid() && heap.HeapHeld(ph, top) && OwnTree(ph, root, tabs) && FreeAboveKernel(ph)
    && Clear(heap.Records(), tabs)
  }

  /** A process begins with an empty heap. */
  lemma FreshSound(ph: Phys, root: nat, tabs: Tables, heap: VRegion)
    requires OwnTree(ph, root, tabs) && FreeAboveKernel(ph)
    requires heap.Valid() && heap.chunks == [] && heap.dir.Up? && heap.base % PGSIZE == 0 && heap.size == 0
    ensures Sound(ph, root, tabs, heap, 0) && HeapShown(ph, root, heap)
  {
    NewHeapCovered(heap, ph);
  }

  lemma AllocationKeepsOwn(before: Phys, after: Phys, root: nat, tabs: Tables)
    requires OwnTree(before, root, tabs) && FreeAboveKernel(before) && OnlyAllocates(before, after)
    ensures OwnTree(after, root, tabs) && FreeAboveKernel(after) && after.Valid() && root < |after.mem|
    ensures forall va :: Entry(after.mem, root, va) == Entry(before.mem, root, va)
    ensures forall va :: Access(after.mem, root, va) == Access(before.mem, root, va)
    ensures OthersSafe(before, after, tabs, tabs)
  {
    AllocationKeepsTree(before, after, root, tabs);
    hide EntryMatches, Entry, Access;
    forall f | 0 <= f < |after.core| && after.core[f].available ensures Freeable(after, f) {
      assert before.core[f].available;
    }
  }

  /** Frames that were free hold no table. */
  lemma NewFramesClear(rec: imap<nat, Vpi>, rec': imap<nat, Vpi>, ph: Phys, root: nat, tabs: Tables)
    requires Tree(ph, root, tabs) && Clear(rec, tabs) && NewFrames(rec, rec', ph)
    ensures Clear(rec', tabs)
  {
    hide EntryMatches;
    forall i: nat | i in rec' && rec'[i].used ensures rec'[i].ppn !in tabs.Values {
      if rec'[i] != rec[i] { assert WasFree(ph, rec'[i].ppn); }
    }
  }

  /** The rebuild leaves the frames of the heap in use and out of the tables. */
  lemma HeapSurvives(rec: imap<nat, Vpi>, top: nat, before: Phys, after: Phys, tabs: Tables, tabs': Tables)
    requires Held(rec, top, before) && Clear(rec, tabs) && OthersSafe(before, after, tabs, tabs')
    ensures Held(rec, top, after) && Clear(rec, tabs')
  {
  }

  /** The rebuild that ends sys_sbrk; `before` and `after` are the other regions of the space. */
  method Rebuild(m: Machine, heap: VRegion, root: nat, ghost tabs: Tables, before: seq<Region>, after: seq<Region>)
    returns (rebuilt: Option<MapResult>, ghost tabs': Tables)
    requires m.State().Valid() && OwnTree(m.State(), root, tabs) && root < |m.mem|
    requires heap.Valid() && heap.dir.Up? && heap.base % PGSIZE == 0 && heap.base + heap.size <= PML4_SPAN * PGSIZE
    requires AllValid(before) && AllValid(after)
    modifies m
    ensures Disjoint(before + [heap.Value()] + after) ==> rebuilt.Some? && rebuilt.value != Remap
    ensures Disjoint(before + [heap.Value()] + after) && rebuilt == Some(NoMemory) ==> NoneAvailable(m.State())
    ensures Disjoint(before + [heap.Value()] + after) && rebuilt == Some(Ok) ==> HeapShown(m.State(), root, heap)
    // Frames in use outside the tables are untouched and stay outside the new tables.
    ensures Disjoint(before + [heap.Value()] + after) ==> OthersSafe(old(m.State()), m.State(), tabs, tabs')
    ensures Disjoint(before + [heap.Value()] + after) && FreeAboveKernel(old(m.State())) ==>
      OwnTree(m.State(), root, tabs') && FreeAboveKernel(m.State())
  {
    hide Tree, HeapShown, Disjoint, Rebuilt, Invalidated, OthersSafe, FreeAboveKernel, UserTables,
      PathsIn, NoneAvailable;
    var v := heap.ReadOut();
    var rs := before + [v] + after;
    assert rs[|before|] == v && AllValid(rs);
    ghost var s1 := m.State();
    rebuilt := VspaceInvalidate(m, root, tabs, rs);
    tabs' := tabs;
    if Disjoint(rs) {
      tabs' := InvalidateRebuilds(s1, root, tabs, rs);
      if rebuilt == Some(Ok) { ShownByRebuild(s1, m.State(), root, rs, |before|, heap); }
    }
  }

  /** What the page table shows of the heap stays when neither the translations nor the records of
      its pages change. */
  lemma StillShown(before: Phys, after: Phys, root: nat, heap: VRegion, rec: imap<nat, Vpi>)
    requires heap.Valid() && (forall i: nat :: i in rec)
    requires forall va :: Access(after.mem, root, va) == Access(before.mem, root, va)
    requires forall i: nat :: HeapPage(i, heap.size) ==> heap.Record(i) == rec[i]
    requires ShownAs(before, root, heap.base, heap.size, rec)
    ensures ShownAs(after, root, heap.base, heap.size, heap.Records()) && HeapShown(after, root, heap)
  {
    hide Access;
    forall va: nat, f: nat, writable: bool | heap.base <= va < heap.base + heap.size
      ensures Translates(after, root, va, f, writable) <==> Says(heap.Record((va - heap.base) / PGSIZE), f, writable)
    {
      assert HeapPage((va - heap.base) / PGSIZE, heap.size);
      assert Translates(after, root, va, f, writable) == Translates(before, root, va, f, writable);
    }
  }

  ghost predicate ShownAs(ph: Phys, root: nat, base: nat, size: nat, rec: imap<nat, Vpi>)
    requires forall i: nat :: i in rec
  {
    forall va: nat, f: nat, writable: bool {:trigger Translates(ph, root, va, f, writable)} ::
      base <= va < base + size ==>
        (Translates(ph, root, va, f, writable) <==> Says(rec[(va - base) / PGSIZE], f, writable))
  }

  lemma ShownIs(ph: Phys, root: nat, heap: VRegion)
    requires heap.Valid()
    ensures HeapShown(ph, root, heap) <==> ShownAs(ph, root, heap.base, heap.size, heap.Records())
  {
    hide Translates, Says;
  }

  /** sys_sbrk with the rebuild of the page table. */
  method SysSbrk(m: Machine, heap: VRegion, root: nat, ghost tabs: Tables, before: seq<Region>,
    after: seq<Region>, n: int, ghost top: nat)
    returns (r: int, rebuilt: Option<MapResult>, ghost tabs': Tables, ghost top': nat)
    requires Sound(m.State(), root, tabs, heap, top) && heap.base + heap.size < UINT_END - PGSIZE && n < INT_END
    requires AllValid(before) && AllValid(after)
    modifies m, heap, heap.chunks
    ensures heap.Valid() && heap.base == old(heap.base) && heap.dir == old(heap.dir)
    ensures forall c :: c in heap.chunks && c !in old(heap.chunks) ==> fresh(c)
    ensures heap.size == old(heap.size) + (if r == -1 then 0 else n)
    // A failed call leaves every translation and every table as it was.
    ensures r == -1 ==> forall va :: Entry(m.mem, root, va) == old(Entry(m.mem, root, va))
    ensures r == -1 ==> forall va :: Access(m.mem, root, va) == old(Access(m.mem, root, va))
    ensures r == -1 ==> tabs' == tabs && Sound(m.State(), root, tabs, heap, top') && top <= top'
    ensures r == -1 && old(HeapShown(m.State(), root, heap)) ==> HeapShown(m.State(), root, heap)
    // After a successful one every address of the grown heap translates as its record says, and the
    // next call finds what this one found.
    ensures r != -1 && Disjoint(before + [heap.Value()] + after) ==>
      rebuilt.Some? && rebuilt.value != Remap && (rebuilt.value == NoMemory ==> NoneAvailable(m.State()))
    ensures r != -1 && Disjoint(before + [heap.Value()] + after) && rebuilt == Some(Ok)
      ==> HeapShown(m.State(), root, heap)
    ensures r != -1 && heap.base + old(heap.size) < INT_END && Disjoint(before + [heap.Value()] + after)
      ==> Sound(m.State(), root, tabs', heap, top') && top' == Max(top, CeilPages(heap.size))
    // No other frame in use is touched or becomes a table.
    ensures r == -1 || Disjoint(before + [heap.Value()] + after) ==> OthersSafe(old(m.State()), m.State(), tabs, tabs')
    // The pages of the heap as it was keep their records.
    ensures forall i: nat :: HeapPage(i, old(heap.size)) ==> heap.Record(i) == old(heap.Record(i))
  {
    hide HeapShown, Disjoint, OnlyAllocates, Held, HeapPage, Entry, Access, AsInt, NewFrames, Clear, CeilPages, Tree;
    hide OthersSafe, FreeAboveKernel, NoneAvailable, ShownAs;
    ghost var s0, rec := m.State(), heap.Records();
    ShownIs(s0, root, heap);
    r, top' := heap.Sbrk(m, n, top);
    ghost var s1 := m.State();
    AllocationKeepsOwn(s0, s1, root, tabs);
    NewFramesClear(rec, heap.Records(), s0, root, tabs);
    rebuilt, tabs' := None, tabs;
    if r == -1 {
      if ShownAs(s0, root, heap.base, heap.size, rec) { StillShown(s0, s1, root, heap, rec); }
    } else {
      rebuilt, tabs' := Rebuild(m, heap, root, tabs, before, after);
      if Disjoint(before + [heap.Value()] + after) {
        SafeTransitive(s0, s1, m.State(), tabs, tabs, tabs');
        if heap.base + old(heap.size) < INT_END {
          HeapSurvives(heap.Records(), top', s1, m.State(), tabs, tabs');
        }
      }
    }
  }

  // ---- any sequence of calls

  /** The other regions are disjoint and leave [base, limit) to the heap. */
  ghost predicate Room(before: seq<Region>, after: seq<Region>, base: nat, limit: nat)
  {
    && Disjoint(before + after)
    && forall j, page: nat :: 0 <= j < |before + after| && (before + after)[j].Spans(page) ==>
         !(base <= page * PGSIZE < limit)
  }

  lemma RoomDisjoint(before: seq<Region>, after: seq<Region>, heap: Region, limit: nat)
    requires heap.dir.Up? && Room(before, after, heap.base, limit) && heap.base + heap.size <= limit
    ensures Disjoint(before + [heap] + after)
  {
    var rs, all, n := before + [heap] + after, before + after, |before|;
    forall i, j, page: nat | 0 <= i < j < |rs| && rs[i].Spans(page) ensures !rs[j].Spans(page) {
      var x, y := if i < n then i else i - 1, if j < n then j else j - 1;
      assert i != n ==> rs[i] == all[x];
      assert j != n ==> rs[j] == all[y];
      if i != n && j != n { assert x < y && all[x].Spans(page); }
    }
  }

  function Total(ns: seq<nat>): nat { if ns == [] then 0 else ns[0] + Total(ns[1..]) }

  lemma SoundCovered(ph: Phys, root: nat, tabs: Tables, heap: VRegion, top: nat)
    requires Sound(ph, root, tabs, heap, top)
    ensures heap.Valid() && heap.dir.Up? && (heap.HeapCovered(ph) <==> top == CeilPages(heap.size))
  {
    hide CeilPages, Tree, FreeAboveKernel, Clear;
    HeldExactly(heap.Records(), ph, top, CeilPages(heap.size));
  }

  /** A call that leaves the heap below `limit` and 2 GB. */
  method NextCall(m: Machine, heap: VRegion, root: nat, ghost tabs: Tables, before: seq<Region>,
    after: seq<Region>, n: nat, ghost limit: nat, ghost top: nat)
    returns (r: int, panic: MapResult, ghost tabs': Tables, ghost top': nat)
    requires Sound(m.State(), root, tabs, heap, top) && HeapShown(m.State(), root, heap)
    requires AllValid(before) && AllValid(after) && Room(before, after, heap.base, limit)
    requires heap.base + heap.size + n <= limit && heap.base + heap.size + n < INT_END
    modifies m, heap, heap.chunks
    ensures heap.base == old(heap.base) && heap.size == old(heap.size) + (if r == -1 then 0 else n)
    ensures forall c :: c in heap.chunks && c !in old(heap.chunks) ==> fresh(c)
    ensures Sound(m.State(), root, tabs', heap, top') && (panic == Ok ==> HeapShown(m.State(), root, heap))
    ensures r != -1 ==> top' == Max(top, CeilPages(heap.size))
    ensures panic != Remap && (panic == NoMemory ==> NoneAvailable(m.State())) && (panic != Ok ==> r != -1)
  {
    SoundCovered(m.State(), root, tabs, heap, top);
    hide Sound, HeapShown, Room, Disjoint, OthersSafe, Entry, HeapPage, CeilPages, AsInt, NoneAvailable, AllValid;
    var rebuilt;
    r, rebuilt, tabs', top' := SysSbrk(m, heap, root, tabs, before, after, n, top);
    panic := Ok;
    if r != -1 {
      RoomDisjoint(before, after, heap.Value(), limit);
      panic := rebuilt.value;
    }
  }

  /** A process that calls sbrk for `ns[0]`, `ns[1]`, and so on, until a rebuild panics.  After each
      call the page table shows the heap, and if no call has failed the used descriptors are exactly
      those of the pages of the heap. */
  method SbrkCalls(m: Machine, heap: VRegion, root: nat, ghost tabs: Tables, before: seq<Region>,
    after: seq<Region>, ns: seq<nat>, ghost limit: nat, ghost top: nat)
    returns (rs: seq<int>, panic: MapResult, ghost tabs': Tables, ghost top': nat)
    requires Sound(m.State(), root, tabs, heap, top) && HeapShown(m.State(), root, heap)
    requires AllValid(before) && AllValid(after) && Room(before, after, heap.base, limit)
    requires heap.base + heap.size + Total(ns) <= limit && heap.base + heap.size + Total(ns) < INT_END
    modifies m, heap, heap.chunks
    ensures |rs| <= |ns| && (panic == Ok ==> |rs| == |ns|) && panic != Remap
    ensures Sound(m.State(), root, tabs', heap, top') && (panic == Ok ==> HeapShown(m.State(), root, heap))
    ensures old(heap.HeapCovered(m.State())) && -1 !in rs ==> heap.HeapCovered(m.State())
    ensures -1 !in rs && panic == Ok ==> heap.size == old(heap.size) + Total(ns)
    ensures panic == NoMemory ==> NoneAvailable(m.State())
    ensures forall c :: c in heap.chunks && c !in old(heap.chunks) ==> fresh(c)
    decreases |ns|
  {
    SoundCovered(m.State(), root, tabs, heap, top);
    if ns == [] {
      return [], Ok, tabs, top;
    }
    CeilGrows(heap.size, ns[0]);
    assert Total(ns) == ns[0] + Total(ns[1..]) && Max(CeilPages(heap.size), CeilPages(heap.size + ns[0]))
                                                  == CeilPages(heap.size + ns[0]);
    hide *;
    var r;
    r, panic, tabs', top' := NextCall(m, heap, root, tabs, before, after, ns[0], limit, top);
    SoundCovered(m.State(), root, tabs', heap, top');
    rs := [r];
    if panic == Ok {
      assert forall i :: 0 <= i < |heap.chunks| ==> heap.chunks[i] in heap.chunks;
      var rest;
      rest, panic, tabs', top' := SbrkCalls(m, heap, root, tabs', before, after, ns[1..], limit, top');
      rs := [r] + rest;
    }
  }
}
