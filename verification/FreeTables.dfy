/** Freeing the table pages themselves: freevm_pgdir, freevm_pdpt and the loop of freevm
    (kernel/x86_64vm.c:260-302). */
module FreeTables {
  import opened Options
  import opened Mmu
  import opened Kalloc
  import opened PageTable
  import opened Teardown

  const SZ_4G: nat := 0x1_0000_0000

  /** Exactly the frames of `S` were freed, each once; all else is as before. */
  ghost predicate FreedAll(before: Phys, after: Phys, S: set<nat>)
  {
    && before.Valid() && after.Valid() && |after.core| == |before.core| && after.kend == before.kend
    && (forall f :: 0 <= f < |before.core| ==>
          if f in S then after.core[f] == CoreEntry(true, false, 0, 0) && after.mem[f] == Filled(JUNK)
          else after.core[f] == before.core[f] && after.mem[f] == before.mem[f])
    && after.inUse == before.inUse - |S| && after.freePages == before.freePages + |S|
  }

  /** The frames of the tables strictly below position `p` through entries before `i`. */
  ghost function Below(tabs: Tables, p: Path, i: nat): set<nat>
  {
    set q | q in tabs && |p| < |q| && p <= q && q[|p|] < i :: tabs[q]
  }

  ghost function Subtree(tabs: Tables, p: Path): set<nat>
  {
    set q | q in tabs && p <= q :: tabs[q]
  }

  lemma BelowStep(tabs: Tables, p: Path, i: nat)
    ensures Below(tabs, p, i + 1) == Below(tabs, p, i) + Subtree(tabs, p + [i])
  {
    forall q | q in tabs && |p| < |q| && p <= q && q[|p|] == i
      ensures p + [i] <= q
    {
    }
  }

  lemma SubtreeOfAbsent(ph: Phys, root: nat, tabs: Tables, p: Path)
    requires Tree(ph, root, tabs) && p !in tabs
    ensures Subtree(tabs, p) == {}
  {
    forall q | q in tabs && p <= q ensures false {
      assert p + q[|p|..] == q;
      PrefixClosed(ph, root, tabs, p, q[|p|..]);
    }
  }

  lemma SubtreeSplit(ph: Phys, root: nat, tabs: Tables, p: Path)
    requires Tree(ph, root, tabs) && p in tabs
    ensures Subtree(tabs, p) == Below(tabs, p, ENTRIES) + {tabs[p]}
    ensures tabs[p] !in Below(tabs, p, ENTRIES)
  {
    forall q | q in tabs && p <= q && q != p
      ensures |p| < |q| && q[|p|] < ENTRIES
    {
      IndicesInRange(ph, root, tabs, q, |p|);
    }
  }

  lemma {:induction false} IndicesInRange(ph: Phys, root: nat, tabs: Tables, q: Path, k: nat)
    requires Tree(ph, root, tabs) && q in tabs && k < |q|
    ensures q[k] < ENTRIES
    decreases |q|
  {
    if k < |q| - 1 {
      IndicesInRange(ph, root, tabs, Parent(q), k);
    }
  }

  lemma FreeOneMore(before: Phys, now: Phys, S: set<nat>, f: nat)
    requires FreedAll(before, now, S) && f < |before.core| && f !in S && before.core[f].ref == 1
    ensures FreedAll(before, Freed(now, f), S + {f})
  {
  }

  /** A subtree of the tree is still whole after the frames of `S` are gone. */
  ghost predicate Whole(s0: Phys, root: nat, tabs: Tables, S: set<nat>, p: Path)
  {
    && Tree(s0, root, tabs) && (forall q :: q in tabs ==> Freeable(s0, tabs[q]))
    && p in tabs && Subtree(tabs, p) !! S
  }

  /** The entries of a table page not yet freed are what they were. */
  lemma EntryStill(s0: Phys, now: Phys, root: nat, tabs: Tables, S: set<nat>, p: Path, i: nat)
    requires Whole(s0, root, tabs, S, p) && |p| < 3 && i < ENTRIES
    requires FreedAll(s0, now, S + Below(tabs, p, i))
    ensures Follow(now.mem, tabs[p], i) == if p + [i] in tabs then Some(tabs[p + [i]]) else None
  {
    assert tabs[p] in Subtree(tabs, p);
    assert tabs[p] !in Below(tabs, p, i);
    assert EntryMatches(s0.mem, tabs, p, i);
  }

  /** After the subtrees below entries before `i` of `p` are gone, the one below `i` is
      still whole. */
  lemma WholeOn(s0: Phys, root: nat, tabs: Tables, S: set<nat>, p: Path, i: nat)
    requires Whole(s0, root, tabs, S, p) && p + [i] in tabs
    ensures Whole(s0, root, tabs, S + Below(tabs, p, i), p + [i])
  {
    forall q, r | q in tabs && |p| < |q| && p <= q && q[|p|] < i && r in tabs && p + [i] <= r
      ensures tabs[q] != tabs[r]
    {
      assert r[|p|] == (p + [i])[|p|] == i;
    }
    forall r | r in tabs && p + [i] <= r
      ensures p <= r
    {
      assert p == (p + [i])[..|p|] == r[..|p|];
    }
  }

  /** What one entry of a table contributes to the set of freed frames. */
  lemma BelowGrows(s0: Phys, root: nat, tabs: Tables, S: set<nat>, p: Path, i: nat)
    requires Tree(s0, root, tabs) && i < ENTRIES
    ensures S + Below(tabs, p, i + 1)
         == if p + [i] in tabs then (S + Below(tabs, p, i)) + Subtree(tabs, p + [i]) else S + Below(tabs, p, i)
  {
    hide Tree;
    BelowStep(tabs, p, i);
    if p + [i] !in tabs {
      SubtreeOfAbsent(s0, root, tabs, p + [i]);
    }
  }

  lemma LeafSubtree(s0: Phys, root: nat, tabs: Tables, p: Path)
    requires Tree(s0, root, tabs) && p in tabs && |p| == 3
    ensures Subtree(tabs, p) == {tabs[p]}
  {
    forall q | q in tabs && p <= q ensures q == p { }
  }

  function Kfreed(ph: Phys, f: nat): (r: Option<Phys>)
    requires ph.Valid()
    ensures r.Some? ==> r.value.Valid() && |r.value.mem| == |ph.mem|
  {
    if Freeable(ph, f) then Some(Freed(ph, f)) else None
  }

  /** Free what lies below the entries from `i` on of table page `f`, then the page itself.
      Level 2 is freevm_pgdir, level 1 freevm_pdpt, level 0 the loop of freevm; None is a
      panic of kfree. */
  function TableFreed(ph: Phys, f: nat, i: nat, level: nat): (r: Option<Phys>)
    requires ph.Valid() && level <= 2
    ensures r.Some? ==> r.value.Valid() && |r.value.mem| == |ph.mem|
    decreases 2 - level, ENTRIES - i
  {
    if f >= |ph.mem| then None
    else if i >= ENTRIES then Kfreed(ph, f)
    else match Follow(ph.mem, f, i)
      case None => TableFreed(ph, f, i + 1, level)
      case Some(g) =>
        var below := if level == 2 then Kfreed(ph, g) else TableFreed(ph, g, 0, level + 1);
        if below.None? then None else TableFreed(below.value, f, i + 1, level)
  }

  ghost predicate EndsWith(r: Option<Phys>, s0: Phys, S: set<nat>)
  {
    r.Some? && FreedAll(s0, r.value, S)
  }

  lemma FreePage(s0: Phys, now: Phys, root: nat, tabs: Tables, S: set<nat>, p: Path)
    requires Whole(s0, root, tabs, S, p) && FreedAll(s0, now, S) && |p| == 3
    ensures EndsWith(Kfreed(now, tabs[p]), s0, S + Subtree(tabs, p))
  {
    LeafSubtree(s0, root, tabs, p);
    assert tabs[p] in Subtree(tabs, p);
    FreeOneMore(s0, now, S, tabs[p]);
  }

  lemma FreeLast(s0: Phys, now: Phys, root: nat, tabs: Tables, S: set<nat>, p: Path)
    requires Whole(s0, root, tabs, S, p) && FreedAll(s0, now, S + Below(tabs, p, ENTRIES))
    ensures EndsWith(Kfreed(now, tabs[p]), s0, S + Subtree(tabs, p))
  {
    hide Below, Subtree, FreedAll, Tree;
    SubtreeSplit(s0, root, tabs, p);
    TableInTree(s0, root, tabs, p);
    assert tabs[p] in Subtree(tabs, p) && tabs[p] !in S + Below(tabs, p, ENTRIES);
    FreedAllValid(s0, now, S + Below(tabs, p, ENTRIES));
    FreeOneMore(s0, now, S + Below(tabs, p, ENTRIES), tabs[p]);
    assert S + Subtree(tabs, p) == S + Below(tabs, p, ENTRIES) + {tabs[p]};
  }

  lemma TableInTree(s0: Phys, root: nat, tabs: Tables, p: Path)
    requires Tree(s0, root, tabs) && p in tabs
    ensures tabs[p] < |s0.core| && s0.core[tabs[p]].ref == 1
  {
  }

  /** What freeing a table does at its entry `i`. */
  lemma TableAtEntry(now: Phys, f: nat, i: nat, level: nat)
    requires now.Valid() && level <= 2 && f < |now.mem| && i < ENTRIES
    ensures Follow(now.mem, f, i).None? ==> TableFreed(now, f, i, level) == TableFreed(now, f, i + 1, level)
    ensures Follow(now.mem, f, i).Some? ==>
      var g := Follow(now.mem, f, i).value;
      var below := if level == 2 then Kfreed(now, g) else TableFreed(now, g, 0, level + 1);
      TableFreed(now, f, i, level) == if below.None? then None else TableFreed(below.value, f, i + 1, level)
  {
  }

  lemma TableAtEnd(now: Phys, f: nat, level: nat)
    requires now.Valid() && level <= 2 && f < |now.mem|
    ensures TableFreed(now, f, ENTRIES, level) == Kfreed(now, f)
  {
  }

  /** Freeing from a table page down frees exactly the table pages of its subtree, each
      once, and never panics. */
  lemma {:induction false} FreesSubtree(s0: Phys, now: Phys, root: nat, tabs: Tables, S: set<nat>, p: Path, i: nat)
    requires Whole(s0, root, tabs, S, p) && |p| <= 2 && i <= ENTRIES
    requires FreedAll(s0, now, S + Below(tabs, p, i))
    ensures EndsWith(TableFreed(now, tabs[p], i, |p|), s0, S + Subtree(tabs, p))
    decreases 2 - |p|, ENTRIES - i, 1
  {
    hide Whole, FreedAll, Below, Subtree, Kfreed, Follow, TableFreed, Tree;
    WholeFacts(s0, root, tabs, S, p);
    FreedAllValid(s0, now, S + Below(tabs, p, i));
    if i == ENTRIES {
      TableAtEnd(now, tabs[p], |p|);
      FreeLast(s0, now, root, tabs, S, p);
    } else {
      EntryStill(s0, now, root, tabs, S, p, i);
      TableAtEntry(now, tabs[p], i, |p|);
      BelowGrows(s0, root, tabs, S, p, i);
      var next := now;
      if p + [i] in tabs { next := FreesEntry(s0, now, root, tabs, S, p, i); }
      FreesSubtree(s0, next, root, tabs, S, p, i + 1);
    }
  }

  /** The subtree below entry `i` goes, and nothing else. */
  lemma {:induction false} FreesEntry(s0: Phys, now: Phys, root: nat, tabs: Tables, S: set<nat>, p: Path, i: nat)
    returns (next: Phys)
    requires Whole(s0, root, tabs, S, p) && |p| <= 2 && i < ENTRIES && p + [i] in tabs && now.Valid()
    requires FreedAll(s0, now, S + Below(tabs, p, i))
    ensures Some(next) == if |p| == 2 then Kfreed(now, tabs[p + [i]]) else TableFreed(now, tabs[p + [i]], 0, |p| + 1)
    ensures FreedAll(s0, next, S + Below(tabs, p, i) + Subtree(tabs, p + [i]))
    decreases 2 - |p|, ENTRIES - i, 0
  {
    hide Whole, FreedAll, Below, Subtree, Kfreed, TableFreed, Tree;
    WholeOn(s0, root, tabs, S, p, i);
    var S' := S + Below(tabs, p, i);
    if |p| == 2 {
      FreePage(s0, now, root, tabs, S', p + [i]);
      next := Kfreed(now, tabs[p + [i]]).value;
    } else {
      BelowNothing(tabs, S', p + [i]);
      FreesSubtree(s0, now, root, tabs, S', p + [i], 0);
      next := TableFreed(now, tabs[p + [i]], 0, |p| + 1).value;
    }
  }

  lemma WholeFacts(s0: Phys, root: nat, tabs: Tables, S: set<nat>, p: Path)
    requires Whole(s0, root, tabs, S, p)
    ensures Tree(s0, root, tabs) && p in tabs && s0.Valid() && tabs[p] < |s0.mem| == |s0.core|
  {
  }

  lemma FreedAllValid(s0: Phys, now: Phys, S: set<nat>)
    requires FreedAll(s0, now, S)
    ensures s0.Valid() && now.Valid() && |now.core| == |s0.core| && |now.mem| == |s0.mem| && now.kend == s0.kend
  {
  }

  lemma BelowNothing(tabs: Tables, S: set<nat>, p: Path)
    ensures S + Below(tabs, p, 0) == S
  {
  }

  /** freevm_pgdir. */
  method FreevmPgdir(m: Machine, pgdir: nat) returns (ok: bool)
    requires m.State().Valid() && pgdir < |m.mem|
    modifies m
    ensures var r := TableFreed(old(m.State()), pgdir, 0, 2); ok == r.Some? && (ok ==> m.State() == r.value)
  {
    hide Freed, TableFreed;
    ghost var goal := TableFreed(m.State(), pgdir, 0, 2);
    var i := 0;
    while i < ENTRIES
      invariant 0 <= i <= ENTRIES && m.State().Valid() && pgdir < |m.mem|
      invariant TableFreed(m.State(), pgdir, i, 2) == goal
    {
      TableStep(m.State(), pgdir, i, 2);
      if Present(m.mem[pgdir][i]) {
        var v := FrameOf(m.mem[pgdir][i]);
        if !(m.kend <= v < |m.core|) {
          return false;
        }
        m.Kfree(v);
      }
      i := i + 1;
    }
    TableStep(m.State(), pgdir, i, 2);
    if !(m.kend <= pgdir < |m.core|) {
      return false;
    }
    m.Kfree(pgdir);
    ok := true;
  }

  /** freevm_pdpt. */
  method FreevmPdpt(m: Machine, pdpt: nat) returns (ok: bool)
    requires m.State().Valid() && pdpt < |m.mem|
    modifies m
    ensures var r := TableFreed(old(m.State()), pdpt, 0, 1); ok == r.Some? && (ok ==> m.State() == r.value)
  {
    hide Freed, TableFreed;
    ghost var goal := TableFreed(m.State(), pdpt, 0, 1);
    var i := 0;
    while i < ENTRIES
      invariant 0 <= i <= ENTRIES && m.State().Valid() && pdpt < |m.mem|
      invariant TableFreed(m.State(), pdpt, i, 1) == goal
    {
      TableStep(m.State(), pdpt, i, 1);
      if Present(m.mem[pdpt][i]) {
        var pgdir := FrameOf(m.mem[pdpt][i]);
        if pgdir >= |m.mem| {
          WildTable(m.State(), pgdir, 2);
          return false;
        }
        ok := FreevmPgdir(m, pgdir);
        if !ok {
          return;
        }
      }
      i := i + 1;
    }
    TableStep(m.State(), pdpt, i, 1);
    if !(m.kend <= pdpt < |m.core|) {
      return false;
    }
    m.Kfree(pdpt);
    ok := true;
  }

  lemma TableStep(ph: Phys, f: nat, i: nat, level: nat)
    requires ph.Valid() && level <= 2 && f < |ph.mem|
    ensures i == ENTRIES ==> TableFreed(ph, f, i, level) == Kfreed(ph, f)
    ensures i < ENTRIES && !Present(ph.mem[f][i]) ==> TableFreed(ph, f, i, level) == TableFreed(ph, f, i + 1, level)
    ensures i < ENTRIES && Present(ph.mem[f][i]) ==>
      var g := FrameOf(ph.mem[f][i]);
      var below := if level == 2 then Kfreed(ph, g) else TableFreed(ph, g, 0, level + 1);
      && (below.None? ==> TableFreed(ph, f, i, level) == None)
      && (below.Some?
         ==> TableFreed(ph, f, i, level) == TableFreed(below.value, f, i + 1, level) && |below.value.mem| == |ph.mem|)
  {
  }

  /** freevm: unmap the user pages, then free every table page and the root. */
  method Freevm(m: Machine, root: nat) returns (ok: bool)
    requires m.State().Valid() && root < |m.mem|
    requires Scannable(m.State(), root, 0, SZ_4G) && NoneStuck(m.State(), root, 0, SZ_4G)
    modifies m
    ensures var r := TableFreed(NaiveScan(old(m.State()), root, 0, SZ_4G), root, 0, 0);
            ok == r.Some? && (ok ==> m.State() == r.value)
  {
    hide Freed, TableFreed, NaiveScan, Scannable, NoneStuck;
    assert PageRoundUp(0) == 0;
    var _ := DeallocUvm(m, root, 0, SZ_4G, 0);
    ghost var goal := TableFreed(m.State(), root, 0, 0);
    var i := 0;
    while i < ENTRIES
      invariant 0 <= i <= ENTRIES && m.State().Valid() && root < |m.mem|
      invariant TableFreed(m.State(), root, i, 0) == goal
    {
      TableStep(m.State(), root, i, 0);
      if Present(m.mem[root][i]) {
        var pdpt := FrameOf(m.mem[root][i]);
        if pdpt >= |m.mem| {
          WildTable(m.State(), pdpt, 1);
          return false;
        }
        ok := FreevmPdpt(m, pdpt);
        if !ok {
          return;
        }
      }
      i := i + 1;
    }
    TableStep(m.State(), root, i, 0);
    if !(m.kend <= root < |m.core|) {
      return false;
    }
    m.Kfree(root);
    ok := true;
  }

  lemma WildTable(ph: Phys, f: nat, level: nat)
    requires ph.Valid() && level <= 2 && f >= |ph.mem|
    ensures TableFreed(ph, f, 0, level) == None
  {
  }

  lemma {:induction false} ScanKeepsTree(ph: Phys, root: nat, tabs: Tables, a: nat, lo: nat, hi: nat)
    requires ph.Valid() && LeavesFreeable(ph, root, tabs, lo, hi) && lo <= a
    ensures Tree(NaiveScan(ph, root, a, hi), root, tabs) && NaiveScan(ph, root, a, hi).kend == ph.kend
    decreases hi - a
  {
    hide Released, Depth, Entry;
    if a < hi {
      ReleaseKeeps(ph, root, tabs, a, lo, hi);
      ReleasedBounds(ph, root, a);
      ScanKeepsTree(Released(ph, root, a), root, tabs, a + PGSIZE, lo, hi);
    }
  }

  lemma ReleasedBounds(ph: Phys, root: nat, a: nat)
    requires ph.Valid()
    ensures Released(ph, root, a).kend == ph.kend
  {
  }

  /** freevm gives back every table page of the tree, each exactly once, touches no other
      frame beyond what the scan of user pages released, and does not panic. */
  lemma FreevmFreesTables(ph: Phys, root: nat, tabs: Tables)
    requires ph.Valid() && LeavesFreeable(ph, root, tabs, 0, SZ_4G)
    requires forall p :: p in tabs ==> Freeable(ph, tabs[p])
    ensures var s1 := NaiveScan(ph, root, 0, SZ_4G);
            EndsWith(TableFreed(s1, root, 0, 0), s1, tabs.Values)
  {
    hide NaiveScan, TableFreed, FreedAll;
    var s1 := NaiveScan(ph, root, 0, SZ_4G);
    ScanKeepsTree(ph, root, tabs, 0, 0, SZ_4G);
    assert Subtree(tabs, []) == tabs.Values;
    BelowNothing(tabs, {}, []);
    NothingFreed(s1);
    FreesSubtree(s1, s1, root, tabs, {}, [], 0);
    assert {} + tabs.Values == tabs.Values;
  }

  lemma NothingFreed(ph: Phys)
    requires ph.Valid()
    ensures FreedAll(ph, ph, {})
  {
  }

  /** The scan of freevm over the user half ends if and only if each of the second and
      fourth page directories, when present, has its last entry present: a process that
      ever mapped a page in [1 GB, 2 GB) or [3 GB, 4 GB) but none in the last 2 MB of that
      range is never torn down. */
  lemma FreevmEndsIff(ph: Phys, root: nat, tabs: Tables)
    requires ph.Valid() && LeavesFreeable(ph, root, tabs, 0, SZ_4G)
    ensures (exists n: nat :: Ends(ph, root, 0, SZ_4G, n)) <==>
            ([0, 1] in tabs ==> [0, 1, 511] in tabs) && ([0, 3] in tabs ==> [0, 3, 511] in tabs)
  {
    DeallocEndsIff(ph, root, 0, SZ_4G);
    hide LeavesFreeable, Ends, Depth;
    forall va: nat | va < SZ_4G
      ensures Stuck(ph.mem, root, va) <==>
        (0x7fe0_0000 <= va < 0x8000_0000 && [0, 1] in tabs && [0, 1, 511] !in tabs) ||
        (0xffe0_0000 <= va && [0, 3] in tabs && [0, 3, 511] !in tabs)
    {
      StuckBelow4G(ph, root, tabs, va);
    }
    if [0, 1] in tabs && [0, 1, 511] !in tabs { assert Stuck(ph.mem, root, 0x7fe0_0000); }
    if [0, 3] in tabs && [0, 3, 511] !in tabs { assert Stuck(ph.mem, root, 0xffe0_0000); }
  }

  lemma StuckBelow4G(ph: Phys, root: nat, tabs: Tables, va: nat)
    requires LeavesFreeable(ph, root, tabs, 0, SZ_4G) && va < SZ_4G
    ensures Stuck(ph.mem, root, va) <==>
      (0x7fe0_0000 <= va < 0x8000_0000 && [0, 1] in tabs && [0, 1, 511] !in tabs) ||
      (0xffe0_0000 <= va && [0, 3] in tabs && [0, 3, 511] !in tabs)
  {
    hide Depth, Entry, EntryMatches;
    DepthInTree(ph, root, tabs, va);
    assert Pml4Index(va) == 0 && PdptIndex(va) == va / 0x4000_0000 <= 3;
    assert PdIndex(va) == 511 && PdptIndex(va) == 1 <==> 0x7fe0_0000 <= va < 0x8000_0000;
    assert PdIndex(va) == 511 && PdptIndex(va) == 3 <==> 0xffe0_0000 <= va;
    assert PathOf(va)[..2] == [0, PdptIndex(va)] && PathOf(va)[..1] == [0];
    if [0, PdptIndex(va)] in tabs {
      assert Parent([0, PdptIndex(va)]) == [0];
    }
  }
}
