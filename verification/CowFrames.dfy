/** Conservation of frames: no copy, fault, exit or growth of an address space loses a frame or takes
    one that the kernel keeps for itself. */
module CowFrames {
  import opened Options
  import opened Mmu
  import opened Kalloc
  import opened VSpace
  import opened Cow

  /** Frame `f` is in use, but by no page of any space. */
  ghost predicate Reserved(w: World, f: nat)
  {
    f < |w.ph.core| && !w.ph.core[f].available && Total(w.spaces, f) == 0
  }

  ghost predicate Conserves(w: World, w': World)
  {
    |w'.ph.core| == |w.ph.core| && forall f: nat :: Reserved(w', f) <==> Reserved(w, f)
  }

  lemma ConservesTransitive(a: World, b: World, c: World)
    requires Conserves(a, b) && Conserves(b, c)
    ensures Conserves(a, c)
  {
    hide Reserved;
    forall f: nat ensures Reserved(c, f) <==> Reserved(a, f) { assert Reserved(b, f) <==> Reserved(a, f); }
  }

  lemma CopyConserves(w: World, s: nat)
    requires Inv(w) && s < |w.spaces|
    ensures Conserves(w, CowCopy(w, s))
  {
    hide Total, Count, Inv;
    forall f: nat ensures Reserved(CowCopy(w, s), f) <==> Reserved(w, f) {
      CowTotal(w, s, f);
      TotalAtLeast(w.spaces, s, f);
      if f < |w.ph.core| { CowCore(w, s, f); }
    }
  }

  /** The write fault gives back the old frame with its last reference. */
  lemma FaultConserves(w: World, s: nat, i: nat)
    requires Inv(w) && s < |w.spaces| && i < |w.spaces[s]| && Fault(w, s, i).Some?
    ensures Conserves(w, Fault(w, s, i).value)
  {
    var v, w', f := w.spaces[s][i], Fault(w, s, i).value, FirstAvailable(w.ph.core, 0);
    if v.used && !v.writable && v.cow {
      FaultShape(w, s, i);
      assert IsPage(w, s, i);
      assert w.ph.core[v.ppn].ref <= 1 ==> w'.ph.core[v.ppn].available;
      hide Fault, Total, Count;
      forall g: nat ensures Reserved(w', g) <==> Reserved(w, g) {
        FaultTotal(w, s, i, v.(cow := false, writable := true, ppn := f), g);
      }
    }
  }

  lemma StoreConserves(w: World, s: nat, i: nat, k: nat, x: nat)
    requires Inv(w) && s < |w.spaces| && i < |w.spaces[s]| && k < ENTRIES && Store(w, s, i, k, x).Some?
    ensures Conserves(w, Store(w, s, i, k, x).value)
  {
    FaultConserves(w, s, i);
    hide Fault, Total, Inv;
  }

  lemma DropConserves(w: World, s: nat, i: nat)
    requires Inv(w) && s < |w.spaces| && i < |w.spaces[s]|
    ensures Conserves(w, Drop(w, s, i))
  {
    var v := w.spaces[s][i];
    if v.used { assert IsPage(w, s, i); }
    hide Total, Count;
    forall g: nat ensures Reserved(Drop(w, s, i), g) <==> Reserved(w, g) { FaultTotal(w, s, i, EMPTY_VPI, g); }
  }

  lemma {:induction false} ExitConserves(w: World, s: nat, i: nat)
    requires Inv(w) && s < |w.spaces| && i <= |w.spaces[s]|
    ensures Conserves(w, Exited(w, s, i))
    decreases |w.spaces[s]| - i
  {
    if i < |w.spaces[s]| {
      DropKeeps(w, s, i);
      DropConserves(w, s, i);
      hide Conserves, Inv, Drop, View;
      ExitConserves(Drop(w, s, i), s, i + 1);
      ConservesTransitive(w, Drop(w, s, i), Exited(w, s, i));
    }
  }

  lemma ExtendedConserves(w: World, s: nat, writable: bool)
    requires Inv(w) && s < |w.spaces| && Extended(w, s, writable).Some?
    ensures Conserves(w, Extended(w, s, writable).value)
  {
    var f, w' := FirstAvailable(w.ph.core, 0), Extended(w, s, writable).value;
    FreeUnnamed(w, f);
    hide Total, Count, Inv;
    var r := Vpi(true, f, true, writable, false);
    forall g: nat ensures Reserved(w', g) <==> Reserved(w, g) {
      CountAppend(w.spaces[s], r, g);
      TotalUpdate(w.spaces, s, w.spaces[s] + [r], g);
    }
  }

  lemma OpenConserves(w: World)
    ensures Conserves(w, Opened(w))
  {
    forall g: nat ensures Reserved(Opened(w), g) <==> Reserved(w, g) { TotalAppend(w.spaces, [], g); }
  }

  lemma StepConserves(w: World, op: Op)
    requires Inv(w) && w.ph.Valid() && Step(w, op).Some?
    ensures Inv(Step(w, op).value) && Conserves(w, Step(w, op).value)
  {
    hide Inv, Conserves, CowCopy, Exited, Store, EagerStore, EagerExit, Extended, EagerGrow, Shows;
    match op
    case Fork(s) =>
      if s < |w.spaces| {
        CowCopyKeeps(w, s);
        CopyConserves(w, s);
      } else {
        Unmoved(w);
      }
    case Write(s, i, k, x) =>
      if s < |w.spaces| && i < |w.spaces[s]| && k < ENTRIES {
        StoreShows(w, Viewed(w), s, i, k, x);
        StoreConserves(w, s, i, k, x);
      } else {
        Unmoved(w);
      }
    case Exit(s) =>
      if s < |w.spaces| {
        ExitShows(w, Viewed(w), s, 0);
        ExitConserves(w, s, 0);
      } else {
        Unmoved(w);
      }
    case Open =>
      OpenShows(w, Viewed(w));
      OpenConserves(w);
    case Grow(s, writable) =>
      if s < |w.spaces| {
        ExtendedShows(w, Viewed(w), s, writable);
        ExtendedConserves(w, s, writable);
      } else {
        Unmoved(w);
      }
  }

  lemma Unmoved(w: World)
    ensures Conserves(w, w)
  {
  }

  /** No run loses a frame: the frames in use without a page are the same at its end. */
  lemma {:induction false} RunConserves(w: World, ops: seq<Op>, w': World)
    requires Inv(w) && Runs(w, ops, w')
    ensures Inv(w') && Conserves(w, w')
    decreases |ops|
  {
    hide Inv, Conserves, Step;
    if ops == [] {
      Unmoved(w);
    } else {
      StepConserves(w, ops[0]);
      RunConserves(Step(w, ops[0]).value, ops[1..], w');
      ConservesTransitive(w, Step(w, ops[0]).value, w');
    }
  }

  lemma {:induction false} NoPages(w: World, f: nat)
    requires forall s, i :: !IsPage(w, s, i)
    ensures Total(w.spaces, f) == 0
  {
    if Total(w.spaces, f) > 0 {
      var s, i := TotalWitness(w.spaces, f);
      assert IsPage(w, s, i);
    }
  }

  /** When every process has given up its pages, exactly the frames are free that were free before
      the first process. */
  lemma AllGivenBack(ph: Phys, ops: seq<Op>, w: World)
    requires ph.Valid() && FreeAboveKernel(ph) && Runs(World(ph, []), ops, w) && forall s, i :: !IsPage(w, s, i)
    ensures |w.ph.core| == |ph.core|
    ensures forall f :: 0 <= f < |ph.core| ==> w.ph.core[f].available == ph.core[f].available
  {
    NothingInv(ph);
    RunConserves(World(ph, []), ops, w);
    hide Runs, Inv;
    forall f | 0 <= f < |ph.core| ensures w.ph.core[f].available == ph.core[f].available {
      NoPages(w, f);
      assert Reserved(w, f) <==> Reserved(World(ph, []), f);
    }
  }

  /** The same holds for the eager copy of a page. */
  lemma CopiedPageConserves(w: World, v: Vpi)
    requires Inv(w) && w.spaces != [] && CopiedPage(w, v).Some?
    ensures Conserves(w, CopiedPage(w, v).value)
  {
    var n, f, w' := |w.spaces| - 1, FirstAvailable(w.ph.core, 0), CopiedPage(w, v).value;
    if v.used { FreeUnnamed(w, f); }
    hide Total, Count, Inv;
    var r := w'.spaces[n][|w.spaces[n]|];
    forall g: nat ensures Reserved(w', g) <==> Reserved(w, g) {
      CountAppend(w.spaces[n], r, g);
      TotalUpdate(w.spaces, n, w.spaces[n] + [r], g);
    }
  }
}
