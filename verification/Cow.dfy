/** Copy-on-write address-space copies (kernel/vspace.c:437-487) and the write-fault branch of
    the trap handler (kernel/trap.c:93-108), against eager copies (kernel/vspace.c:387-435). */
module Cow {
  import opened Options
  import opened Mmu
  import opened Kalloc
  import opened VSpace

  /** Physical memory and the descriptors of every address space, each read as one flat
      array. */
  datatype World = World(ph: Phys, spaces: seq<seq<Vpi>>)

  /** How many used descriptors name frame `f`. */
  function Names(v: Vpi, f: nat): nat { if v.used && v.ppn == f then 1 else 0 }

  function Count(space: seq<Vpi>, f: nat): nat
  {
    if space == [] then 0 else Count(space[..|space| - 1], f) + Names(space[|space| - 1], f)
  }

  function Total(spaces: seq<seq<Vpi>>, f: nat): nat
  {
    if spaces == [] then 0 else Total(spaces[..|spaces| - 1], f) + Count(spaces[|spaces| - 1], f)
  }

  lemma {:induction false} CountUpdate(space: seq<Vpi>, i: nat, v: Vpi, f: nat)
    requires i < |space|
    ensures Count(space[i := v], f) == Count(space, f) - Names(space[i], f) + Names(v, f)
    decreases |space|
  {
    var n := |space| - 1;
    if i == n {
      assert space[i := v][..n] == space[..n];
    } else {
      assert space[i := v][..n] == space[..n][i := v];
      CountUpdate(space[..n], i, v, f);
    }
  }

  lemma {:induction false} TotalUpdate(spaces: seq<seq<Vpi>>, s: nat, space: seq<Vpi>, f: nat)
    requires s < |spaces|
    ensures Total(spaces[s := space], f) == Total(spaces, f) - Count(spaces[s], f) + Count(space, f)
    decreases |spaces|
  {
    var n := |spaces| - 1;
    if s == n {
      assert spaces[s := space][..n] == spaces[..n];
    } else {
      assert spaces[s := space][..n] == spaces[..n][s := space];
      TotalUpdate(spaces[..n], s, space, f);
    }
  }

  lemma TotalAppend(spaces: seq<seq<Vpi>>, space: seq<Vpi>, f: nat)
    ensures Total(spaces + [space], f) == Total(spaces, f) + Count(space, f)
  {
    assert (spaces + [space])[..|spaces|] == spaces;
  }

  /** A descriptor that names a frame is counted. */
  lemma {:induction false} CountPositive(space: seq<Vpi>, i: nat)
    requires i < |space| && space[i].used
    ensures Count(space, space[i].ppn) >= 1
    decreases |space|
  {
    var n := |space| - 1;
    if i < n {
      CountPositive(space[..n], i);
    }
  }

  lemma {:induction false} TotalAtLeast(spaces: seq<seq<Vpi>>, s: nat, f: nat)
    requires s < |spaces|
    ensures Total(spaces, f) >= Count(spaces[s], f)
    decreases |spaces|
  {
    var n := |spaces| - 1;
    if s < n {
      TotalAtLeast(spaces[..n], s, f);
    }
  }

  /** Two different descriptors naming one frame are counted twice. */
  lemma TotalTwo(spaces: seq<seq<Vpi>>, s: nat, i: nat, t: nat, j: nat)
    requires s < |spaces| && i < |spaces[s]| && t < |spaces| && j < |spaces[t]| && (s != t || i != j)
    requires spaces[s][i].used && spaces[t][j].used && spaces[s][i].ppn == spaces[t][j].ppn
    ensures Total(spaces, spaces[s][i].ppn) >= 2
  {
    var f := spaces[s][i].ppn;
    var space := spaces[s][i := EMPTY_VPI];
    var spaces' := spaces[s := space];
    CountUpdate(spaces[s], i, EMPTY_VPI, f);
    TotalUpdate(spaces, s, space, f);
    assert spaces'[t][j] == spaces[t][j];
    CountPositive(spaces'[t], j);
    TotalAtLeast(spaces', t, f);
  }

  ghost predicate IsPage(w: World, s: int, i: int)
  {
    0 <= s < |w.spaces| && 0 <= i < |w.spaces[s]| && w.spaces[s][i].used
  }

  /** Every used descriptor names an allocated frame, the frame's reference count is the
      number of descriptors naming it, and a writable page is not shared. */
  ghost predicate Inv(w: World)
  {
    && w.ph.Valid()
    && FreeAboveKernel(w.ph)
    && (forall s, i :: IsPage(w, s, i) ==>
       Freeable(w.ph, w.spaces[s][i].ppn) && !w.ph.core[w.spaces[s][i].ppn].available)
    && (forall s, i :: IsPage(w, s, i) ==> w.ph.core[w.spaces[s][i].ppn].ref == Total(w.spaces, w.spaces[s][i].ppn))
    && (forall s, i :: IsPage(w, s, i) && w.spaces[s][i].writable ==> Total(w.spaces, w.spaces[s][i].ppn) == 1)
  }

  // ---- the operations

  function CowSource(v: Vpi): Vpi { if v.used then v.(writable := false, cow := true) else v }
  function CowTarget(v: Vpi): Vpi { if v.used then Vpi(true, v.ppn, v.present, false, true) else EMPTY_VPI }

  function CowSources(space: seq<Vpi>): (r: seq<Vpi>)
    ensures |r| == |space| && forall i :: 0 <= i < |space| ==> r[i] == CowSource(space[i])
  {
    seq(|space|, i requires 0 <= i < |space| => CowSource(space[i]))
  }

  function CowTargets(space: seq<Vpi>): (r: seq<Vpi>)
    ensures |r| == |space| && forall i :: 0 <= i < |space| ==> r[i] == CowTarget(space[i])
  {
    seq(|space|, i requires 0 <= i < |space| => CowTarget(space[i]))
  }

  /** kincref for each used descriptor. */
  function IncRefs(core: seq<CoreEntry>, space: seq<Vpi>): (r: seq<CoreEntry>)
    ensures |r| == |core|
    decreases |space|
  {
    if space == [] then core
    else
      var r := IncRefs(core, space[..|space| - 1]);
      var v := space[|space| - 1];
      if v.used && v.ppn < |r| then r[v.ppn := r[v.ppn].(ref := r[v.ppn].ref + 1)] else r
  }

  /** cow_vspacecopy: a new space sharing every frame of space `s`. */
  function CowCopy(w: World, s: nat): World
    requires s < |w.spaces|
  {
    World(w.ph.(core := IncRefs(w.ph.core, w.spaces[s])),
          w.spaces[s := CowSources(w.spaces[s])] + [CowTargets(w.spaces[s])])
  }

  /** The write-fault branch: give the page a private copy; None is the panic on memory. */
  function Fault(w: World, s: nat, i: nat): Option<World>
    requires w.ph.Valid() && s < |w.spaces| && i < |w.spaces[s]|
  {
    var v := w.spaces[s][i];
    if !(v.used && !v.writable && v.cow) then Some(w)
    else
      var f := FirstAvailable(w.ph.core, 0);
      if f == |w.ph.core| || v.ppn >= |w.ph.mem| then None
      else
        var ph1 := Allocated(w.ph);
        var ph2 := ph1.(mem := ph1.mem[f := ph1.mem[v.ppn]]);
        Some(World(Freed(ph2, v.ppn), w.spaces[s := w.spaces[s][i := v.(cow := false, writable := true, ppn := f)]]))
  }

  /** A user store of word `x` at word `k` of page `i`: it takes effect if the page is
      writable, possibly after a fault; otherwise the process is killed. */
  function Store(w: World, s: nat, i: nat, k: nat, x: nat): (r: Option<World>)
    requires w.ph.Valid() && s < |w.spaces| && i < |w.spaces[s]| && k < ENTRIES
  {
    match Fault(w, s, i)
    case None => None
    case Some(w') =>
      if s >= |w'.spaces| || i >= |w'.spaces[s]| then None
      else
        var v := w'.spaces[s][i];
        if v.used && v.present && v.writable && v.ppn < |w'.ph.mem| && |w'.ph.mem[v.ppn]| == ENTRIES then
          var page: seq<nat> := w'.ph.mem[v.ppn][k := x];
          Some(w'.(ph := w'.ph.(mem := w'.ph.mem[v.ppn := page])))
        else Some(w')
  }

  // ---- the invariant

  lemma {:induction false} CountWitness(space: seq<Vpi>, f: nat) returns (i: nat)
    requires Count(space, f) > 0
    ensures i < |space| && space[i].used && space[i].ppn == f
    decreases |space|
  {
    var n := |space| - 1;
    if Names(space[n], f) == 1 {
      i := n;
    } else {
      i := CountWitness(space[..n], f);
    }
  }

  lemma {:induction false} TotalWitness(spaces: seq<seq<Vpi>>, f: nat) returns (s: nat, i: nat)
    requires Total(spaces, f) > 0
    ensures s < |spaces| && i < |spaces[s]| && spaces[s][i].used && spaces[s][i].ppn == f
    decreases |spaces|
  {
    var n := |spaces| - 1;
    if Count(spaces[n], f) > 0 {
      s := n;
      i := CountWitness(spaces[n], f);
    } else {
      s, i := TotalWitness(spaces[..n], f);
    }
  }

  lemma FreeUnnamed(w: World, f: nat)
    requires Inv(w) && f < |w.ph.core| && w.ph.core[f].available
    ensures Total(w.spaces, f) == 0
  {
    if Total(w.spaces, f) > 0 {
      var s, i := TotalWitness(w.spaces, f);
      assert IsPage(w, s, i);
    }
  }

  lemma {:induction false} IncRefsAt(core: seq<CoreEntry>, space: seq<Vpi>, f: nat)
    requires f < |core| && forall i :: 0 <= i < |space| && space[i].used ==> space[i].ppn < |core|
    ensures IncRefs(core, space)[f] == core[f].(ref := core[f].ref + Count(space, f))
    decreases |space|
  {
    if space != [] {
      IncRefsAt(core, space[..|space| - 1], f);
    }
  }

  lemma {:induction false} CountMapped(space: seq<Vpi>, space': seq<Vpi>, f: nat)
    requires |space| == |space'|
    requires forall i :: 0 <= i < |space| ==> Names(space'[i], f) == Names(space[i], f)
    ensures Count(space', f) == Count(space, f)
    decreases |space|
  {
    if space != [] {
      CountMapped(space[..|space| - 1], space'[..|space| - 1], f);
    }
  }

  lemma CowTotal(w: World, s: nat, f: nat)
    requires s < |w.spaces|
    ensures Total(CowCopy(w, s).spaces, f) == Total(w.spaces, f) + Count(w.spaces[s], f)
  {
    CountMapped(w.spaces[s], CowSources(w.spaces[s]), f);
    CountMapped(w.spaces[s], CowTargets(w.spaces[s]), f);
    TotalUpdate(w.spaces, s, CowSources(w.spaces[s]), f);
    TotalAppend(w.spaces[s := CowSources(w.spaces[s])], CowTargets(w.spaces[s]), f);
  }

  /** Which page of the old world a page of the copied world comes from. */
  function Origin(w: World, s: nat, t: int): int { if t == |w.spaces| then s else t }

  lemma CowPage(w: World, s: nat, t: int, i: int)
    requires s < |w.spaces|
    ensures IsPage(CowCopy(w, s), t, i) <==> 0 <= t <= |w.spaces| && IsPage(w, Origin(w, s, t), i)
    ensures IsPage(CowCopy(w, s), t, i) ==>
      var v, v' := w.spaces[Origin(w, s, t)][i], CowCopy(w, s).spaces[t][i];
      v'.ppn == v.ppn && v'.present == v.present &&
      if t == s || t == |w.spaces| then !v'.writable && v'.cow else v' == v
  {
  }

  lemma CowCopyKeeps(w: World, s: nat)
    requires Inv(w) && s < |w.spaces|
    ensures Inv(CowCopy(w, s))
  {
    var w' := CowCopy(w, s);
    hide Total, Count, CowCopy;
    CowPhys(w, s);
    forall f | 0 <= f < |w'.ph.core| && w'.ph.core[f].available ensures Freeable(w'.ph, f) {
      CowCore(w, s, f);
    }
    forall t, i | IsPage(w', t, i)
      ensures Freeable(w'.ph, w'.spaces[t][i].ppn) && !w'.ph.core[w'.spaces[t][i].ppn].available
      ensures w'.ph.core[w'.spaces[t][i].ppn].ref == Total(w'.spaces, w'.spaces[t][i].ppn)
      ensures w'.spaces[t][i].writable ==> Total(w'.spaces, w'.spaces[t][i].ppn) == 1
    {
      CowPage(w, s, t, i);
      var o, f := Origin(w, s, t), w'.spaces[t][i].ppn;
      assert IsPage(w, o, i);
      CowTotal(w, s, f);
      CowPhys(w, s);
      CowCore(w, s, f);
      if w'.spaces[t][i].writable && Count(w.spaces[s], f) > 0 {
        var j := CountWitness(w.spaces[s], f);
        TotalTwo(w.spaces, t, i, s, j);
      }
    }
  }

  lemma CowPhys(w: World, s: nat)
    requires Inv(w) && s < |w.spaces|
    ensures var ph := CowCopy(w, s).ph;
      ph.Valid() && ph.mem == w.ph.mem && ph.kend == w.ph.kend && |ph.core| == |w.ph.core|
  {
  }

  lemma CowCore(w: World, s: nat, f: nat)
    requires Inv(w) && s < |w.spaces| && f < |w.ph.core|
    ensures |CowCopy(w, s).ph.core| == |w.ph.core|
    ensures CowCopy(w, s).ph.core[f] == w.ph.core[f].(ref := w.ph.core[f].ref + Count(w.spaces[s], f))
  {
    forall i | 0 <= i < |w.spaces[s]| && w.spaces[s][i].used ensures w.spaces[s][i].ppn < |w.ph.core| {
      assert IsPage(w, s, i);
    }
    IncRefsAt(w.ph.core, w.spaces[s], f);
  }

  /** What a handled fault changes: one descriptor, from its old frame to a fresh one. */
  lemma FaultShape(w: World, s: nat, i: nat)
    requires Inv(w) && s < |w.spaces| && i < |w.spaces[s]| && Fault(w, s, i).Some?
    requires w.spaces[s][i].used && !w.spaces[s][i].writable && w.spaces[s][i].cow
    ensures var w', v, f := Fault(w, s, i).value, w.spaces[s][i], FirstAvailable(w.ph.core, 0);
      && f < |w.ph.core| && w.ph.core[f].available && f != v.ppn && Freeable(w.ph, f) && Freeable(w.ph, v.ppn)
      && Total(w.spaces, f) == 0 && w'.ph.Valid() && w'.ph.kend == w.ph.kend && |w'.ph.core| == |w.ph.core|
      && w'.spaces == w.spaces[s := w.spaces[s][i := v.(cow := false, writable := true, ppn := f)]]
      && w'.ph.mem[f] == w.ph.mem[v.ppn] && w'.ph.core[f].ref == 1 && !w'.ph.core[f].available
      && (w.ph.core[v.ppn].ref > 1 ==> w'.ph.mem[v.ppn] == w.ph.mem[v.ppn] && !w'.ph.core[v.ppn].available)
      && (w.ph.core[v.ppn].ref > 1 ==> w'.ph.core[v.ppn].ref == w.ph.core[v.ppn].ref - 1)
      && forall g :: 0 <= g < |w.ph.core| && g != f && g != v.ppn ==>
         w'.ph.core[g] == w.ph.core[g] && w'.ph.mem[g] == w.ph.mem[g]
  {
    assert IsPage(w, s, i);
    FreeUnnamed(w, FirstAvailable(w.ph.core, 0));
    hide Total;
  }

  lemma FaultTotal(w: World, s: nat, i: nat, v': Vpi, g: nat)
    requires s < |w.spaces| && i < |w.spaces[s]|
    ensures Total(w.spaces[s := w.spaces[s][i := v']], g)
         == Total(w.spaces, g) - Names(w.spaces[s][i], g) + Names(v', g)
  {
    CountUpdate(w.spaces[s], i, v', g);
    TotalUpdate(w.spaces, s, w.spaces[s][i := v'], g);
  }

  /** A handled fault keeps the invariant and what every page reads. */
  lemma FaultKeeps(w: World, s: nat, i: nat)
    requires Inv(w) && s < |w.spaces| && i < |w.spaces[s]| && Fault(w, s, i).Some?
    ensures Inv(Fault(w, s, i).value)
    ensures SameView(w, Fault(w, s, i).value)
  {
    var v, w' := w.spaces[s][i], Fault(w, s, i).value;
    if v.used && !v.writable && v.cow {
      FaultShape(w, s, i);
      hide Fault, Total, Count, View;
      forall t, j | IsPage(w', t, j)
        ensures IsPage(w, t, j) && PageKept(w, w', t, j)
      {
        FaultPage(w, w', s, i, t, j);
      }
      assert forall t, j :: IsPage(w, t, j) ==> IsPage(w', t, j);
      forall t, j | 0 <= t < |w.spaces| && 0 <= j < |w.spaces[t]| ensures View(w', t, j) == View(w, t, j) {
        if IsPage(w', t, j) { assert PageKept(w, w', t, j); } else { UnusedViews(w, w', t, j); }
      }
    }
  }

  /** A page after a fault: its frame is held and counted, and it reads as before. */
  ghost predicate PageKept(w: World, w': World, t: int, j: int)
    requires 0 <= t < |w.spaces| == |w'.spaces| && 0 <= j < |w.spaces[t]| == |w'.spaces[t]|
  {
    var g := w'.spaces[t][j].ppn;
    && Freeable(w'.ph, g) && !w'.ph.core[g].available && w'.ph.core[g].ref == Total(w'.spaces, g)
    && (w'.spaces[t][j].writable ==> Total(w'.spaces, g) == 1)
    && View(w', t, j) == View(w, t, j)
  }

  lemma UnusedViews(w: World, w': World, t: int, j: int)
    requires 0 <= t < |w.spaces| == |w'.spaces| && 0 <= j < |w.spaces[t]| == |w'.spaces[t]|
    requires !IsPage(w, t, j) && !IsPage(w', t, j)
    ensures View(w', t, j) == View(w, t, j)
  {
  }

  lemma FaultPage(w: World, w': World, s: nat, i: nat, t: int, j: int)
    requires Inv(w) && s < |w.spaces| && i < |w.spaces[s]| && Fault(w, s, i) == Some(w') && IsPage(w', t, j)
    requires w.spaces[s][i].used && !w.spaces[s][i].writable && w.spaces[s][i].cow
    ensures IsPage(w, t, j) && |w'.spaces| == |w.spaces| && |w'.spaces[t]| == |w.spaces[t]| && PageKept(w, w', t, j)
  {
    FaultShape(w, s, i);
    hide Fault, Total, Count;
    var v, f := w.spaces[s][i], FirstAvailable(w.ph.core, 0);
    assert IsPage(w, s, i) && IsPage(w, t, j);
    if t != s || j != i {
      FaultOther(w, w', s, i, f, t, j);
    } else {
      FaultTotal(w, s, i, v.(cow := false, writable := true, ppn := f), f);
    }
  }

  lemma FaultOther(w: World, w': World, s: nat, i: nat, f: nat, t: int, j: int)
    requires Inv(w) && s < |w.spaces| && i < |w.spaces[s]| && Fault(w, s, i) == Some(w')
    requires w.spaces[s][i].used && !w.spaces[s][i].writable && w.spaces[s][i].cow
    requires f == FirstAvailable(w.ph.core, 0)
    requires IsPage(w, t, j) && (t != s || j != i)
    ensures IsPage(w', t, j) && w'.spaces[t][j] == w.spaces[t][j]
    ensures w'.ph.Valid() && |w'.ph.core| == |w.ph.core| && w'.ph.kend == w.ph.kend
    ensures var g := w.spaces[t][j].ppn;
      && g < |w.ph.core| && !w'.ph.core[g].available && w'.ph.mem[g] == w.ph.mem[g]
      && w'.ph.core[g].ref == Total(w'.spaces, g)
      && (w.spaces[t][j].writable ==> Total(w'.spaces, g) == 1)
  {
    FaultShape(w, s, i);
    hide Fault, Total, Count;
    var v, g := w.spaces[s][i], w.spaces[t][j].ppn;
    FaultTotal(w, s, i, v.(cow := false, writable := true, ppn := f), g);
    if g == v.ppn {
      assert IsPage(w, s, i);
      TotalTwo(w.spaces, s, i, t, j);
    }
  }

  // ---- the eager reference

  /** A page as its process sees it: may it be stored to, and what it reads. */
  datatype Page = Absent | Page(present: bool, mayWrite: bool, words: seq<nat>)

  ghost function View(w: World, s: int, i: int): Page
    requires 0 <= s < |w.spaces| && 0 <= i < |w.spaces[s]|
  {
    var v := w.spaces[s][i];
    if v.used && v.ppn < |w.ph.mem| then Page(v.present, v.writable || v.cow, w.ph.mem[v.ppn]) else Absent
  }

  ghost predicate SameSizes(a: seq<seq<Vpi>>, b: seq<seq<Vpi>>)
  {
    |a| == |b| && forall s :: 0 <= s < |a| ==> |a[s]| == |b[s]|
  }

  ghost predicate SameView(w: World, w': World)
  {
    SameSizes(w.spaces, w'.spaces) &&
    forall s, i :: 0 <= s < |w.spaces| && 0 <= i < |w.spaces[s]| ==> View(w', s, i) == View(w, s, i)
  }

  /** vspacecopy as the process sees it. */
  function EagerCopy(e: seq<seq<Page>>, s: nat): seq<seq<Page>>
    requires s < |e|
  {
    e + [e[s]]
  }

  function EagerStore(e: seq<seq<Page>>, s: nat, i: nat, k: nat, x: nat): seq<seq<Page>>
    requires s < |e| && i < |e[s]|
  {
    match e[s][i]
    case Absent => e
    case Page(present, mayWrite, words) =>
      if present && mayWrite && k < |words| then e[s := e[s][i := Page(present, mayWrite, words[k := x])]] else e
  }

  /** World `w` looks to every process like the eager state `e`. */
  ghost predicate Shows(w: World, e: seq<seq<Page>>)
  {
    && |e| == |w.spaces| && (forall s :: 0 <= s < |e| ==> |e[s]| == |w.spaces[s]|)
    && forall s, i :: 0 <= s < |e| && 0 <= i < |e[s]| ==> View(w, s, i) == e[s][i]
  }

  /** No used page of the space is read-only for good. */
  predicate NoReadOnly(space: seq<Vpi>)
  {
    forall i :: 0 <= i < |space| && space[i].used ==> space[i].writable || space[i].cow
  }

  /** A copy-on-write copy looks like an eager copy if and only if the source holds no
      read-only page: such a page comes back writable. */
  lemma CowCopyShows(w: World, s: nat, e: seq<seq<Page>>)
    requires Inv(w) && s < |w.spaces| && Shows(w, e)
    ensures Shows(CowCopy(w, s), EagerCopy(e, s)) <==> NoReadOnly(w.spaces[s])
  {
    var w', e' := CowCopy(w, s), EagerCopy(e, s);
    CowPhys(w, s);
    forall t, i | 0 <= t < |e'| && 0 <= i < |e'[t]|
      ensures t != s && t != |w.spaces| ==> View(w', t, i) == e'[t][i]
      ensures t == s || t == |w.spaces| ==> (View(w', t, i) == e'[t][i] <==>
                                             !w.spaces[s][i].used || w.spaces[s][i].writable || w.spaces[s][i].cow)
    {
      var o := Origin(w, s, t);
      assert w.spaces[o][i].used ==> IsPage(w, o, i);
      assert View(w, o, i) == e[o][i];
    }
    if !NoReadOnly(w.spaces[s]) {
      var i :| 0 <= i < |w.spaces[s]| && w.spaces[s][i].used && !w.spaces[s][i].writable && !w.spaces[s][i].cow;
      assert View(w', s, i) != e'[s][i];
    }
  }

  /** A read-only page of a copied space becomes writable at the first write. */
  lemma ReadOnlyBecomesWritable(w: World, s: nat, i: nat)
    requires Inv(w) && s < |w.spaces| && i < |w.spaces[s]|
    requires w.spaces[s][i].used && !w.spaces[s][i].writable && !w.spaces[s][i].cow
    requires CowCopy(w, s).ph.Valid() && Fault(CowCopy(w, s), s, i).Some?
    ensures var w' := Fault(CowCopy(w, s), s, i).value;
      s < |w'.spaces| && i < |w'.spaces[s]| && w'.spaces[s][i].used && w'.spaces[s][i].writable
  {
    hide Inv;
    CowCopyKeeps(w, s);
    FaultGrants(CowCopy(w, s), s, i);
  }

  lemma FaultGrants(w: World, s: nat, i: nat)
    requires Inv(w) && s < |w.spaces| && i < |w.spaces[s]| && Fault(w, s, i).Some?
    ensures var w', v := Fault(w, s, i).value, w.spaces[s][i];
      && SameSizes(w.spaces, w'.spaces)
      && (v.used ==>
         && w'.spaces[s][i].used && w'.spaces[s][i].writable == (v.writable || v.cow)
         && w'.spaces[s][i].present == v.present)
      && (!v.used ==> w' == w)
      && (forall t :: 0 <= t < |w.spaces| && NoReadOnly(w.spaces[t]) ==> NoReadOnly(w'.spaces[t]))
  {
    hide Total, Inv;
  }

  /** World `w` with one word of a page stored. */
  function Poked(w: World, f: nat, k: nat, x: nat): World
    requires w.ph.Valid() && f < |w.ph.mem| && k < ENTRIES
  {
    var page: seq<nat> := w.ph.mem[f][k := x];
    w.(ph := w.ph.(mem := w.ph.mem[f := page]))
  }

  lemma PokeKeeps(w: World, s: nat, i: nat, k: nat, x: nat)
    requires Inv(w) && IsPage(w, s, i) && w.spaces[s][i].writable && k < ENTRIES
    ensures w.spaces[s][i].ppn < |w.ph.mem| && Inv(Poked(w, w.spaces[s][i].ppn, k, x))
    ensures forall t, j :: 0 <= t < |w.spaces| && 0 <= j < |w.spaces[t]| && (t != s || j != i) ==>
              View(Poked(w, w.spaces[s][i].ppn, k, x), t, j) == View(w, t, j)
    ensures View(w, s, i).Page?
    ensures View(Poked(w, w.spaces[s][i].ppn, k, x), s, i)
      == View(w, s, i).(words := w.ph.mem[w.spaces[s][i].ppn][k := x])
  {
    hide Total;
    var f := w.spaces[s][i].ppn;
    var w' := Poked(w, f, k, x);
    forall t, j | IsPage(w', t, j) ensures IsPage(w, t, j) { }
    forall t, j | IsPage(w, t, j) && (t != s || j != i) ensures w.spaces[t][j].ppn != f {
      if w.spaces[t][j].ppn == f {
        TotalTwo(w.spaces, s, i, t, j);
      }
    }
    forall t, j | 0 <= t < |w.spaces| && 0 <= j < |w.spaces[t]| && (t != s || j != i)
      ensures View(w', t, j) == View(w, t, j)
    {
      assert w.spaces[t][j].used ==> IsPage(w, t, j);
    }
  }

  /** A user store does to every process what it does after eager copies, and keeps the
      reference counts exact. */
  lemma StoreShows(w: World, e: seq<seq<Page>>, s: nat, i: nat, k: nat, x: nat)
    requires Inv(w) && Shows(w, e) && s < |w.spaces| && i < |w.spaces[s]| && k < ENTRIES
    requires Store(w, s, i, k, x).Some?
    ensures Inv(Store(w, s, i, k, x).value)
    ensures Shows(Store(w, s, i, k, x).value, EagerStore(e, s, i, k, x))
  {
    FaultKeeps(w, s, i);
    FaultGrants(w, s, i);
    var w1 := Fault(w, s, i).value;
    var v := w1.spaces[s][i];
    hide Fault, Total;
    assert View(w, s, i) == e[s][i] == View(w1, s, i);
    if v.used { assert IsPage(w1, s, i); }
    if v.used && v.present && v.writable {
      PokeKeeps(w1, s, i, k, x);
      StoreIsPoke(w, s, i, k, x);
      hide Inv, Store, Poked, View;
    }
  }

  lemma StoreIsPoke(w: World, s: nat, i: nat, k: nat, x: nat)
    requires w.ph.Valid() && s < |w.spaces| && i < |w.spaces[s]| && k < ENTRIES
    requires Fault(w, s, i).Some?
    ensures var w1 := Fault(w, s, i).value;
      w1.ph.Valid() && s < |w1.spaces| && i < |w1.spaces[s]| && w1.spaces[s][i].used && w1.spaces[s][i].present
        && w1.spaces[s][i].writable && w1.spaces[s][i].ppn < |w1.ph.mem|
      ==> Store(w, s, i, k, x) == Some(Poked(w1, w1.spaces[s][i].ppn, k, x))
  {
  }

  // ---- giving an address space back

  /** Free the frame of one descriptor and clear it. */
  function Drop(w: World, s: nat, i: nat): World
    requires w.ph.Valid() && s < |w.spaces| && i < |w.spaces[s]|
  {
    var v := w.spaces[s][i];
    World(if v.used && v.ppn < |w.ph.core| then Freed(w.ph, v.ppn) else w.ph,
          w.spaces[s := w.spaces[s][i := EMPTY_VPI]])
  }

  function Exited(w: World, s: nat, i: nat): World
    requires w.ph.Valid() && s < |w.spaces|
    decreases |w.spaces[s]| - i
  {
    if i >= |w.spaces[s]| then w else Exited(Drop(w, s, i), s, i + 1)
  }

  lemma DropKeeps(w: World, s: nat, i: nat)
    requires Inv(w) && s < |w.spaces| && i < |w.spaces[s]|
    ensures Inv(Drop(w, s, i)) && SameSizes(w.spaces, Drop(w, s, i).spaces)
    ensures View(Drop(w, s, i), s, i) == Absent
    ensures forall t, j :: 0 <= t < |w.spaces| && 0 <= j < |w.spaces[t]| && (t != s || j != i) ==>
              View(Drop(w, s, i), t, j) == View(w, t, j)
  {
    var v, w' := w.spaces[s][i], Drop(w, s, i);
    if v.used { assert IsPage(w, s, i); }
    hide Total, Count;
    forall t, j | IsPage(w', t, j)
      ensures Freeable(w'.ph, w'.spaces[t][j].ppn) && !w'.ph.core[w'.spaces[t][j].ppn].available
      ensures w'.ph.core[w'.spaces[t][j].ppn].ref == Total(w'.spaces, w'.spaces[t][j].ppn)
      ensures w'.spaces[t][j].writable ==> Total(w'.spaces, w'.spaces[t][j].ppn) == 1
    {
      DropOther(w, s, i, t, j);
    }
    forall t, j | 0 <= t < |w.spaces| && 0 <= j < |w.spaces[t]| && (t != s || j != i)
      ensures View(w', t, j) == View(w, t, j)
    {
      if w.spaces[t][j].used {
        DropOther(w, s, i, t, j);
      }
    }
  }

  lemma DropOther(w: World, s: nat, i: nat, t: int, j: int)
    requires Inv(w) && s < |w.spaces| && i < |w.spaces[s]|
    requires IsPage(Drop(w, s, i), t, j)
    ensures IsPage(w, t, j) && (t != s || j != i) && Drop(w, s, i).spaces[t][j] == w.spaces[t][j]
    ensures var w', g := Drop(w, s, i), w.spaces[t][j].ppn;
      && Freeable(w'.ph, g) && !w'.ph.core[g].available && g < |w'.ph.mem| && g < |w.ph.mem|
         && w'.ph.mem[g] == w.ph.mem[g]
      && w'.ph.core[g].ref == Total(w'.spaces, g)
      && (w.spaces[t][j].writable ==> Total(w'.spaces, g) == 1)
  {
    var v, g := w.spaces[s][i], w.spaces[t][j].ppn;
    FaultTotal(w, s, i, EMPTY_VPI, g);
    hide Total, Count;
    if v.used {
      assert IsPage(w, s, i);
      if v.ppn == g {
        TotalTwo(w.spaces, s, i, t, j);
      }
    }
  }

  lemma {:induction false} ExitShows(w: World, e: seq<seq<Page>>, s: nat, i: nat)
    requires Inv(w) && Shows(w, e) && s < |w.spaces| && i <= |w.spaces[s]|
    ensures Inv(Exited(w, s, i)) && Shows(Exited(w, s, i), EagerExit(e, s, i))
    decreases |w.spaces[s]| - i
  {
    if i < |w.spaces[s]| {
      DropKeeps(w, s, i);
      var w', e' := Drop(w, s, i), e[s := e[s][i := Absent]];
      hide Inv, Drop;
      assert Shows(w', e');
      ExitShows(w', e', s, i + 1);
      ExitStep(e, s, i);
    } else {
      assert EagerExit(e, s, i)[s] == e[s];
      assert EagerExit(e, s, i) == e;
    }
  }

  function EagerExit(e: seq<seq<Page>>, s: nat, i: nat): seq<seq<Page>>
    requires s < |e| && i <= |e[s]|
  {
    e[s := e[s][..i] + seq(|e[s]| - i, _ => Absent)]
  }

  lemma ExitStep(e: seq<seq<Page>>, s: nat, i: nat)
    requires s < |e| && i < |e[s]|
    ensures EagerExit(e[s := e[s][i := Absent]], s, i + 1) == EagerExit(e, s, i)
  {
    var a, b := EagerExit(e[s := e[s][i := Absent]], s, i + 1), EagerExit(e, s, i);
    assert a[s] == b[s];
  }

  // ---- whole runs

  /** One round of vregionaddmap: a zeroed frame for a new page behind the others; None when no
      frame is left. */
  function Extended(w: World, s: nat, writable: bool): Option<World>
    requires w.ph.Valid() && s < |w.spaces|
  {
    var f := FirstAvailable(w.ph.core, 0);
    if f == |w.ph.core| then None
    else
      var ph1 := Allocated(w.ph);
      Some(World(ph1.(mem := ph1.mem[f := Filled(0)]),
                 w.spaces[s := w.spaces[s] + [Vpi(true, f, true, writable, false)]]))
  }

  function EagerGrow(e: seq<seq<Page>>, s: nat, writable: bool): seq<seq<Page>>
    requires s < |e|
  {
    e[s := e[s] + [Page(true, writable, Filled(0))]]
  }

  /** A new page keeps the invariant and every other view, and reads as zeros. */
  lemma ExtendedKeeps(w: World, s: nat, writable: bool)
    requires Inv(w) && s < |w.spaces| && Extended(w, s, writable).Some?
    ensures var w', n := Extended(w, s, writable).value, |w.spaces[s]|;
      && Inv(w') && |w'.spaces| == |w.spaces| && |w'.spaces[s]| == n + 1
      && (forall t :: 0 <= t < |w.spaces| && t != s ==> w'.spaces[t] == w.spaces[t])
      && (forall t, j :: 0 <= t < |w.spaces| && 0 <= j < |w.spaces[t]| ==> View(w', t, j) == View(w, t, j))
      && View(w', s, n) == Page(true, writable, Filled(0))
  {
    var w', n, f := Extended(w, s, writable).value, |w.spaces[s]|, FirstAvailable(w.ph.core, 0);
    FreeUnnamed(w, f);
    hide Total, Count;
    var r := w'.spaces[s][n];
    forall g: nat ensures Total(w'.spaces, g) == Total(w.spaces, g) + Names(r, g) {
      CountAppend(w.spaces[s], r, g);
      TotalUpdate(w.spaces, s, w.spaces[s] + [r], g);
    }
    forall t, j | IsPage(w', t, j) && !(t == s && j == n)
      ensures IsPage(w, t, j) && w'.spaces[t][j] == w.spaces[t][j]
    {
    }
    forall t, j | 0 <= t < |w.spaces| && 0 <= j < |w.spaces[t]| ensures View(w', t, j) == View(w, t, j) {
      assert w.spaces[t][j].used ==> IsPage(w, t, j);
    }
  }

  lemma ExtendedShows(w: World, e: seq<seq<Page>>, s: nat, writable: bool)
    requires Inv(w) && Shows(w, e) && s < |w.spaces| && Extended(w, s, writable).Some?
    ensures Inv(Extended(w, s, writable).value)
    ensures Shows(Extended(w, s, writable).value, EagerGrow(e, s, writable))
  {
    ExtendedKeeps(w, s, writable);
    hide Inv, Extended, View;
    var w', e', n := Extended(w, s, writable).value, EagerGrow(e, s, writable), |w.spaces[s]|;
    forall t, j | 0 <= t < |e'| && 0 <= j < |e'[t]| ensures View(w', t, j) == e'[t][j] {
      if !(t == s && j == n) { assert View(w, t, j) == e[t][j]; }
    }
  }

  lemma OpenShows(w: World, e: seq<seq<Page>>)
    requires Inv(w) && Shows(w, e)
    ensures Inv(Opened(w)) && Shows(Opened(w), e + [[]])
  {
    NewSpaceKeeps(w);
    hide Inv;
    forall t, j | 0 <= t < |e| && 0 <= j < |e[t]| ensures View(Opened(w), t, j) == e[t][j] {
      assert View(w, t, j) == e[t][j];
    }
  }

  /** A new space without pages. */
  function Opened(w: World): World { w.(spaces := w.spaces + [[]]) }

  /** Open and Grow are vspaceinit and one page of vregionaddmap. */
  datatype Op =
    | Fork(s: nat)
    | Write(s: nat, i: nat, k: nat, x: nat)
    | Exit(s: nat)
    | Open
    | Grow(s: nat, writable: bool)

  function Step(w: World, op: Op): Option<World>
    requires w.ph.Valid()
  {
    match op
    case Fork(s) => Some(if s < |w.spaces| then CowCopy(w, s) else w)
    case Write(s, i, k, x) =>
      if s < |w.spaces| && i < |w.spaces[s]| && k < ENTRIES then Store(w, s, i, k, x) else Some(w)
    case Exit(s) => Some(if s < |w.spaces| then Exited(w, s, 0) else w)
    case Open => Some(Opened(w))
    case Grow(s, writable) => if s < |w.spaces| then Extended(w, s, writable) else Some(w)
  }

  function EagerStep(e: seq<seq<Page>>, op: Op): seq<seq<Page>>
  {
    match op
    case Fork(s) => if s < |e| then EagerCopy(e, s) else e
    case Write(s, i, k, x) => if s < |e| && i < |e[s]| && k < ENTRIES then EagerStore(e, s, i, k, x) else e
    case Exit(s) => if s < |e| then EagerExit(e, s, 0) else e
    case Open => e + [[]]
    case Grow(s, writable) => if s < |e| then EagerGrow(e, s, writable) else e
  }

  function EagerRun(e: seq<seq<Page>>, ops: seq<Op>): seq<seq<Page>>
    decreases |ops|
  {
    if ops == [] then e else EagerRun(EagerStep(e, ops[0]), ops[1..])
  }

  ghost predicate AllWritable(w: World) { forall s :: 0 <= s < |w.spaces| ==> NoReadOnly(w.spaces[s]) }

  /** `w'` is reached from `w` by the operations, none of which ran out of memory. */
  ghost predicate Runs(w: World, ops: seq<Op>, w': World)
    decreases |ops|
  {
    if ops == [] then w' == w
    else w.ph.Valid() && Step(w, ops[0]).Some? && Runs(Step(w, ops[0]).value, ops[1..], w')
  }

  lemma StepShows(w: World, e: seq<seq<Page>>, op: Op)
    requires Inv(w) && AllWritable(w) && Shows(w, e) && Step(w, op).Some? && !MakesReadOnly(op)
    ensures Inv(Step(w, op).value) && AllWritable(Step(w, op).value) && Shows(Step(w, op).value, EagerStep(e, op))
  {
    InvValid(w);
    assert |e| == |w.spaces|;
    hide Inv, Shows, Store, Fault, View, Total, CowCopy, Extended, Exited, EagerCopy, EagerStore, EagerExit, EagerGrow;
    match op
    case Fork(s) =>
      if s < |w.spaces| {
        CowCopyKeeps(w, s);
        CowCopyShows(w, s, e);
        CowCopyWritable(w, s);
      }
    case Write(s, i, k, x) =>
      if s < |w.spaces| && i < |w.spaces[s]| && k < ENTRIES {
        StoreShows(w, e, s, i, k, x);
        FaultGrants(w, s, i);
        StoreKeepsDescriptors(w, s, i, k, x);
      }
    case Exit(s) =>
      if s < |w.spaces| {
        ExitShows(w, e, s, 0);
        ExitKeepsWritable(w, s, 0);
      }
    case Open => OpenShows(w, e);
    case Grow(s, writable) =>
      if s < |w.spaces| {
        ExtendedShows(w, e, s, writable);
        ExtendedWritable(w, s);
      }
  }

  lemma CowCopyWritable(w: World, s: nat)
    requires s < |w.spaces| && AllWritable(w)
    ensures AllWritable(CowCopy(w, s))
  {
    hide IncRefs;
  }

  lemma ExtendedWritable(w: World, s: nat)
    requires w.ph.Valid() && s < |w.spaces| && AllWritable(w) && Extended(w, s, true).Some?
    ensures AllWritable(Extended(w, s, true).value)
  {
  }

  predicate MakesReadOnly(op: Op) { op.Grow? && !op.writable }

  lemma StoreKeepsDescriptors(w: World, s: nat, i: nat, k: nat, x: nat)
    requires w.ph.Valid() && s < |w.spaces| && i < |w.spaces[s]| && k < ENTRIES && Store(w, s, i, k, x).Some?
    ensures Fault(w, s, i).Some? && Store(w, s, i, k, x).value.spaces == Fault(w, s, i).value.spaces
  {
  }

  lemma {:induction false} ExitKeepsWritable(w: World, s: nat, i: nat)
    requires Inv(w) && AllWritable(w) && s < |w.spaces|
    ensures AllWritable(Exited(w, s, i))
    decreases |w.spaces[s]| - i
  {
    if i < |w.spaces[s]| {
      DropKeeps(w, s, i);
      hide Inv;
      ExitKeepsWritable(Drop(w, s, i), s, i + 1);
    }
  }

  /** Without read-only pages copy-on-write is indistinguishable from eager copying: over any
      sequence of forks, stores, exits, new spaces and new writable pages every process reads, and
      may write, what it would with eager copies. */
  lemma {:induction false} CowRunsLikeEager(w: World, e: seq<seq<Page>>, ops: seq<Op>, w': World)
    requires Inv(w) && AllWritable(w) && Shows(w, e) && Runs(w, ops, w')
    requires forall k :: 0 <= k < |ops| ==> !MakesReadOnly(ops[k])
    ensures Inv(w') && AllWritable(w') && Shows(w', EagerRun(e, ops))
    decreases |ops|
  {
    hide Inv, Shows, AllWritable, Step;
    if ops != [] {
      StepShows(w, e, ops[0]);
      CowRunsLikeEager(Step(w, ops[0]).value, EagerStep(e, ops[0]), ops[1..], w');
    }
  }

  // ---- runs that may meet read-only pages

  /** What every process sees of the world. */
  ghost function Viewed(w: World): (e: seq<seq<Page>>)
    ensures Shows(w, e)
  {
    seq(|w.spaces|, s requires 0 <= s < |w.spaces| =>
      seq(|w.spaces[s]|, i requires 0 <= i < |w.spaces[s]| => View(w, s, i)))
  }

  lemma ShowsIsViewed(w: World, e: seq<seq<Page>>)
    requires Shows(w, e)
    ensures e == Viewed(w)
  {
    forall s | 0 <= s < |e| ensures e[s] == Viewed(w)[s] { }
  }

  /** The page reads the same, and may be written at least where the eager page may. */
  predicate PageReads(eager: Page, seen: Page)
  {
    match eager
    case Absent => seen == Absent
    case Page(present, mayWrite, words) =>
      seen.Page? && seen.present == present && seen.words == words && (mayWrite ==> seen.mayWrite)
  }

  ghost predicate ReadsLike(e: seq<seq<Page>>, seen: seq<seq<Page>>)
  {
    && |e| == |seen| && (forall s :: 0 <= s < |e| ==> |e[s]| == |seen[s]|)
    && forall s, i :: 0 <= s < |e| && 0 <= i < |e[s]| ==> PageReads(e[s][i], seen[s][i])
  }

  /** A process stores only to pages that it may write under eager copying. */
  predicate Legal(e: seq<seq<Page>>, op: Op)
  {
    op.Write? && op.s < |e| && op.i < |e[op.s]| && e[op.s][op.i].Page? ==> e[op.s][op.i].mayWrite
  }

  predicate LegalRun(e: seq<seq<Page>>, ops: seq<Op>)
    decreases |ops|
  {
    ops == [] || (Legal(e, ops[0]) && LegalRun(EagerStep(e, ops[0]), ops[1..]))
  }

  lemma CowCopyReads(w: World, s: nat, e: seq<seq<Page>>)
    requires Inv(w) && s < |w.spaces| && ReadsLike(e, Viewed(w))
    ensures ReadsLike(EagerCopy(e, s), Viewed(CowCopy(w, s)))
  {
    var w', e' := CowCopy(w, s), EagerCopy(e, s);
    CowPhys(w, s);
    forall t, i | 0 <= t < |e'| && 0 <= i < |e'[t]| ensures PageReads(e'[t][i], View(w', t, i)) {
      var o := Origin(w, s, t);
      assert w.spaces[o][i].used ==> IsPage(w, o, i);
      assert PageReads(e[o][i], Viewed(w)[o][i]);
    }
  }

  lemma EagerStoreReads(e: seq<seq<Page>>, seen: seq<seq<Page>>, s: nat, i: nat, k: nat, x: nat)
    requires ReadsLike(e, seen) && s < |e| && i < |e[s]| && (e[s][i].Page? ==> e[s][i].mayWrite)
    ensures ReadsLike(EagerStore(e, s, i, k, x), EagerStore(seen, s, i, k, x))
  {
    assert PageReads(e[s][i], seen[s][i]);
  }

  lemma EagerExitReads(e: seq<seq<Page>>, seen: seq<seq<Page>>, s: nat)
    requires ReadsLike(e, seen) && s < |e|
    ensures ReadsLike(EagerExit(e, s, 0), EagerExit(seen, s, 0))
  {
  }

  lemma StepReads(w: World, e: seq<seq<Page>>, op: Op)
    requires Inv(w) && ReadsLike(e, Viewed(w)) && Legal(e, op) && Step(w, op).Some?
    ensures Inv(Step(w, op).value) && ReadsLike(EagerStep(e, op), Viewed(Step(w, op).value))
  {
    hide Inv, ReadsLike, Shows, CowCopy, Exited, Store, EagerStore, EagerExit, Extended, EagerGrow;
    InvValid(w);
    var w' := Step(w, op).value;
    SizesAgree(w, e);
    match op
    case Fork(s) =>
      if s < |w.spaces| {
        CowCopyKeeps(w, s);
        CowCopyReads(w, s, e);
      }
    case Write(s, i, k, x) =>
      if s < |w.spaces| && i < |w.spaces[s]| && k < ENTRIES {
        StoreShows(w, Viewed(w), s, i, k, x);
        ShowsIsViewed(w', EagerStore(Viewed(w), s, i, k, x));
        EagerStoreReads(e, Viewed(w), s, i, k, x);
      }
    case Exit(s) =>
      if s < |w.spaces| {
        ExitShows(w, Viewed(w), s, 0);
        ShowsIsViewed(w', EagerExit(Viewed(w), s, 0));
        EagerExitReads(e, Viewed(w), s);
      }
    case Open =>
      OpenShows(w, Viewed(w));
      ShowsIsViewed(w', Viewed(w) + [[]]);
      EagerOpenReads(e, Viewed(w));
    case Grow(s, writable) =>
      if s < |w.spaces| {
        ExtendedShows(w, Viewed(w), s, writable);
        ShowsIsViewed(w', EagerGrow(Viewed(w), s, writable));
        EagerGrowReads(e, Viewed(w), s, writable);
      }
  }

  lemma EagerOpenReads(e: seq<seq<Page>>, seen: seq<seq<Page>>)
    requires ReadsLike(e, seen)
    ensures ReadsLike(e + [[]], seen + [[]])
  {
  }

  lemma EagerGrowReads(e: seq<seq<Page>>, seen: seq<seq<Page>>, s: nat, writable: bool)
    requires ReadsLike(e, seen) && s < |e|
    ensures ReadsLike(EagerGrow(e, s, writable), EagerGrow(seen, s, writable))
  {
  }

  lemma InvValid(w: World)
    requires Inv(w)
    ensures w.ph.Valid()
  {
  }

  lemma SizesAgree(w: World, e: seq<seq<Page>>)
    requires ReadsLike(e, Viewed(w))
    ensures |e| == |w.spaces| == |Viewed(w)|
    ensures forall s :: 0 <= s < |e| ==> |e[s]| == |w.spaces[s]| == |Viewed(w)[s]|
  {
  }

  /** Copy-on-write reads like eager copying from every state, read-only pages or not: over any
      sequence of forks, exits, new spaces, new pages and stores to pages that were writable, every
      page of every process holds what it would hold with eager copies, no process loses a permission, and every frame's
      reference count stays the number of descriptors naming it. */
  lemma {:induction false} CowRunsReadLikeEager(w: World, e: seq<seq<Page>>, ops: seq<Op>, w': World)
    requires Inv(w) && ReadsLike(e, Viewed(w)) && LegalRun(e, ops) && Runs(w, ops, w')
    ensures Inv(w') && ReadsLike(EagerRun(e, ops), Viewed(w'))
    decreases |ops|
  {
    hide Inv, ReadsLike, Step, Legal;
    if ops != [] {
      StepReads(w, e, ops[0]);
      CowRunsReadLikeEager(Step(w, ops[0]).value, EagerStep(e, ops[0]), ops[1..], w');
    }
  }

  /** A machine whose free frames lie above the kernel, before there is any space. */
  lemma NothingInv(ph: Phys)
    requires ph.Valid() && FreeAboveKernel(ph)
    ensures Inv(World(ph, [])) && ReadsLike([], Viewed(World(ph, [])))
  {
  }

  /** So every world that is built from nothing by the operations keeps counts and contents. */
  lemma BuiltFromNothing(ph: Phys, ops: seq<Op>, w: World)
    requires ph.Valid() && FreeAboveKernel(ph) && LegalRun([], ops) && Runs(World(ph, []), ops, w)
    ensures Inv(w) && ReadsLike(EagerRun([], ops), Viewed(w))
  {
    NothingInv(ph);
    CowRunsReadLikeEager(World(ph, []), [], ops, w);
  }

  /** A space of one page, its copy, and a store by the copy: two free frames are enough, and the
      two processes then see different pages. */
  lemma SmallRun(ph: Phys, f: nat, g: nat) returns (w: World)
    requires ph.Valid() && FreeAboveKernel(ph) && f < |ph.core| && g < |ph.core| && f != g
    requires ph.core[f].available && ph.core[g].available
    ensures Runs(World(ph, []), [Open, Grow(0, true), Fork(0), Write(1, 0, 0, 9)], w) && Inv(w)
    ensures Shows(w, [[Page(true, true, Filled(0))], [Page(true, true, Filled(0)[0 := 9])]])
  {
    NothingInv(ph);
    var w0, zero := World(ph, []), Page(true, true, Filled(0));
    EagerSmall(zero);
    hide EagerStep;
    var w1 := Opened(w0);
    assert Shows(w0, []) && AllWritable(w0);
    StepShows(w0, [], Open);
    var w2, w3, x := Forked(w1, f, g);
    w := Store(w3, 1, 0, 0, 9).value;
    hide Inv, AllWritable, Shows, Store, Extended, CowCopy;
    StepShows(w1, [[]], Grow(0, true));
    StepShows(w2, [[zero]], Fork(0));
    StepShows(w3, [[zero], [zero]], Write(1, 0, 0, 9));
    InvValid(w1);
    InvValid(w2);
    InvValid(w3);
    FourSteps(w0, w1, w2, w3, w, Open, Grow(0, true), Fork(0), Write(1, 0, 0, 9));
  }

  lemma Forked(w1: World, f: nat, g: nat) returns (w2: World, w3: World, x: nat)
    requires Inv(w1) && w1.spaces == [[]] && f < |w1.ph.core| && g < |w1.ph.core| && f != g
    requires w1.ph.core[f].available && w1.ph.core[g].available
    ensures Extended(w1, 0, true) == Some(w2) && |w2.spaces| == 1 && w3 == CowCopy(w2, 0) && w3.ph.Valid()
    ensures |w3.spaces| == 2 && |w3.spaces[1]| == 1 && Store(w3, 1, 0, 0, 9).Some?
  {
    InvValid(w1);
    x := if FirstAvailable(w1.ph.core, 0) == f then g else f;
    ExtendedLeaves(w1, f, x);
    hide Inv, Store, Extended;
    w2 := Extended(w1, 0, true).value;
    ExtendedKeeps(w1, 0, true);
    w3 := CowCopy(w2, 0);
    CowCopyKeeps(w2, 0);
    CowCore(w2, 0, x);
    InvValid(w3);
    StoreWorks(w3, x);
  }

  lemma ExtendedLeaves(w: World, f: nat, x: nat)
    requires w.ph.Valid() && |w.spaces| == 1 && f < |w.ph.core| && w.ph.core[f].available
    requires x < |w.ph.core| && w.ph.core[x].available && x != FirstAvailable(w.ph.core, 0)
    ensures Extended(w, 0, true).Some?
    ensures var ph := Extended(w, 0, true).value.ph; |ph.core| == |w.ph.core| && ph.core[x].available
  {
    assert FirstAvailable(w.ph.core, 0) <= f;
  }

  lemma EagerSmall(zero: Page)
    requires zero == Page(true, true, Filled(0))
    ensures EagerStep([], Open) == [[]] && EagerStep([[]], Grow(0, true)) == [[zero]]
    ensures EagerStep([[zero]], Fork(0)) == [[zero], [zero]]
    ensures EagerStep([[zero], [zero]], Write(1, 0, 0, 9)) == [[zero], [Page(true, true, Filled(0)[0 := 9])]]
  {
    var none: seq<seq<Page>> := [[]];
    assert none[0] + [zero] == [zero];
    assert EagerGrow(none, 0, true)[0] == [zero];
    var two, page := [[zero], [zero]], Page(true, true, Filled(0)[0 := 9]);
    assert EagerStore(two, 1, 0, 0, 9) == two[1 := two[1][0 := page]];
    assert two[1][0 := page] == [page] && two[1 := [page]] == [[zero], [page]];
  }

  lemma StoreWorks(w: World, x: nat)
    requires Inv(w) && |w.spaces| == 2 && |w.spaces[1]| == 1 && x < |w.ph.core| && w.ph.core[x].available
    ensures Store(w, 1, 0, 0, 9).Some?
  {
    assert w.spaces[1][0].used ==> IsPage(w, 1, 0);
    assert FirstAvailable(w.ph.core, 0) <= x;
  }

  lemma {:induction false} FourSteps(w0: World, w1: World, w2: World, w3: World, w4: World, a: Op, b: Op, c: Op, d: Op)
    requires w0.ph.Valid() && Step(w0, a) == Some(w1) && w1.ph.Valid() && Step(w1, b) == Some(w2)
    requires w2.ph.Valid() && Step(w2, c) == Some(w3) && w3.ph.Valid() && Step(w3, d) == Some(w4)
    ensures Runs(w0, [a, b, c, d], w4)
  {
    hide Step;
    assert [a, b, c, d][1..] == [b, c, d] && [b, c, d][1..] == [c, d] && [c, d][1..] == [d] && [d][1..] == [];
    assert Runs(w4, [], w4);
    assert Runs(w3, [d], w4);
    assert Runs(w2, [c, d], w4);
    assert Runs(w1, [b, c, d], w4);
  }

  // ---- the eager copy itself

  /** One descriptor of vspacecopy: the last space, being built, gets a private copy of the
      page; None when no frame is left. */
  function CopiedPage(w: World, v: Vpi): Option<World>
    requires w.ph.Valid() && w.spaces != []
  {
    var n := |w.spaces| - 1;
    var f := FirstAvailable(w.ph.core, 0);
    if !v.used then Some(w.(spaces := w.spaces[n := w.spaces[n] + [EMPTY_VPI]]))
    else if f == |w.ph.core| || v.ppn >= |w.ph.mem| then None
    else
      var ph1 := Allocated(w.ph);
      Some(World(ph1.(mem := ph1.mem[f := ph1.mem[v.ppn]]),
                 w.spaces[n := w.spaces[n] + [Vpi(true, f, v.present, v.writable, false)]]))
  }

  ghost predicate Copies(w: World, src: seq<Vpi>, w': World)
    decreases |src|
  {
    if src == [] then w' == w
    else
      && w.ph.Valid() && w.spaces != [] && CopiedPage(w, src[0]).Some?
      && Copies(CopiedPage(w, src[0]).value, src[1..], w')
  }

  lemma CountAppend(space: seq<Vpi>, v: Vpi, f: nat)
    ensures Count(space + [v], f) == Count(space, f) + Names(v, f)
  {
    assert (space + [v])[..|space|] == space;
  }

  /** Copying one page keeps the invariant and every other view, and the copy reads like
      its source. */
  lemma CopiedPageKeeps(w: World, s: int, i: int)
    requires Inv(w) && 0 <= s < |w.spaces| - 1 && 0 <= i < |w.spaces[s]| && CopiedPage(w, w.spaces[s][i]).Some?
    ensures var w', n := CopiedPage(w, w.spaces[s][i]).value, |w.spaces| - 1;
      && Inv(w') && |w'.spaces| == |w.spaces| && w'.spaces[..n] == w.spaces[..n] && |w'.spaces[n]| == |w.spaces[n]| + 1
      && (forall t, j :: 0 <= t < |w.spaces| && 0 <= j < |w.spaces[t]| ==> View(w', t, j) == View(w, t, j))
      && View(w', n, |w.spaces[n]|) == NoCow(w.spaces[s][i], View(w, s, i))
  {
    var v, w', n := w.spaces[s][i], CopiedPage(w, w.spaces[s][i]).value, |w.spaces| - 1;
    var f := FirstAvailable(w.ph.core, 0);
    if v.used {
      assert IsPage(w, s, i);
      FreeUnnamed(w, f);
    }
    hide Total, Count;
    var r := w'.spaces[n][|w.spaces[n]|];
    forall g: nat ensures Total(w'.spaces, g) == Total(w.spaces, g) + Names(r, g) {
      CountAppend(w.spaces[n], r, g);
      TotalUpdate(w.spaces, n, w.spaces[n] + [r], g);
    }
    forall t, j | IsPage(w', t, j) && !(t == n && j == |w.spaces[n]|)
      ensures IsPage(w, t, j) && w'.spaces[t][j] == w.spaces[t][j]
    {
    }
    forall t, j | 0 <= t < |w.spaces| && 0 <= j < |w.spaces[t]| ensures View(w', t, j) == View(w, t, j) {
      assert w.spaces[t][j].used ==> IsPage(w, t, j);
    }
  }

  /** What vspacecopy makes of a page: it does not carry the copy-on-write mark over. */
  function NoCow(v: Vpi, page: Page): Page
  {
    match page
    case Absent => Absent
    case Page(present, mayWrite, words) => Page(present, v.writable, words)
  }

  /** vspacecopy gives the child the parent's contents on private frames, without the marks. */
  lemma {:induction false} VspaceCopyShows(w: World, s: nat, i: nat, w': World)
    requires Inv(w) && s < |w.spaces| - 1 && i <= |w.spaces[s]| && |w.spaces[|w.spaces| - 1]| == i
    requires Copies(w, w.spaces[s][i..], w')
    ensures var n := |w.spaces| - 1;
      && Inv(w') && |w'.spaces| == |w.spaces| && w'.spaces[..n] == w.spaces[..n] && |w'.spaces[n]| == |w.spaces[s]|
      && (forall t, j :: 0 <= t < |w.spaces| && 0 <= j < |w.spaces[t]| ==> View(w', t, j) == View(w, t, j))
      && forall j :: i <= j < |w.spaces[s]| ==> View(w', n, j) == NoCow(w.spaces[s][j], View(w, s, j))
    decreases |w.spaces[s]| - i
  {
    hide Inv, View, CopiedPage;
    var n := |w.spaces| - 1;
    if i < |w.spaces[s]| {
      assert w.spaces[s][i..][0] == w.spaces[s][i] && w.spaces[s][i..][1..] == w.spaces[s][i + 1..];
      CopiedPageKeeps(w, s, i);
      var w1 := CopiedPage(w, w.spaces[s][i]).value;
      assert w1.spaces[s] == w1.spaces[..n][s] == w.spaces[s];
      VspaceCopyShows(w1, s, i + 1, w');
    }
  }

  /** A used page that waits for its copy-on-write fault. */
  predicate Pending(v: Vpi) { v.used && v.cow && !v.writable }

  /** The child of vspacecopy sees what its parent sees if and only if the parent has no page
      pending a copy-on-write fault: such a page is read-only in the child. */
  lemma VspaceCopySameIff(w: World, s: nat, w': World)
    requires Inv(w) && s < |w.spaces| - 1 && w.spaces[|w.spaces| - 1] == [] && Copies(w, w.spaces[s], w')
    ensures |w'.spaces| == |w.spaces| && |w'.spaces[|w.spaces| - 1]| == |w.spaces[s]|
    ensures (forall j :: 0 <= j < |w.spaces[s]| ==> View(w', |w.spaces| - 1, j) == View(w, s, j)) <==>
            (forall j :: 0 <= j < |w.spaces[s]| ==> !Pending(w.spaces[s][j]))
  {
    hide Inv, View, Copies, NoCow, Pending;
    var n := |w.spaces| - 1;
    assert w.spaces[s][0..] == w.spaces[s];
    VspaceCopyShows(w, s, 0, w');
    forall j | 0 <= j < |w.spaces[s]| ensures View(w', n, j) == View(w, s, j) <==> !Pending(w.spaces[s][j]) {
      NoCowSame(w, s, j);
    }
  }

  lemma NoCowSame(w: World, s: nat, j: nat)
    requires Inv(w) && s < |w.spaces| && j < |w.spaces[s]|
    ensures NoCow(w.spaces[s][j], View(w, s, j)) == View(w, s, j) <==> !Pending(w.spaces[s][j])
  {
    assert w.spaces[s][j].used ==> IsPage(w, s, j);
  }

  lemma CopyRound(w0: World, src: seq<Vpi>, w: World, s: nat, i: nat, w': World)
    requires Inv(w) && s < |w.spaces| - 1 && w.spaces[s] == src && i < |src| && Copies(w0, src[..i], w)
    requires w.ph.Valid() && CopiedPage(w, src[i]) == Some(w')
    ensures Inv(w') && |w'.spaces| == |w.spaces| && w'.spaces[s] == src && Copies(w0, src[..i + 1], w')
    ensures |w'.spaces[|w.spaces| - 1]| == |w.spaces[|w.spaces| - 1]| + 1
  {
    hide Inv, Copies, CopiedPage;
    var n := |w.spaces| - 1;
    CopiedPageKeeps(w, s, i);
    assert w'.spaces[s] == w'.spaces[..n][s] == w.spaces[..n][s];
    CopiesSnoc(w0, src[..i], w, src[i], w');
    assert src[..i] + [src[i]] == src[..i + 1];
  }

  // ---- the routines in place

  class AddressSpaces {
    var spaces: seq<seq<Vpi>>

    ghost function Now(m: Machine): World
      reads this, m
    {
      World(m.State(), spaces)
    }

    /** cow_vspacecopy: the loop of cow_copy_vpi_page over the flat descriptor array. */
    method CowVspaceCopy(m: Machine, s: nat)
      requires s < |spaces| && Inv(Now(m))
      modifies this, m
      ensures Now(m) == CowCopy(old(Now(m)), s)
    {
      hide Inv, IncRefs, CowSources, CowTargets, CowHalf, FramesOk;
      ghost var src, core0, spaces0 := spaces[s], m.core, spaces;
      FramesInRange(Now(m), s);
      CowNone(core0, src);
      CowHalfNone(src);
      var dst: seq<Vpi> := [];
      var i := 0;
      while i < |spaces[s]|
        invariant |spaces| == |spaces0| && spaces == spaces0[s := spaces[s]]
        invariant 0 <= i <= |src| == |spaces[s]| && |m.core| == |core0| && CowHalf(src, spaces[s], dst, i)
        invariant m.State() == old(m.State()).(core := IncRefs(core0, src[..i]))
      {
        var srcvpi := spaces[s][i];
        CowStep(core0, src, i);
        CowHalfStep(src, spaces[s], dst, i);
        if srcvpi.used {
          var dstvpi := Vpi(srcvpi.used, srcvpi.ppn, srcvpi.present, false, true);
          m.core := m.core[dstvpi.ppn := m.core[dstvpi.ppn].(ref := m.core[dstvpi.ppn].ref + 1)];
          spaces := spaces[s := spaces[s][i := srcvpi.(writable := false, cow := true)]];
          dst := dst + [dstvpi];
        } else {
          dst := dst + [EMPTY_VPI];
        }
        i := i + 1;
      }
      assert src[..i] == src;
      CowHalfDone(src, spaces[s], dst);
      spaces := spaces + [dst];
    }

    /** The copy-on-write branch of the page-fault handler; false is its panic. */
    method PageFault(m: Machine, s: nat, i: nat) returns (ok: bool)
      requires s < |spaces| && i < |spaces[s]| && Inv(Now(m))
      modifies this, m
      ensures Fault(old(Now(m)), s, i) == if ok then Some(Now(m)) else None
    {
      hide Total, Count;
      var vpi := spaces[s][i];
      assert vpi.used ==> IsPage(Now(m), s, i);
      if vpi.used && !vpi.writable && vpi.cow {
        var mem := m.Kalloc();
        if mem.None? {
          return false;
        }
        m.mem := m.mem[mem.value := m.mem[vpi.ppn]];
        m.Kfree(vpi.ppn);
        spaces := spaces[s := spaces[s][i := vpi.(cow := false, writable := true, ppn := mem.value)]];
      }
      ok := true;
    }

    /** vspacecopy: the loop of copy_vpi_page over the flat descriptor array, filling the
        last space; false when memory runs out. */
    method VspaceCopy(m: Machine, s: nat) returns (ok: bool)
      requires s < |spaces| && Inv(Now(m))
      modifies this, m
      ensures ok ==> Copies(old(Now(m)).(spaces := old(spaces) + [[]]), old(spaces)[s], Now(m))
      ensures !ok ==> NoneAvailable(m.State())
    {
      ghost var w0, src := Now(m).(spaces := spaces + [[]]), spaces[s];
      NewSpaceKeeps(Now(m));
      spaces := spaces + [[]];
      assert src[0..] == src;
      CopiesNone(w0);
      hide Inv, Copies, CopiedPage, NoneAvailable;
      var i, n := 0, |spaces| - 1;
      while i < |spaces[s]|
        invariant 0 <= i <= |src| && |spaces| == n + 1 && s < n && spaces[s] == src && |spaces[n]| == i
        invariant Inv(Now(m)) && Copies(w0, src[..i], Now(m))
      {
        ghost var before := Now(m);
        CopyFacts(before, s, i);
        ok := CopyPage(m, spaces[s][i]);
        if !ok {
          return;
        }
        CopyRound(w0, src, before, s, i, Now(m));
        i := i + 1;
      }
      assert src[..i] == src;
      ok := true;
    }

    method CopyPage(m: Machine, v: Vpi) returns (ok: bool)
      requires m.State().Valid() && spaces != [] && (v.used ==> v.ppn < |m.mem|)
      modifies this, m
      ensures CopiedPage(old(Now(m)), v) == if ok then Some(Now(m)) else None
      ensures !ok ==> NoneAvailable(m.State())
    {
      var n := |spaces| - 1;
      var dstvpi := EMPTY_VPI;
      if v.used {
        var data := m.Kalloc();
        if data.None? {
          return false;
        }
        m.mem := m.mem[data.value := m.mem[v.ppn]];
        dstvpi := Vpi(v.used, data.value, v.present, v.writable, false);
      }
      spaces := spaces[n := spaces[n] + [dstvpi]];
      ok := true;
    }
  }

  predicate FramesOk(space: seq<Vpi>, n: nat)
  {
    forall k :: 0 <= k < |space| && space[k].used ==> space[k].ppn < n
  }

  lemma FramesInRange(w: World, s: nat)
    requires Inv(w) && s < |w.spaces|
    ensures FramesOk(w.spaces[s], |w.ph.core|)
  {
    forall k | 0 <= k < |w.spaces[s]| && w.spaces[s][k].used ensures w.spaces[s][k].ppn < |w.ph.core| {
      assert IsPage(w, s, k);
    }
  }

  /** The copy loop half way: `i` descriptors of the source marked and copied. */
  predicate CowHalf(src: seq<Vpi>, now: seq<Vpi>, dst: seq<Vpi>, i: nat)
  {
    && |now| == |src| && |dst| == i <= |src|
    && (forall k :: 0 <= k < |src| ==> now[k] == if k < i then CowSource(src[k]) else src[k])
    && forall k :: 0 <= k < i ==> dst[k] == CowTarget(src[k])
  }

  lemma CowHalfNone(src: seq<Vpi>)
    ensures CowHalf(src, src, [], 0)
  {
  }

  lemma CowHalfStep(src: seq<Vpi>, now: seq<Vpi>, dst: seq<Vpi>, i: nat)
    requires CowHalf(src, now, dst, i) && i < |src|
    ensures i < |now| && now[i] == src[i]
    ensures CowHalf(src, if src[i].used then now[i := CowSource(src[i])] else now, dst + [CowTarget(src[i])], i + 1)
  {
  }

  lemma CowHalfDone(src: seq<Vpi>, now: seq<Vpi>, dst: seq<Vpi>)
    requires CowHalf(src, now, dst, |src|)
    ensures now == CowSources(src) && dst == CowTargets(src)
  {
  }

  lemma CowNone(core: seq<CoreEntry>, src: seq<Vpi>)
    ensures IncRefs(core, src[..0]) == core
  {
  }

  lemma {:induction false} CowStep(core: seq<CoreEntry>, src: seq<Vpi>, i: nat)
    requires i < |src| && FramesOk(src, |core|)
    ensures src[i].used ==> src[i].ppn < |core|
    ensures var c := IncRefs(core, src[..i]);
      IncRefs(core, src[..i + 1])
        == if src[i].used then c[src[i].ppn := c[src[i].ppn].(ref := c[src[i].ppn].ref + 1)] else c
  {
    var t := src[..i + 1];
    assert |t| == i + 1 && t[..|t| - 1] == src[..i] && t[|t| - 1] == src[i];
    assert src[i].used ==> src[i].ppn < |core|;
  }

  lemma NewSpaceKeeps(w: World)
    requires Inv(w)
    ensures Inv(w.(spaces := w.spaces + [[]]))
  {
    var w' := w.(spaces := w.spaces + [[]]);
    forall f: nat ensures Total(w'.spaces, f) == Total(w.spaces, f) {
      TotalAppend(w.spaces, [], f);
    }
    hide Total;
    assert forall s, i :: IsPage(w', s, i) ==> IsPage(w, s, i) && w'.spaces[s][i] == w.spaces[s][i];
  }

  lemma CopiesNone(w: World)
    ensures Copies(w, [], w)
  {
  }

  lemma CopyFacts(w: World, s: nat, i: nat)
    requires Inv(w) && s < |w.spaces| && i < |w.spaces[s]|
    ensures w.ph.Valid() && (w.spaces[s][i].used ==> w.spaces[s][i].ppn < |w.ph.mem|)
  {
    assert w.spaces[s][i].used ==> IsPage(w, s, i);
  }

  lemma {:induction false} CopiesSnoc(w: World, src: seq<Vpi>, mid: World, v: Vpi, w': World)
    requires Copies(w, src, mid) && mid.ph.Valid() && mid.spaces != [] && CopiedPage(mid, v) == Some(w')
    ensures Copies(w, src + [v], w')
    decreases |src|
  {
    hide CopiedPage;
    if src == [] {
      assert src + [v] == [v];
      assert [v][1..] == [];
    } else {
      assert (src + [v])[0] == src[0] && (src + [v])[1..] == src[1..] + [v];
      CopiesSnoc(CopiedPage(w, src[0]).value, src[1..], mid, v, w');
    }
  }
}
