/** The physical page allocator (kernel/kalloc.c): a core map of reference-counted frames. */
module Kalloc {
  import opened Options
  import opened Mmu

  datatype CoreEntry = CoreEntry(available: bool, user: bool, va: nat, ref: int)

  /** Physical memory as values: the words of every frame, the core map, the two page
      counters and the first frame above the kernel image. */
  datatype Phys = Phys(mem: seq<seq<nat>>, core: seq<CoreEntry>, inUse: int, freePages: int, kend: nat)
  {
    predicate Valid() {
      && |mem| == |core| <= FRAMES
      && forall f :: 0 <= f < |mem| ==> |mem[f]| == ENTRIES
    }
  }

  /** A page whose every word is `w`: memset. */
  function Filled(w: nat): (page: seq<nat>)
    ensures |page| == ENTRIES && forall i :: 0 <= i < ENTRIES ==> page[i] == w
  {
    seq(ENTRIES, _ => w)
  }

  const JUNK: nat := 0x0202_0202_0202_0202

  /** Index of the first available frame at or after `from`, or the table's length. */
  function FirstAvailable(core: seq<CoreEntry>, from: nat): (r: nat)
    requires from <= |core|
    ensures from <= r <= |core|
    ensures r < |core| ==> core[r].available
    ensures forall f :: from <= f < r ==> !core[f].available
    decreases |core| - from
  {
    if from == |core| || core[from].available then from else FirstAvailable(core, from + 1)
  }

  ghost predicate NoneAvailable(ph: Phys) { forall f :: 0 <= f < |ph.core| ==> !ph.core[f].available }

  /** What kalloc does: the counters move whether or not a frame is found. */
  function Allocated(ph: Phys): Phys
  {
    var f := FirstAvailable(ph.core, 0);
    ph.(core := if f < |ph.core| then ph.core[f := ph.core[f].(available := false, ref := 1)] else ph.core,
        inUse := ph.inUse + 1, freePages := ph.freePages - 1)
  }

  /** What kfree does to an allocated or free frame. */
  function Freed(ph: Phys, f: nat): Phys
    requires f < |ph.core| && f < |ph.mem|
  {
    if ph.core[f].ref > 1 then
      ph.(core := ph.core[f := ph.core[f].(ref := ph.core[f].ref - 1)])
    else
      ph.(core := ph.core[f := CoreEntry(true, false, 0, 0)], mem := ph.mem[f := Filled(JUNK)],
          inUse := ph.inUse - 1, freePages := ph.freePages + 1)
  }

  /** kfree panics on a frame of the kernel image or beyond physical memory. */
  predicate Freeable(ph: Phys, f: nat) { ph.kend <= f < |ph.core| }

  function AvailableCount(core: seq<CoreEntry>): nat
  {
    if core == [] then 0
    else AvailableCount(core[..|core| - 1]) + (if core[|core| - 1].available then 1 else 0)
  }

  lemma {:induction false} AvailableCountUpdate(core: seq<CoreEntry>, f: nat, e: CoreEntry)
    requires f < |core|
    ensures AvailableCount(core[f := e]) - (if e.available then 1 else 0)
         == AvailableCount(core) - (if core[f].available then 1 else 0)
  {
    var n := |core| - 1;
    if f == n {
      assert core[f := e][..n] == core[..n];
    } else {
      assert core[f := e][..n] == core[..n][f := e];
      AvailableCountUpdate(core[..n], f, e);
    }
  }

  /** How far the free-page counter is from the truth. */
  function Slack(ph: Phys): int { ph.freePages - AvailableCount(ph.core) }

  /** The free-page counter stays exact across a kalloc that finds a frame, and across
      a kfree exactly when the frame was not already free. */
  lemma CountersExact(ph: Phys, f: nat)
    requires ph.Valid() && f < |ph.core|
    requires forall g :: 0 <= g < |ph.core| && ph.core[g].available ==> ph.core[g].ref == 0
    ensures FirstAvailable(ph.core, 0) < |ph.core| ==> Slack(Allocated(ph)) == Slack(ph)
    ensures Slack(Freed(ph, f)) == Slack(ph) <==> !ph.core[f].available
    ensures Freed(ph, f).inUse + Freed(ph, f).freePages == ph.inUse + ph.freePages
    ensures Allocated(ph).inUse + Allocated(ph).freePages == ph.inUse + ph.freePages
  {
    var g := FirstAvailable(ph.core, 0);
    if g < |ph.core| {
      AvailableCountUpdate(ph.core, g, ph.core[g].(available := false, ref := 1));
    }
    AvailableCountUpdate(ph.core, f, CoreEntry(true, false, 0, 0));
    AvailableCountUpdate(ph.core, f, ph.core[f].(ref := ph.core[f].ref - 1));
  }

  class Machine {
    var mem: seq<seq<nat>>
    var core: seq<CoreEntry>
    var inUse: int
    var freePages: int
    const kend: nat

    ghost function State(): Phys
      reads this
    {
      Phys(mem, core, inUse, freePages, kend)
    }

    method Kalloc() returns (r: Option<nat>)
      requires State().Valid()
      modifies this
      ensures State() == Allocated(old(State())) && State().Valid()
      ensures r == var f := FirstAvailable(old(core), 0); if f < |old(core)| then Some(f) else None
      ensures r.None? ==> (forall f :: 0 <= f < |core| ==> !core[f].available) && core == old(core)
      ensures r.Some? ==>
        && r.value < |old(core)| && old(core)[r.value].available
        && forall f :: 0 <= f < r.value ==> !old(core)[f].available
      ensures r.Some? ==> core == old(core)[r.value := old(core)[r.value].(available := false, ref := 1)]
      ensures mem == old(mem) && inUse == old(inUse) + 1 && freePages == old(freePages) - 1
    {
      inUse := inUse + 1;
      freePages := freePages - 1;
      var i := 0;
      while i < |core|
        invariant 0 <= i <= |core|
        invariant FirstAvailable(core, 0) == FirstAvailable(core, i)
      {
        if core[i].available {
          core := core[i := core[i].(available := false)];
          core := core[i := core[i].(ref := 1)];
          return Some(i);
        }
        i := i + 1;
      }
      r := None;
    }

    method Kfree(f: nat)
      requires State().Valid() && Freeable(State(), f)
      modifies this
      ensures State() == Freed(old(State()), f) && State().Valid()
      ensures forall g :: 0 <= g < |core| && g != f ==> core[g] == old(core)[g] && mem[g] == old(mem)[g]
      ensures old(core)[f].ref > 1 ==>
        core[f] == old(core)[f].(ref := old(core)[f].ref - 1) && mem == old(mem) && freePages == old(freePages)
      ensures old(core)[f].ref <= 1 ==>
        && core[f].available && core[f].ref == 0 && freePages == old(freePages) + 1
        && forall k :: 0 <= k < ENTRIES ==> mem[f][k] == 0x0202_0202_0202_0202
    {
      if core[f].ref > 1 {
        core := core[f := core[f].(ref := core[f].ref - 1)];
        return;
      }
      inUse := inUse - 1;
      freePages := freePages + 1;
      mem := mem[f := Filled(JUNK)];
      core := core[f := CoreEntry(true, false, 0, 0)];
    }
  }
}
