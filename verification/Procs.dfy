/** The process table of kernel/proc.c: the loops over the table under ptable.lock, and every run
    of fork, exit, wait, kill, sleep and wakeup. */
module Procs {
  import opened Options

  const NPROC: nat := 64

  datatype PState = UNUSED | EMBRYO | SLEEPING | RUNNABLE | RUNNING | ZOMBIE

  /** wait sleeps on the address of the caller's own slot; other sleeps use other addresses. */
  datatype Chan = Slot(i: nat) | Event(n: nat)

  /** A parent pointer is the index of the parent's slot. */
  datatype Proc = Proc(state: PState, pid: nat, parent: Option<nat>, chan: Option<Chan>, killed: bool)

  predicate Alive(p: Proc) { p.state in {SLEEPING, RUNNABLE, RUNNING} }

  // ---- what the loops compute

  function FirstUnused(ps: seq<Proc>, from: nat): (k: nat)
    requires from <= |ps|
    ensures from <= k <= |ps| && (k < |ps| ==> ps[k].state == UNUSED)
    ensures forall j :: from <= j < k ==> ps[j].state != UNUSED
    decreases |ps| - from
  {
    if from == |ps| || ps[from].state == UNUSED then from else FirstUnused(ps, from + 1)
  }

  function WokenOne(p: Proc, chan: Chan): Proc
  {
    if p.state == SLEEPING && p.chan == Some(chan) then p.(state := RUNNABLE) else p
  }

  function Woken(ps: seq<Proc>, chan: Chan): (r: seq<Proc>)
    ensures |r| == |ps| && forall i :: 0 <= i < |ps| ==> r[i] == WokenOne(ps[i], chan)
  {
    seq(|ps|, i requires 0 <= i < |ps| => WokenOne(ps[i], chan))
  }

  predicate ZombieChild(p: Proc, me: nat) { p.parent == Some(me) && p.state == ZOMBIE }
  predicate HasZombie(ps: seq<Proc>, me: nat) { exists j :: 0 <= j < |ps| && ZombieChild(ps[j], me) }
  predicate HasChild(ps: seq<Proc>, me: nat) { exists j :: 0 <= j < |ps| && ps[j].parent == Some(me) }

  /** The table after exit: the parent is woken, children go to init, init is woken if one of them
      is already a zombie, and the caller is a zombie. */
  function ExitedOne(ps: seq<Proc>, me: nat, init: nat, i: nat): Proc
    requires me < |ps| && i < |ps|
  {
    var w := if ps[me].parent.Some? then WokenOne(ps[i], Slot(ps[me].parent.value)) else ps[i];
    var r := if ps[i].parent == Some(me) then w.(parent := Some(init)) else w;
    var z := if HasZombie(ps, me) then WokenOne(r, Slot(init)) else r;
    if i == me then z.(state := ZOMBIE) else z
  }

  function Exited(ps: seq<Proc>, me: nat, init: nat): (r: seq<Proc>)
    requires me < |ps|
    ensures |r| == |ps| && forall i :: 0 <= i < |ps| ==> r[i] == ExitedOne(ps, me, init, i)
  {
    seq(|ps|, i requires 0 <= i < |ps| => ExitedOne(ps, me, init, i))
  }

  /** Slot `j` after the exit of `me` is `q`: the caller is a zombie, its children are init's, and of
      the others only sleepers change state, those that exit wakes. */
  predicate ExitLaw(ps: seq<Proc>, me: nat, init: nat, j: nat, q: Proc)
    requires me < |ps| && j < |ps|
  {
    && q.pid == ps[j].pid && q.chan == ps[j].chan && q.killed == ps[j].killed
    && q.parent == (if ps[j].parent == Some(me) then Some(init) else ps[j].parent)
    && q.state == (if j == me then ZOMBIE
                   else if ps[j].state == SLEEPING && ExitWakes(ps, me, init, ps[j].chan) then RUNNABLE
                   else ps[j].state)
  }

  lemma ExitedByLaw(ps: seq<Proc>, me: nat, init: nat, j: nat)
    requires me < |ps| && j < |ps|
    ensures ExitLaw(ps, me, init, j, ExitedOne(ps, me, init, j))
  {
    assert HasZombie(ps, me) <==> exists k :: 0 <= k < |ps| && ps[k].parent == Some(me) && ps[k].state == ZOMBIE;
  }

  /** The channels that exit wakes: the parent's slot, and init's when some child is a zombie. */
  predicate ExitWakes(ps: seq<Proc>, me: nat, init: nat, chan: Option<Chan>)
    requires me < |ps|
  {
    || (ps[me].parent.Some? && chan == Some(Slot(ps[me].parent.value)))
    || (chan == Some(Slot(init)) && exists j :: 0 <= j < |ps| && ps[j].parent == Some(me) && ps[j].state == ZOMBIE)
  }

  function FirstZombie(ps: seq<Proc>, me: nat, from: nat): (k: nat)
    requires from <= |ps|
    ensures from <= k <= |ps| && (k < |ps| ==> ZombieChild(ps[k], me))
    ensures forall j :: from <= j < k ==> !ZombieChild(ps[j], me)
    decreases |ps| - from
  {
    if from == |ps| || ZombieChild(ps[from], me) then from else FirstZombie(ps, me, from + 1)
  }

  /** Slot `k` is the first that holds a zombie child of `me`. */
  predicate OldestZombie(ps: seq<Proc>, me: nat, k: nat)
  {
    && k < |ps| && ps[k].parent == Some(me) && ps[k].state == ZOMBIE
    && forall j :: 0 <= j < k ==> !(ps[j].parent == Some(me) && ps[j].state == ZOMBIE)
  }

  function ReapedSlot(p: Proc): Proc { p.(state := UNUSED, pid := 0, parent := None, killed := false) }

  function FirstPid(ps: seq<Proc>, pid: nat, from: nat): (k: nat)
    requires from <= |ps|
    ensures from <= k <= |ps| && (k < |ps| ==> ps[k].pid == pid)
    ensures forall j :: from <= j < k ==> ps[j].pid != pid
    decreases |ps| - from
  {
    if from == |ps| || ps[from].pid == pid then from else FirstPid(ps, pid, from + 1)
  }

  /** Slot `k` is the first with the pid. */
  predicate HeldFirst(ps: seq<Proc>, pid: nat, k: nat)
  {
    k < |ps| && ps[k].pid == pid && forall j :: 0 <= j < k ==> ps[j].pid != pid
  }

  function KilledSlot(p: Proc): Proc
  {
    p.(killed := true, state := if p.state == SLEEPING then RUNNABLE else p.state)
  }

  // ---- the loops

  datatype WaitResult = Reaped(pid: nat) | NoChild | Sleep

  class ProcTable {
    const proc: array<Proc>
    var nextpid: nat

    ghost predicate Valid()
      reads this, proc
    {
      proc.Length == NPROC
    }

    method AllocProc() returns (k: nat)
      requires Valid()
      modifies this`nextpid, proc
      ensures k == FirstUnused(old(proc[..]), 0)
      ensures k < NPROC ==>
        && proc[..] == old(proc[..])[k := old(proc[k]).(state := EMBRYO, pid := old(nextpid))]
        && nextpid == old(nextpid) + 1
      ensures k == NPROC ==> proc[..] == old(proc[..]) && nextpid == old(nextpid)
    {
      k := 0;
      while k < NPROC
        invariant 0 <= k <= NPROC && FirstUnused(proc[..], 0) == FirstUnused(proc[..], k)
        invariant proc[..] == old(proc[..]) && nextpid == old(nextpid)
      {
        if proc[k].state == UNUSED {
          proc[k] := proc[k].(state := EMBRYO, pid := nextpid);
          nextpid := nextpid + 1;
          return;
        }
        k := k + 1;
      }
    }

    method Wakeup1(chan: Chan)
      requires Valid()
      modifies proc
      ensures proc[..] == Woken(old(proc[..]), chan)
      // Nobody sleeps on the channel any more, who did is runnable and otherwise the same, and
      // nobody else is touched.
      ensures forall j :: 0 <= j < NPROC ==> !(proc[j].state == SLEEPING && proc[j].chan == Some(chan))
      ensures forall j :: 0 <= j < NPROC && old(proc[j]).state == SLEEPING && old(proc[j]).chan == Some(chan) ==>
        proc[j] == old(proc[j]).(state := RUNNABLE)
      ensures forall j :: 0 <= j < NPROC && !(old(proc[j]).state == SLEEPING && old(proc[j]).chan == Some(chan)) ==>
        proc[j] == old(proc[j])
    {
      var i := 0;
      while i < NPROC
        invariant 0 <= i <= NPROC
        invariant forall j :: 0 <= j < NPROC ==> proc[j] == if j < i then WokenOne(old(proc[j]), chan) else old(proc[j])
      {
        if proc[i].state == SLEEPING && proc[i].chan == Some(chan) {
          proc[i] := proc[i].(state := RUNNABLE);
        }
        i := i + 1;
      }
    }

    /** exit, from the wakeup of the parent to the caller becoming a zombie. */
    method Exit(me: nat, init: nat)
      requires Valid() && me < NPROC && init < NPROC && proc[me].parent.Some?
      modifies proc
      ensures proc[..] == Exited(old(proc[..]), me, init)
      ensures forall j :: 0 <= j < NPROC ==> ExitLaw(old(proc[..]), me, init, j, proc[j])
    {
      ghost var ps := proc[..];
      Wakeup1(Slot(proc[me].parent.value));
      ghost var w := proc[..];
      var i := 0;
      ghost var seen := false;
      while i < NPROC
        invariant 0 <= i <= NPROC && proc.Length == NPROC
        invariant seen <==> exists j :: 0 <= j < i && ZombieChild(ps[j], me)
        invariant forall j :: 0 <= j < NPROC ==> proc[j] == Adopted(w[j], me, init, j < i, seen)
      {
        if proc[i].parent == Some(me) {
          proc[i] := proc[i].(parent := Some(init));
          if proc[i].state == ZOMBIE {
            assert ZombieChild(ps[i], me);
            seen := true;
            Wakeup1(Slot(init));
          }
        }
        i := i + 1;
      }
      proc[me] := proc[me].(state := ZOMBIE);
      assert seen <==> HasZombie(ps, me);
      assert proc[..] == Exited(ps, me, init);
      hide Exited, ExitedOne, ExitWakes, HasZombie, WokenOne, Adopted;
      forall j | 0 <= j < NPROC ensures ExitLaw(ps, me, init, j, proc[j]) {
        assert proc[j] == proc[..][j] == ExitedOne(ps, me, init, j);
        ExitedByLaw(ps, me, init, j);
      }
    }

    /** One scan of wait under ptable.lock: reap the first zombie child, or fail, or go to sleep. */
    method WaitScan(me: nat) returns (r: WaitResult)
      requires Valid() && me < NPROC
      modifies proc
      ensures var ps := old(proc[..]); var k := FirstZombie(ps, me, 0);
        && (k < NPROC ==> r == Reaped(ps[k].pid) && proc[..] == ps[k := ReapedSlot(ps[k])])
        && (k == NPROC && (!HasChild(ps, me) || ps[me].killed) ==> r == NoChild && proc[..] == ps)
        && (k == NPROC && HasChild(ps, me) && !ps[me].killed ==>
              r == Sleep && proc[..] == ps[me := ps[me].(chan := Some(Slot(me)), state := SLEEPING)])
      // A reaped slot is free, without pid, parent and mark; the pid returned is that of the first
      // zombie child, and no other slot changes.
      ensures forall k :: 0 <= k < NPROC && OldestZombie(old(proc[..]), me, k) ==>
        && r == Reaped(old(proc[k]).pid) && (forall j :: 0 <= j < NPROC && j != k ==> proc[j] == old(proc[j]))
        && proc[k] == Proc(UNUSED, 0, None, old(proc[k]).chan, false)
    {
      var havekids := false;
      var i := 0;
      while i < NPROC
        invariant 0 <= i <= NPROC && proc[..] == old(proc[..])
        invariant FirstZombie(proc[..], me, 0) == FirstZombie(proc[..], me, i)
        invariant havekids <==> exists j :: 0 <= j < i && proc[..][j].parent == Some(me)
      {
        if proc[i].parent == Some(me) {
          havekids := true;
          assert proc[..][i].parent == Some(me);
          if proc[i].state == ZOMBIE {
            r := Reaped(proc[i].pid);
            proc[i] := proc[i].(pid := 0, parent := None, killed := false, state := UNUSED);
            return;
          }
        }
        i := i + 1;
      }
      if !havekids || proc[me].killed { return NoChild; }
      proc[me] := proc[me].(chan := Some(Slot(me)), state := SLEEPING);
      return Sleep;
    }

    method Kill(pid: nat) returns (ok: bool)
      requires Valid()
      modifies proc
      ensures var ps := old(proc[..]); var k := FirstPid(ps, pid, 0);
        && ok == (k < NPROC)
        && proc[..] == if k < NPROC then ps[k := KilledSlot(ps[k])] else ps
      // The first slot with the pid is marked, and woken if it slept; nothing else changes.
      ensures forall k :: 0 <= k < NPROC && HeldFirst(old(proc[..]), pid, k) ==>
        && ok && (forall j :: 0 <= j < NPROC && j != k ==> proc[j] == old(proc[j]))
        && proc[k].killed && proc[k].pid == pid && proc[k].parent == old(proc[k]).parent
        && proc[k].chan == old(proc[k]).chan
        && proc[k].state == if old(proc[k]).state == SLEEPING then RUNNABLE else old(proc[k]).state
      ensures (forall j :: 0 <= j < NPROC ==> old(proc[j]).pid != pid) ==> !ok && proc[..] == old(proc[..])
    {
      var i := 0;
      while i < NPROC
        invariant 0 <= i <= NPROC && proc[..] == old(proc[..])
        invariant FirstPid(proc[..], pid, 0) == FirstPid(proc[..], pid, i)
      {
        if proc[i].pid == pid {
          proc[i] := proc[i].(killed := true);
          if proc[i].state == SLEEPING { proc[i] := proc[i].(state := RUNNABLE); }
          return true;
        }
        i := i + 1;
      }
      return false;
    }
  }

  /** The adoption loop, half way: the slot has been passed or not, init has been woken or not. */
  function Adopted(p: Proc, me: nat, init: nat, passed: bool, seen: bool): Proc
  {
    var r := if passed && p.parent == Some(me) then p.(parent := Some(init)) else p;
    if seen then WokenOne(r, Slot(init)) else r
  }
}
