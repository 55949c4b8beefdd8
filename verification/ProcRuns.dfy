/** Every run of the process table of kernel/proc.c: processes step in any order, each step being
    what one process does inside one critical section of ptable.lock (or one store of fork). */
module ProcRuns {
  import opened Options
  import opened Procs

  /** Where a process is: outside the calls below, inside fork with its child's slot, or inside
      the loop of wait. */
  datatype Mode = User | Forking(child: nat, linked: bool) | Waiting

  /** `exited` and `reaped` record the pids of all exits and of all successful waits. */
  datatype Sys = Sys(procs: seq<Proc>, modes: seq<Mode>, nextpid: nat, init: nat, exited: set<nat>, reaped: seq<nat>)

  datatype Action =
    | Schedule(i: nat)
    | Yield(i: nat)
    | SleepOn(i: nat, chan: Chan)
    | WakeupOn(chan: Chan)
    | ForkAlloc(i: nat)
    | ForkFail(i: nat)
    | ForkLink(i: nat)
    | ForkReady(i: nat)
    | Exit(i: nat)
    | Wait(i: nat)
    | Kill(i: nat, pid: nat)

  function Boot(): Sys
  {
    var blank := Proc(UNUSED, 0, None, None, false);
    Sys(seq(NPROC, i => if i == 0 then Proc(RUNNABLE, 1, None, None, false) else blank),
        seq(NPROC, _ => User), 2, 0, {}, [])
  }

  predicate Shape(s: Sys) { |s.procs| == NPROC && |s.modes| == NPROC && s.init < NPROC }

  function SetProc(s: Sys, i: nat, p: Proc): Sys
    requires Shape(s) && i < NPROC
  {
    s.(procs := s.procs[i := p])
  }

  function SetMode(s: Sys, i: nat, m: Mode): Sys
    requires Shape(s) && i < NPROC
  {
    s.(modes := s.modes[i := m])
  }

  /** allocproc as fork calls it: a free slot becomes an embryo, or fork fails. */
  function AllocStep(s: Sys, i: nat): Sys
    requires Shape(s) && i < NPROC
  {
    var k := FirstUnused(s.procs, 0);
    if k == NPROC then s
    else
      SetMode(SetProc(s, k, s.procs[k].(state := EMBRYO, pid := s.nextpid)), i, Forking(k, false))
        .(nextpid := s.nextpid + 1)
  }

  /** One pass of the loop of wait: reap a zombie child, or fail, or sleep on the own slot. */
  function WaitStep(s: Sys, i: nat): Sys
    requires Shape(s) && i < NPROC
  {
    var k := FirstZombie(s.procs, i, 0);
    if k < NPROC then
      SetMode(SetProc(s, k, ReapedSlot(s.procs[k])), i, User).(reaped := s.reaped + [s.procs[k].pid])
    else if !HasChild(s.procs, i) || s.procs[i].killed then SetMode(s, i, User)
    else SetMode(SetProc(s, i, s.procs[i].(chan := Some(Slot(i)), state := SLEEPING)), i, Waiting)
  }

  function KillStep(s: Sys, pid: nat): Sys
    requires Shape(s)
  {
    var k := FirstPid(s.procs, pid, 0);
    if k == NPROC then s else SetProc(s, k, KilledSlot(s.procs[k]))
  }

  function ExitStep(s: Sys, i: nat): Sys
    requires Shape(s) && i < NPROC
  {
    s.(procs := Exited(s.procs, i, s.init), exited := s.exited + {s.procs[i].pid})
  }

  predicate Running(s: Sys, i: nat)
    requires Shape(s)
  {
    i < NPROC && s.procs[i].state == RUNNING
  }

  predicate InFork(s: Sys, i: nat, linked: bool)
    requires Shape(s)
  {
    Running(s, i) && s.modes[i].Forking? && s.modes[i].linked == linked && s.modes[i].child < NPROC
  }

  /** The scheduler runs a runnable process, wakeups may come from interrupts, and every other
      step is taken by a running process; init does not exit (the kernel panics). */
  predicate Enabled(s: Sys, a: Action)
    requires Shape(s)
  {
    match a
    case Schedule(i) => i < NPROC && s.procs[i].state == RUNNABLE
    case Yield(i) => Running(s, i)
    case SleepOn(i, _) => Running(s, i) && s.modes[i] != Waiting
    case WakeupOn(_) => true
    case ForkAlloc(i) => Running(s, i) && s.modes[i] == User
    case ForkFail(i) => InFork(s, i, false)
    case ForkLink(i) => InFork(s, i, false)
    case ForkReady(i) => InFork(s, i, true)
    case Exit(i) => Running(s, i) && s.modes[i] == User && i != s.init
    case Wait(i) => Running(s, i) && !s.modes[i].Forking?
    case Kill(i, _) => Running(s, i) && s.modes[i] == User
  }

  function Step(s: Sys, a: Action): Sys
    requires Shape(s) && Enabled(s, a)
  {
    match a
    case Schedule(i) => SetProc(s, i, s.procs[i].(state := RUNNING, chan := None))
    case Yield(i) => SetProc(s, i, s.procs[i].(state := RUNNABLE))
    case SleepOn(i, c) => SetProc(s, i, s.procs[i].(state := SLEEPING, chan := Some(c)))
    case WakeupOn(c) => s.(procs := Woken(s.procs, c))
    case ForkAlloc(i) => AllocStep(s, i)
    case ForkFail(i) => ChildStep(s, i, s.procs[s.modes[i].child].(state := UNUSED), User)
    case ForkLink(i) => ChildStep(s, i, s.procs[s.modes[i].child].(parent := Some(i)), Forking(s.modes[i].child, true))
    case ForkReady(i) => ChildStep(s, i, s.procs[s.modes[i].child].(state := RUNNABLE), User)
    case Exit(i) => ExitStep(s, i)
    case Wait(i) => WaitStep(s, i)
    case Kill(i, pid) => KillStep(s, pid)
  }

  /** A step of fork: its child's slot changes and the forking process moves on. */
  function ChildStep(s: Sys, i: nat, child: Proc, m: Mode): Sys
    requires Shape(s) && i < NPROC && s.modes[i].Forking? && s.modes[i].child < NPROC
  {
    SetMode(SetProc(s, s.modes[i].child, child), i, m)
  }

  // ---- the invariant

  /** Parents are alive; only init, free slots and new embryos have none. */
  predicate ParentOk(s: Sys, i: nat)
    requires Shape(s) && i < NPROC
  {
    var p := s.procs[i];
    && (p.state == UNUSED || i == s.init ==> p.parent.None?)
    && (p.parent.Some? ==> p.parent.value < NPROC && p.parent.value != i && Alive(s.procs[p.parent.value]))
    && (i != s.init && (Alive(p) || p.state == ZOMBIE) ==> p.parent.Some?)
    && (p.state == EMBRYO && p.parent.Some? ==> s.modes[p.parent.value] == Forking(i, true))
  }

  /** A fork in progress owns an embryo. */
  predicate ForkOk(s: Sys, i: nat)
    requires Shape(s) && i < NPROC
  {
    var m := s.modes[i];
    && (m != User ==> Alive(s.procs[i]))
    && (m.Forking? ==> m.child < NPROC && s.procs[m.child].state == EMBRYO
                       && s.procs[m.child].parent == if m.linked then Some(i) else None)
  }

  /** A process asleep in wait sleeps on its own slot and has no zombie child. */
  predicate WaitOk(s: Sys, i: nat)
    requires Shape(s) && i < NPROC
  {
    s.procs[i].state == SLEEPING && s.modes[i] == Waiting ==> s.procs[i].chan == Some(Slot(i)) && !HasZombie(s.procs, i)
  }

  predicate SlotOk(s: Sys, i: nat)
    requires Shape(s) && i < NPROC
  {
    ParentOk(s, i) && ForkOk(s, i) && WaitOk(s, i)
  }

  /** No slot is being filled by two forks. */
  ghost predicate ForksApart(s: Sys)
    requires Shape(s)
  {
    forall i, j :: 0 <= i < j < NPROC && s.modes[i].Forking? && s.modes[j].Forking?
      ==> s.modes[i].child != s.modes[j].child
  }

  ghost predicate Tree(s: Sys)
  {
    && Shape(s) && Alive(s.procs[s.init]) && ForksApart(s)
    && forall i :: 0 <= i < NPROC ==> SlotOk(s, i)
  }

  /** Nonzero pids are distinct and below nextpid; every slot in use has one. */
  ghost predicate Pids(s: Sys)
  {
    && Shape(s) && s.nextpid > 0
    && (forall i :: 0 <= i < NPROC ==>
       s.procs[i].pid < s.nextpid && (s.procs[i].state != UNUSED ==> s.procs[i].pid > 0))
    && (forall i, j :: 0 <= i < j < NPROC && s.procs[i].pid == s.procs[j].pid ==> s.procs[i].pid == 0)
  }

  ghost predicate IsZombie(s: Sys, pid: nat)
  {
    exists i :: 0 <= i < |s.procs| && s.procs[i].state == ZOMBIE && s.procs[i].pid == pid
  }

  /** Each exited process is a zombie or has been reaped, not both, and was reaped once. */
  ghost predicate History(s: Sys)
  {
    && Shape(s)
    && (forall x, y :: 0 <= x < y < |s.reaped| ==> s.reaped[x] != s.reaped[y])
    && (forall r :: r in s.reaped ==> 0 < r < s.nextpid && forall i :: 0 <= i < NPROC ==> s.procs[i].pid != r)
    && (forall e :: e in s.exited <==> IsZombie(s, e) || e in s.reaped)
  }

  ghost predicate Inv(s: Sys) { Shape(s) && Tree(s) && Pids(s) && History(s) }

  lemma BootInv()
    ensures Inv(Boot()) && forall i :: 0 <= i < NPROC ==> !Boot().procs[i].killed
  {
  }

  // ---- steps that only put processes to sleep, wake, mark or run them

  predicate Restated(p: Proc, q: Proc, m: Mode)
  {
    && q.pid == p.pid && q.parent == p.parent
    && (q.state == p.state || (Alive(p) && Alive(q)))
    && (q.state == SLEEPING && m == Waiting ==> p.state == SLEEPING && q.chan == p.chan)
  }

  ghost predicate AllRestated(s: Sys, s': Sys)
    requires Shape(s)
  {
    && |s'.procs| == NPROC && s' == s.(procs := s'.procs)
    && forall i :: 0 <= i < NPROC ==> Restated(s.procs[i], s'.procs[i], s.modes[i])
  }

  lemma RestatedTree(s: Sys, s': Sys)
    requires Tree(s) && AllRestated(s, s')
    ensures Tree(s')
  {
    forall i | 0 <= i < NPROC ensures SlotOk(s', i) {
      assert SlotOk(s, i) && Restated(s.procs[i], s'.procs[i], s.modes[i]);
      if !HasZombie(s.procs, i) { RestatedZombies(s, s', i); }
      var p, m := s.procs[i], s.modes[i];
      if p.parent.Some? { assert Restated(s.procs[p.parent.value], s'.procs[p.parent.value], s.modes[p.parent.value]); }
      if m.Forking? { assert Restated(s.procs[m.child], s'.procs[m.child], s.modes[m.child]); }
    }
    assert Restated(s.procs[s.init], s'.procs[s.init], s.modes[s.init]);
  }

  lemma RestatedZombies(s: Sys, s': Sys, i: nat)
    requires Shape(s) && AllRestated(s, s') && !HasZombie(s.procs, i)
    ensures !HasZombie(s'.procs, i)
  {
    forall j | 0 <= j < NPROC ensures !ZombieChild(s'.procs[j], i) {
      assert Restated(s.procs[j], s'.procs[j], s.modes[j]) && !ZombieChild(s.procs[j], i);
    }
  }

  lemma RestatedRest(s: Sys, s': Sys)
    requires Inv(s) && AllRestated(s, s')
    ensures Pids(s') && History(s')
  {
    hide Tree;
    forall i | 0 <= i < NPROC
      ensures s'.procs[i].pid == s.procs[i].pid && (s'.procs[i].state == ZOMBIE <==> s.procs[i].state == ZOMBIE)
      ensures s'.procs[i].state == UNUSED <==> s.procs[i].state == UNUSED
    {
      assert Restated(s.procs[i], s'.procs[i], s.modes[i]);
    }
    SameZombies(s, s');
  }

  lemma SameZombies(s: Sys, s': Sys)
    requires Shape(s) && Shape(s')
    requires forall i :: 0 <= i < NPROC ==>
      s'.procs[i].pid == s.procs[i].pid && (s'.procs[i].state == ZOMBIE <==> s.procs[i].state == ZOMBIE)
    ensures forall e :: IsZombie(s', e) <==> IsZombie(s, e)
  {
  }

  lemma RestatedKeeps(s: Sys, a: Action)
    requires Inv(s) && Enabled(s, a) && (a.Schedule? || a.Yield? || a.SleepOn? || a.WakeupOn? || a.Kill?)
    ensures Inv(Step(s, a))
  {
    hide Tree, Pids, History;
    assert AllRestated(s, Step(s, a));
    RestatedTree(s, Step(s, a));
    RestatedRest(s, Step(s, a));
  }

  // ---- fork

  lemma AllocSlot(s: Sys, i: nat, j: nat)
    requires Tree(s) && Running(s, i) && s.modes[i] == User && FirstUnused(s.procs, 0) < NPROC && j < NPROC
    ensures SlotOk(AllocStep(s, i), j) && (s.modes[j].Forking? ==> s.modes[j].child != FirstUnused(s.procs, 0))
  {
    hide HasZombie;
    var s', k := AllocStep(s, i), FirstUnused(s.procs, 0);
    assert SlotOk(s, k) && SlotOk(s, j);
    if !HasZombie(s.procs, j) { SlotZombies(s, s', k, j); }
  }

  lemma AllocTree(s: Sys, i: nat)
    requires Tree(s) && Running(s, i) && s.modes[i] == User
    ensures Tree(AllocStep(s, i))
  {
    hide SlotOk, FirstUnused;
    if FirstUnused(s.procs, 0) < NPROC {
      forall j | 0 <= j < NPROC
        ensures SlotOk(AllocStep(s, i), j) && (s.modes[j].Forking? ==> s.modes[j].child != FirstUnused(s.procs, 0))
      {
        AllocSlot(s, i, j);
      }
    }
  }

  /** Changing one slot to something that is no zombie makes no zombie child. */
  lemma SlotZombies(s: Sys, s': Sys, k: nat, j: nat)
    requires Shape(s) && Shape(s') && k < NPROC && s'.procs[k].state != ZOMBIE && !HasZombie(s.procs, j)
    requires forall x :: 0 <= x < NPROC && x != k ==> s'.procs[x] == s.procs[x]
    ensures !HasZombie(s'.procs, j)
  {
    forall x | 0 <= x < NPROC ensures !ZombieChild(s'.procs[x], j) { assert !ZombieChild(s.procs[x], j); }
  }

  lemma AllocRest(s: Sys, i: nat)
    requires Pids(s) && History(s) && i < NPROC
    ensures Pids(AllocStep(s, i)) && History(AllocStep(s, i))
  {
    var s', k := AllocStep(s, i), FirstUnused(s.procs, 0);
    if k < NPROC {
      forall e ensures IsZombie(s', e) <==> IsZombie(s, e) { ZombieElsewhere(s, s', k, e); }
    }
  }

  lemma ZombieElsewhere(s: Sys, s': Sys, k: nat, e: nat)
    requires Shape(s) && Shape(s') && k < NPROC && s.procs[k].state != ZOMBIE && s'.procs[k].state != ZOMBIE
    requires forall x :: 0 <= x < NPROC && x != k ==> s'.procs[x] == s.procs[x]
    ensures IsZombie(s', e) <==> IsZombie(s, e)
  {
    if IsZombie(s, e) {
      var x :| 0 <= x < |s.procs| && s.procs[x].state == ZOMBIE && s.procs[x].pid == e;
      assert s'.procs[x] == s.procs[x];
    }
  }

  /** What fork does next to its embryo. */
  predicate ForkMove(s: Sys, i: nat, child: Proc, m: Mode)
    requires Shape(s)
  {
    && Running(s, i) && s.modes[i].Forking? && s.modes[i].child < NPROC
    && var k, p := s.modes[i].child, s.procs[s.modes[i].child];
       || (!s.modes[i].linked && child == p.(state := UNUSED) && m == User)
       || (!s.modes[i].linked && child == p.(parent := Some(i)) && m == Forking(k, true))
       || (s.modes[i].linked && child == p.(state := RUNNABLE) && m == User)
  }

  lemma ChildSlot(s: Sys, i: nat, child: Proc, m: Mode, j: nat)
    requires Tree(s) && ForkMove(s, i, child, m) && j < NPROC
    ensures SlotOk(ChildStep(s, i, child, m), j)
  {
    hide HasZombie;
    var s', k := ChildStep(s, i, child, m), s.modes[i].child;
    assert SlotOk(s, k) && SlotOk(s, i) && SlotOk(s, s.init) && SlotOk(s, j);
    if !HasZombie(s.procs, j) { SlotZombies(s, s', k, j); }
  }

  lemma ChildTree(s: Sys, i: nat, child: Proc, m: Mode)
    requires Tree(s) && ForkMove(s, i, child, m)
    ensures Tree(ChildStep(s, i, child, m))
  {
    hide SlotOk;
    forall j | 0 <= j < NPROC ensures SlotOk(ChildStep(s, i, child, m), j) { ChildSlot(s, i, child, m, j); }
    ForkChild(s, i);
  }

  lemma ChildRest(s: Sys, i: nat, child: Proc, m: Mode)
    requires Inv(s) && i < NPROC && s.modes[i].Forking? && s.modes[i].child < NPROC
    requires child.pid == s.procs[s.modes[i].child].pid && child.state != ZOMBIE
    ensures Pids(ChildStep(s, i, child, m)) && History(ChildStep(s, i, child, m))
  {
    var s', k := ChildStep(s, i, child, m), s.modes[i].child;
    assert SlotOk(s, i);
    hide Tree;
    forall e ensures IsZombie(s', e) <==> IsZombie(s, e) { ZombieElsewhere(s, s', k, e); }
  }

  lemma ForkKeeps(s: Sys, a: Action)
    requires Inv(s) && Enabled(s, a) && (a.ForkAlloc? || a.ForkFail? || a.ForkLink? || a.ForkReady?)
    ensures Inv(Step(s, a))
  {
    hide Tree, Pids, History;
    if a.ForkAlloc? {
      AllocTree(s, a.i);
      AllocRest(s, a.i);
    } else {
      var p := s.procs[s.modes[a.i].child];
      var child :=
        if a.ForkFail? then p.(state := UNUSED)
        else if a.ForkLink? then p.(parent := Some(a.i))
        else p.(state := RUNNABLE);
      var m := if a.ForkLink? then Forking(s.modes[a.i].child, true) else User;
      ForkChild(s, a.i);
      ChildTree(s, a.i, child, m);
      ChildRest(s, a.i, child, m);
    }
  }

  lemma ForkChild(s: Sys, i: nat)
    requires Tree(s) && i < NPROC && s.modes[i].Forking?
    ensures s.modes[i].child < NPROC && s.procs[s.modes[i].child].state == EMBRYO
  {
    assert SlotOk(s, i);
  }

  // ---- exit

  /** A sleeping waiter that exit leaves asleep has no zombie child afterwards. */
  lemma ExitZombies(s: Sys, i: nat, j: nat)
    requires Tree(s) && Running(s, i) && i != s.init && j < NPROC && s.procs[j].chan == Some(Slot(j))
    requires !HasZombie(s.procs, j) && ExitStep(s, i).procs[j].state == SLEEPING
    ensures !HasZombie(ExitStep(s, i).procs, j)
  {
    var ps, ps' := s.procs, ExitStep(s, i).procs;
    assert ps'[j] == ExitedOne(ps, i, s.init, j);
    assert SlotOk(s, i);
    forall x | 0 <= x < NPROC ensures !ZombieChild(ps'[x], j) {
      assert ps'[x] == ExitedOne(ps, i, s.init, x);
      assert !ZombieChild(ps[x], j);
      if ps[x].parent == Some(i) && ps[x].state == ZOMBIE { assert ZombieChild(ps[x], i); }
    }
  }

  lemma ExitParent(s: Sys, i: nat, j: nat)
    requires Tree(s) && Running(s, i) && s.modes[i] == User && i != s.init && j < NPROC
    ensures ParentOk(ExitStep(s, i), j)
  {
    hide Exited, WaitOk, ForkOk, HasZombie;
    var ps, s' := s.procs, ExitStep(s, i);
    assert SlotOk(s, j) && SlotOk(s, s.init);
    assert s'.procs[j] == ExitedOne(ps, i, s.init, j);
    assert s'.procs[s.init] == ExitedOne(ps, i, s.init, s.init);
    if ps[j].parent.Some? { assert s'.procs[ps[j].parent.value] == ExitedOne(ps, i, s.init, ps[j].parent.value); }
  }

  lemma ExitFork(s: Sys, i: nat, j: nat)
    requires Tree(s) && Running(s, i) && s.modes[i] == User && i != s.init && j < NPROC
    ensures ForkOk(ExitStep(s, i), j)
  {
    hide Exited, WaitOk, HasZombie;
    var ps, s' := s.procs, ExitStep(s, i);
    assert SlotOk(s, j);
    assert s'.procs[j] == ExitedOne(ps, i, s.init, j);
    if s.modes[j].Forking? {
      assert s'.procs[s.modes[j].child] == ExitedOne(ps, i, s.init, s.modes[j].child);
    }
  }

  lemma ExitSlot(s: Sys, i: nat, j: nat)
    requires Tree(s) && Running(s, i) && s.modes[i] == User && i != s.init && j < NPROC
    ensures SlotOk(ExitStep(s, i), j)
  {
    hide Exited, ParentOk, ForkOk, HasZombie;
    assert SlotOk(s, j);
    assert ExitStep(s, i).procs[j] == ExitedOne(s.procs, i, s.init, j);
    ExitParent(s, i, j);
    ExitFork(s, i, j);
    if ExitStep(s, i).procs[j].state == SLEEPING && s.modes[j] == Waiting { ExitZombies(s, i, j); }
  }

  lemma ExitRest(s: Sys, i: nat)
    requires Pids(s) && History(s) && i < NPROC && s.procs[i].state == RUNNING
    ensures Pids(ExitStep(s, i)) && History(ExitStep(s, i))
  {
    var s' := ExitStep(s, i);
    forall j | 0 <= j < NPROC
      ensures s'.procs[j].pid == s.procs[j].pid
        && (s'.procs[j].state == ZOMBIE <==> j == i || s.procs[j].state == ZOMBIE)
      ensures s'.procs[j].state == UNUSED <==> s.procs[j].state == UNUSED
    {
      assert s'.procs[j] == ExitedOne(s.procs, i, s.init, j);
    }
    hide Exited, ExitedOne;
    forall e ensures IsZombie(s', e) <==> IsZombie(s, e) || e == s.procs[i].pid {
      if IsZombie(s, e) {
        var x :| 0 <= x < |s.procs| && s.procs[x].state == ZOMBIE && s.procs[x].pid == e;
        assert s'.procs[x].state == ZOMBIE && s'.procs[x].pid == e;
      }
      assert s'.procs[i].state == ZOMBIE;
    }
  }

  lemma ExitKeeps(s: Sys, i: nat)
    requires Inv(s) && Running(s, i) && s.modes[i] == User && i != s.init
    ensures Inv(ExitStep(s, i))
  {
    var s' := ExitStep(s, i);
    ExitRest(s, i);
    forall j | 0 <= j < NPROC ensures SlotOk(s', j) { ExitSlot(s, i, j); }
    assert SlotOk(s, i);
    assert s'.procs[s.init] == ExitedOne(s.procs, i, s.init, s.init);
  }

  // ---- wait

  lemma ReapTree(s: Sys, i: nat, k: nat)
    requires Tree(s) && Running(s, i) && !s.modes[i].Forking? && k < NPROC && s.procs[k].state == ZOMBIE
    ensures Tree(SetMode(SetProc(s, k, ReapedSlot(s.procs[k])), i, User))
  {
    hide HasZombie;
    var s' := SetMode(SetProc(s, k, ReapedSlot(s.procs[k])), i, User);
    assert SlotOk(s, i) && SlotOk(s, k);
    forall j | 0 <= j < NPROC ensures SlotOk(s', j) {
      assert SlotOk(s, j);
      if !HasZombie(s.procs, j) { SlotZombies(s, s', k, j); }
    }
  }

  lemma SleepTree(s: Sys, i: nat)
    requires Tree(s) && Running(s, i) && !s.modes[i].Forking? && !HasZombie(s.procs, i)
    ensures Tree(SetMode(s, i, User))
    ensures Tree(SetMode(SetProc(s, i, s.procs[i].(chan := Some(Slot(i)), state := SLEEPING)), i, Waiting))
  {
    hide HasZombie;
    var s0 := SetMode(s, i, User);
    var s1 := SetMode(SetProc(s, i, s.procs[i].(chan := Some(Slot(i)), state := SLEEPING)), i, Waiting);
    assert SlotOk(s, i);
    forall j | 0 <= j < NPROC ensures SlotOk(s0, j) && SlotOk(s1, j) {
      assert SlotOk(s, j);
      if !HasZombie(s.procs, j) { SlotZombies(s, s1, i, j); }
    }
  }

  lemma WaitTree(s: Sys, i: nat)
    requires Tree(s) && Running(s, i) && !s.modes[i].Forking?
    ensures Tree(WaitStep(s, i))
  {
    var k := FirstZombie(s.procs, i, 0);
    if k < NPROC {
      ReapTree(s, i, k);
      TreeOnly(SetMode(SetProc(s, k, ReapedSlot(s.procs[k])), i, User), WaitStep(s, i));
    } else {
      SleepTree(s, i);
    }
  }

  lemma TreeOnly(s: Sys, s': Sys)
    requires Tree(s) && s'.procs == s.procs && s'.modes == s.modes && s'.init == s.init
    ensures Tree(s')
  {
    forall i | 0 <= i < NPROC ensures SlotOk(s', i) { assert SlotOk(s, i); }
  }

  lemma WaitRest(s: Sys, i: nat)
    requires Pids(s) && History(s) && i < NPROC && s.procs[i].state == RUNNING
    ensures Pids(WaitStep(s, i)) && History(WaitStep(s, i))
  {
    var s', k := WaitStep(s, i), FirstZombie(s.procs, i, 0);
    if k < NPROC {
      ReapHistory(s, s', k);
    } else {
      forall e ensures IsZombie(s', e) <==> IsZombie(s, e) { ZombieElsewhere(s, s', i, e); }
    }
  }

  lemma ReapHistory(s: Sys, s': Sys, k: nat)
    requires Pids(s) && History(s) && k < NPROC && s.procs[k].state == ZOMBIE && Shape(s')
    requires s'.procs == s.procs[k := ReapedSlot(s.procs[k])] && s'.reaped == s.reaped + [s.procs[k].pid]
    requires s'.exited == s.exited && s'.nextpid == s.nextpid
    ensures Pids(s') && History(s')
  {
    var pid := s.procs[k].pid;
    assert IsZombie(s, pid);
    forall e ensures IsZombie(s, e) <==> IsZombie(s', e) || e == pid {
      if IsZombie(s, e) {
        var x :| 0 <= x < |s.procs| && s.procs[x].state == ZOMBIE && s.procs[x].pid == e;
        assert x != k ==> s'.procs[x] == s.procs[x];
      }
    }
    forall x, y | 0 <= x < y < |s'.reaped| ensures s'.reaped[x] != s'.reaped[y] {
      if y == |s.reaped| { assert s.reaped[x] in s.reaped; }
    }
  }

  lemma StepKeeps(s: Sys, a: Action)
    requires Inv(s) && Enabled(s, a)
    ensures Inv(Step(s, a))
  {
    hide Tree, Pids, History;
    if a.Exit? { ExitKeeps(s, a.i); }
    else if a.Wait? { WaitKeeps(s, a.i); }
    else if a.ForkAlloc? || a.ForkFail? || a.ForkLink? || a.ForkReady? { ForkKeeps(s, a); }
    else { RestatedKeeps(s, a); }
  }

  lemma WaitKeeps(s: Sys, i: nat)
    requires Inv(s) && Running(s, i) && !s.modes[i].Forking?
    ensures Inv(WaitStep(s, i))
  {
    hide Tree, Pids, History;
    WaitTree(s, i);
    WaitRest(s, i);
  }

  // ---- what holds in every run

  ghost predicate Reaches(s: Sys, acts: seq<Action>, s': Sys)
    decreases |acts|
  {
    if acts == [] then s' == s
    else Shape(s) && Enabled(s, acts[0]) && Reaches(Step(s, acts[0]), acts[1..], s')
  }

  lemma {:induction false} RunKeeps(s: Sys, acts: seq<Action>, s': Sys)
    requires Inv(s) && Reaches(s, acts, s')
    ensures Inv(s')
    decreases |acts|
  {
    if acts != [] {
      StepKeeps(s, acts[0]);
      RunKeeps(Step(s, acts[0]), acts[1..], s');
    }
  }

  ghost predicate Reachable(s: Sys) { exists acts :: Reaches(Boot(), acts, s) }

  lemma ReachableInv(s: Sys)
    requires Reachable(s)
    ensures Inv(s)
  {
    var acts :| Reaches(Boot(), acts, s);
    BootInv();
    RunKeeps(Boot(), acts, s);
  }

  /** A process asleep in wait has no zombie child; every process and zombie but init has a parent
      that is alive; slots in use have distinct pids below nextpid. */
  lemma TableSafe(s: Sys, i: nat, j: nat)
    requires Reachable(s) && i < NPROC && j < NPROC
    ensures Shape(s)
    ensures s.procs[i].state == SLEEPING && s.modes[i] == Waiting ==> !ZombieChild(s.procs[j], i)
    ensures (Alive(s.procs[j]) || s.procs[j].state == ZOMBIE) && j != s.init ==>
      s.procs[j].parent.Some? && s.procs[j].parent.value < NPROC && Alive(s.procs[s.procs[j].parent.value])
    ensures s.procs[i].state != UNUSED ==> 0 < s.procs[i].pid < s.nextpid
    ensures i != j && s.procs[i].pid != 0 ==> s.procs[i].pid != s.procs[j].pid
  {
    ReachableInv(s);
    assert SlotOk(s, i) && SlotOk(s, j);
  }

  /** No pid is reaped twice, and a pid has been reaped exactly if it exited and is no zombie. */
  lemma ReapedOnce(s: Sys, e: nat, x: nat, y: nat)
    requires Reachable(s)
    ensures x < y < |s.reaped| ==> s.reaped[x] != s.reaped[y]
    ensures e in s.reaped <==> e in s.exited && !IsZombie(s, e)
  {
    ReachableInv(s);
  }

  // ---- what the steps do together

  /** After wakeup on a channel nobody sleeps on it, who did is runnable and otherwise the same, and
      nobody else is touched. */
  lemma WakeupLaw(s: Sys, c: Chan, j: nat)
    requires Shape(s) && j < NPROC
    ensures var p, s' := s.procs[j], Step(s, WakeupOn(c));
      && s' == s.(procs := s'.procs) && |s'.procs| == NPROC
      && !(s'.procs[j].state == SLEEPING && s'.procs[j].chan == Some(c))
      && (p.state == SLEEPING && p.chan == Some(c) ==> s'.procs[j] == p.(state := RUNNABLE))
      && (!(p.state == SLEEPING && p.chan == Some(c)) ==> s'.procs[j] == p)
  {
  }

  /** A process that sleeps on a channel stays asleep through wakeups on others, is made runnable by
      one on its own, and runs when scheduled, on no channel. */
  lemma SleepWakeRun(s: Sys, i: nat, c: Chan, d: Chan)
    requires Shape(s) && Enabled(s, SleepOn(i, c)) && d != c
    ensures var p, s1 := s.procs[i], Step(s, SleepOn(i, c));
      var s2 := Step(s1, WakeupOn(d));
      var s3 := Step(s2, WakeupOn(c));
      && !Enabled(s1, Schedule(i)) && !Enabled(s2, Schedule(i)) && Enabled(s3, Schedule(i))
      && s3.procs[i] == p.(state := RUNNABLE, chan := Some(c))
      && Step(s3, Schedule(i)).procs[i] == p.(state := RUNNING, chan := None)
  {
  }

  /** A process that yields can be scheduled again, and nothing else has changed then but its channel. */
  lemma YieldRun(s: Sys, i: nat)
    requires Shape(s) && Enabled(s, Yield(i))
    ensures var s1 := Step(s, Yield(i));
      Enabled(s1, Schedule(i)) && Step(s1, Schedule(i)) == SetProc(s, i, s.procs[i].(chan := None))
  {
    var s1 := Step(s, Yield(i));
    assert Step(s1, Schedule(i)).procs == s.procs[i := s.procs[i].(chan := None)];
  }

  /** kill marks the first slot with the pid, and wakes it whatever it sleeps on. */
  lemma KillLaw(s: Sys, i: nat, pid: nat, k: nat, j: nat)
    requires Shape(s) && Enabled(s, Kill(i, pid)) && k < NPROC && j < NPROC
    requires s.procs[k].pid == pid && forall x :: 0 <= x < k ==> s.procs[x].pid != pid
    ensures var p, s' := s.procs[j], Step(s, Kill(i, pid));
      && |s'.procs| == NPROC && s' == s.(procs := s'.procs)
      && s'.procs[j] == if j != k then p
                        else p.(killed := true, state := if p.state == SLEEPING then RUNNABLE else p.state)
  {
  }

  /** A whole fork: the first free slot becomes a runnable child with the next pid and the caller as
      its parent, and nothing else changes. */
  lemma ForkRun(s: Sys, i: nat, k: nat)
    requires Shape(s) && Enabled(s, ForkAlloc(i)) && k < NPROC && k != i
    requires s.procs[k].state == UNUSED && forall x :: 0 <= x < k ==> s.procs[x].state != UNUSED
    ensures var s1 := Step(s, ForkAlloc(i));
      Shape(s1) && Enabled(s1, ForkLink(i)) && Enabled(s1, ForkFail(i)) &&
      var s2 := Step(s1, ForkLink(i));
      && Enabled(s2, ForkReady(i))
      && Step(s2, ForkReady(i)) == s.(nextpid := s.nextpid + 1,
           procs := s.procs[k := s.procs[k].(state := RUNNABLE, pid := s.nextpid, parent := Some(i))])
      && Step(s1, ForkFail(i)) == s.(nextpid := s.nextpid + 1, procs := s.procs[k := s.procs[k].(pid := s.nextpid)])
  {
    assert FirstUnused(s.procs, 0) == k;
    var s1 := Step(s, ForkAlloc(i));
    var s2 := Step(s1, ForkLink(i));
    var child := s.procs[k].(state := RUNNABLE, pid := s.nextpid, parent := Some(i));
    assert Step(s2, ForkReady(i)).procs == s.procs[k := child] && Step(s2, ForkReady(i)).modes == s.modes;
    assert Step(s1, ForkFail(i)).procs == s.procs[k := s.procs[k].(pid := s.nextpid)];
    assert Step(s1, ForkFail(i)).modes == s.modes;
  }

  /** A pass of wait: it frees the slot of the first zombie child and returns its pid; without one it
      fails, if there is no child or the caller has been killed, or sleeps on the caller's slot. */
  lemma WaitLaw(s: Sys, p: nat, k: nat)
    requires Shape(s) && Enabled(s, Wait(p)) && k < NPROC
    ensures OldestZombie(s.procs, p, k) ==>
      Step(s, Wait(p)) == s.(reaped := s.reaped + [s.procs[k].pid], modes := s.modes[p := User],
                             procs := s.procs[k := Proc(UNUSED, 0, None, s.procs[k].chan, false)])
    ensures (forall j :: 0 <= j < NPROC ==> !(s.procs[j].parent == Some(p) && s.procs[j].state == ZOMBIE)) ==>
      Step(s, Wait(p)) ==
        if s.procs[p].killed || !exists j :: 0 <= j < NPROC && s.procs[j].parent == Some(p)
        then s.(modes := s.modes[p := User])
        else s.(modes := s.modes[p := Waiting],
                procs := s.procs[p := s.procs[p].(state := SLEEPING, chan := Some(Slot(p)))])
  {
    var f := FirstZombie(s.procs, p, 0);
    if f < NPROC { assert ZombieChild(s.procs[f], p); }
    if OldestZombie(s.procs, p, k) { assert ZombieChild(s.procs[k], p) && f == k; }
    assert HasChild(s.procs, p) <==> exists j :: 0 <= j < NPROC && s.procs[j].parent == Some(p);
  }

  /** exit and wait meet: when a process exits whose parent sleeps in wait, the parent becomes
      runnable, and once it runs its wait returns a zombie child and frees its slot.  That is the
      process itself, unless the parent is init and has inherited another zombie from it. */
  lemma ExitWaitRun(s: Sys, i: nat, p: nat) returns (k: nat)
    requires Inv(s) && Enabled(s, Exit(i)) && s.procs[i].parent == Some(p) && p < NPROC
    requires s.procs[p].state == SLEEPING && s.modes[p] == Waiting
    ensures k < NPROC && (p != s.init || !HasZombie(s.procs, i) ==> k == i)
    ensures var s1 := Step(s, Exit(i));
      Shape(s1) && Enabled(s1, Schedule(p)) && OldestZombie(s1.procs, p, k) &&
      var s2 := Step(s1, Schedule(p));
      Enabled(s2, Wait(p)) &&
      var s3 := Step(s2, Wait(p));
      && s3.reaped == s.reaped + [s.procs[k].pid] && s3.modes[p] == User && s3.procs[p].state == RUNNING
      && s3.procs[k] == Proc(UNUSED, 0, None, s.procs[k].chan, false)
  {
    assert SlotOk(s, p) && SlotOk(s, i) && p != i;
    var s1 := Step(s, Exit(i));
    ExitedByLaw(s.procs, i, s.init, i);
    ExitedByLaw(s.procs, i, s.init, p);
    assert s1.procs[i].state == ZOMBIE && s1.procs[i].parent == Some(p) && s1.procs[p].state == RUNNABLE;
    k := FirstZombie(s1.procs, p, 0);
    assert ZombieChild(s1.procs[i], p) && k <= i;
    ExitedByLaw(s.procs, i, s.init, k);
    ExitSame(s, i);
    hide ExitStep, Exited, ExitedOne, WaitStep, FirstZombie, Inv, SlotOk;
    ScheduleKeepsZombies(s1, p, k);
    WaitLaw(Step(s1, Schedule(p)), p, k);
    if p != s.init || !HasZombie(s.procs, i) { OnlyZombie(s, i, p, k); }
  }

  lemma ScheduleKeepsZombies(s: Sys, p: nat, k: nat)
    requires Shape(s) && Enabled(s, Schedule(p)) && k < NPROC && k == FirstZombie(s.procs, p, 0)
    ensures OldestZombie(s.procs, p, k) && OldestZombie(Step(s, Schedule(p)).procs, p, k) && k != p
  {
    forall j | 0 <= j < k ensures !(s.procs[j].parent == Some(p) && s.procs[j].state == ZOMBIE) {
      assert !ZombieChild(s.procs[j], p);
    }
  }

  lemma ExitSame(s: Sys, i: nat)
    requires Shape(s) && i < NPROC
    ensures var s' := ExitStep(s, i);
      s'.modes == s.modes && s'.reaped == s.reaped && |s'.procs| == NPROC && s'.init == s.init
  {
  }

  lemma OnlyZombie(s: Sys, i: nat, p: nat, j: nat)
    requires Inv(s) && Enabled(s, Exit(i)) && s.procs[i].parent == Some(p) && p < NPROC && p != i && j < NPROC
    requires s.procs[p].state == SLEEPING && s.modes[p] == Waiting && (p != s.init || !HasZombie(s.procs, i))
    requires ZombieChild(Step(s, Exit(i)).procs[j], p)
    ensures j == i
  {
    assert SlotOk(s, p) && SlotOk(s, i);
    assert !ZombieChild(s.procs[j], p);
    ExitedByLaw(s.procs, i, s.init, j);
    assert ZombieChild(s.procs[j], i) ==> HasZombie(s.procs, i);
  }

  // ---- kill and free slots

  /** allocproc does not clear `killed`, so a free slot must not be marked. */
  ghost predicate FreeSlotsClean(s: Sys)
    requires Shape(s)
  {
    forall i :: 0 <= i < NPROC && s.procs[i].state == UNUSED ==> !s.procs[i].killed
  }

  /** kill leaves free slots clean exactly if the slot it finds is in use: pid 0, and the pid a
      failed fork leaves behind, belong to free slots. */
  lemma KillCleanIff(s: Sys, pid: nat)
    requires Shape(s) && FreeSlotsClean(s)
    ensures var k := FirstPid(s.procs, pid, 0);
      FreeSlotsClean(KillStep(s, pid)) <==> k == NPROC || s.procs[k].state != UNUSED
  {
    var k := FirstPid(s.procs, pid, 0);
    if k < NPROC { assert KillStep(s, pid).procs[k] == KilledSlot(s.procs[k]); }
  }

  /** kill(0) in the first state marks a free slot, and the next fork makes a killed child of it. */
  lemma KillMarksFreeSlot()
    ensures Enabled(Boot(), Schedule(0)) && Enabled(Step(Boot(), Schedule(0)), Kill(0, 0))
    ensures var s1 := Step(Boot(), Schedule(0));
      var s2 := Step(s1, Kill(0, 0));
      var s3 := AllocStep(s2, 0);
      && FreeSlotsClean(s1) && !FreeSlotsClean(s2)
      && Enabled(s2, ForkAlloc(0)) && s3.procs[1].state == EMBRYO && s3.procs[1].pid == 2 && s3.procs[1].killed
  {
    var s1 := Step(Boot(), Schedule(0));
    assert s1.procs[0].pid == 1 && s1.procs[1].pid == 0;
    assert FirstPid(s1.procs, 0, 0) == FirstPid(s1.procs, 0, 1) == 1;
    var s2 := Step(s1, Kill(0, 0));
    assert s2.procs[1].state == UNUSED && s2.procs[1].killed;
    assert FirstUnused(s2.procs, 0) == FirstUnused(s2.procs, 1) == 1;
  }
}
