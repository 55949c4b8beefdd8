/** What every run of pipe readers, writers, closers and kills keeps: no lost wakeup except behind a
    killed writer, bytes in order, and the pipe freed once and alone (kernel/pipe.c). */
module PipeRuns {
  import opened Options
  import opened PipeRing
  import opened PipeProtocol

  // ---- readers and writers are not asleep together

  /** The writer has woken the readers and is going to sleep, or asleep. */
  predicate Waiting(p: Thread) { p.op.Writing? && p.at in {SleepAcquire, SleepRelease, SleepSet, Asleep} }

  ghost predicate Apart(s: State)
  {
    forall t, u :: 0 <= t < |s.threads| && 0 <= u < |s.threads| ==>
      !(Sleeping(s.threads[t], true) && Waiting(s.threads[u]))
  }

  /** A step of a call outside the lock operations, which may wake the sleepers of one channel. */
  ghost predicate Talks(s: State, s': State, t: nat, readers: bool)
  {
    && |s'.threads| == |s.threads| && t < |s.threads| && s'.lock == s.lock && s'.freed == s.freed
    && s'.readopen == s.readopen && s'.writeopen == s.writeopen
    && forall u :: 0 <= u < |s.threads| && u != t ==>
      s'.threads[u] == s.threads[u] || s'.threads[u] == WokenOne(s.threads[u], readers)
  }

  lemma TalkResults(s: State, t: nat, readers: bool)
    requires t < |s.threads|
    ensures forall at :: Talks(s, At(s, t, at), t, readers) && At(s, t, at).threads[t] == s.threads[t].(at := at)
    ensures Talks(s, Gone(s, t), t, readers) && Gone(s, t).threads[t] == s.threads[t].(at := Fail)
  {
  }

  lemma WokeTalks(s: State, t: nat, readers: bool)
    requires t < |s.threads|
    ensures forall at :: var s' := Woke(s, t, readers, at);
      Talks(s, s', t, readers) && s'.threads[t] == s.threads[t].(at := at)
  {
  }

  lemma MovedTalks(s: State, t: nat, b: Byte, ring: Ring)
    requires t < |s.threads|
    ensures s.threads[t].op.Writing? ==>
      var s' := Gave(s, t, b, ring);
      Talks(s, s', t, true) && s'.threads[t].op.Writing? && s'.threads[t].at == s.threads[t].at
    ensures s.threads[t].op.Reading? ==>
      var s' := Took(s, t, b, ring);
      Talks(s, s', t, false) && s'.threads[t].op.Reading? && s'.threads[t].at == s.threads[t].at
  {
    hide Empty;
  }

  lemma WriteTalks(s: State, t: nat)
    requires t < |s.threads| && s.threads[t].op.Writing? && |s.ring.data| == PIPESIZE && WriteStep(s, t).Some?
    requires s.threads[t].at in {Loop, SleepWake, Wake}
    ensures var s' := WriteStep(s, t).value;
      && Talks(s, s', t, true) && s'.threads[t].op.Writing?
      && (s'.threads[t].at in {Loop, SleepWake, Wake, Release, Fail} || s.threads[t].at == SleepWake)
  {
    var p := s.threads[t];
    hide At, Woke, Gone, Gave, Talks, Put, Full;
    if p.at == Loop && p.op.i < |p.op.buf| { MovedTalks(s, t, p.op.buf[p.op.i], Put(s.ring, p.op.buf[p.op.i])); }
    TalkResults(s, t, true);
    WokeTalks(s, t, true);
  }

  lemma ReadTalks(s: State, t: nat)
    requires t < |s.threads| && s.threads[t].op.Reading? && |s.ring.data| == PIPESIZE && ReadStep(s, t).Some?
    requires s.threads[t].at in {Loop, Copy, Wake}
    ensures var s' := ReadStep(s, t).value;
      && Talks(s, s', t, false) && s'.threads[t].op.Reading?
      && s'.threads[t].at in {Loop, Copy, Wake, Release, Fail, SleepAcquire}
  {
    hide At, Woke, Took, Talks, Get, Front, Empty;
    MovedTalks(s, t, Front(s.ring), Get(s.ring));
    TalkResults(s, t, false);
    WokeTalks(s, t, false);
  }

  /** No thread has newly gone to sleep. */
  ghost predicate Calm(s: State, s': State)
  {
    && |s'.threads| == |s.threads|
    && (forall u :: 0 <= u < |s.threads| && Sleeping(s'.threads[u], true) ==> Sleeping(s.threads[u], true))
    && (forall u :: 0 <= u < |s.threads| && Waiting(s'.threads[u]) ==> Waiting(s.threads[u]))
  }

  lemma TalksCalm(s: State, s': State, t: nat, readers: bool)
    requires Talks(s, s', t, readers) && !Sleeping(s'.threads[t], true) && !Waiting(s'.threads[t])
    ensures Calm(s, s')
  {
  }

  lemma CalmApart(s: State, s': State)
    requires Apart(s) && Calm(s, s')
    ensures Apart(s')
  {
    hide Sleeping, Waiting;
    forall t, u | 0 <= t < |s'.threads| && 0 <= u < |s'.threads|
      ensures !(Sleeping(s'.threads[t], true) && Waiting(s'.threads[u]))
    {
      assert !(Sleeping(s.threads[t], true) && Waiting(s.threads[u]));
    }
  }

  /** While a reader is about to sleep no writer waits: the pipe is empty, not full. */
  lemma NobodyWaits(s: State, t: nat, u: nat)
    requires Inv(s) && t < |s.threads| && u < |s.threads| && s.threads[t].op.Reading? && s.threads[t].at == SleepRelease
    ensures !Waiting(s.threads[u])
  {
    assert ThreadOk(s, t) && ThreadOk(s, u);
    TestsExact(s.ring);
    hide Window, Count, Empty, Full;
  }

  lemma PassedCalm(p: Thread)
    ensures Waiting(Passed(p)) ==> Waiting(p)
    ensures Sleeping(Passed(p), true) ==> Sleeping(p, true) || (p.op.Reading? && p.at == SleepRelease)
  {
  }

  lemma LockApart(s: State, t: nat)
    requires Inv(s) && Apart(s) && t < |s.threads| && !s.threads[t].op.Idle? && LockStep(s, t).Some?
    ensures Apart(LockStep(s, t).value)
  {
    var p, s' := s.threads[t], LockStep(s, t).value;
    LockShape(s, t);
    PassedCalm(p);
    hide LockStep, Passed, Sleeping, Waiting, Inv;
    if p.op.Reading? && p.at == SleepRelease {
      forall u | 0 <= u < |s.threads| ensures !Waiting(s'.threads[u]) { NobodyWaits(s, t, u); }
    } else {
      assert Calm(s, s');
      hide Calm;
      CalmApart(s, s');
    }
  }

  lemma WriteApart(s: State, t: nat)
    requires Inv(s) && Apart(s) && t < |s.threads| && s.threads[t].op.Writing? && WriteStep(s, t).Some?
    ensures Apart(WriteStep(s, t).value)
  {
    var p, s' := s.threads[t], WriteStep(s, t).value;
    if p.at == SleepWake {
      WakeupKeeps(s, true);
      hide Inv, Woken, Waiting;
      assert NoneSleep(s', true);
    } else if p.at == Loop || p.at == Wake {
      WriteTalks(s, t);
      hide WriteStep, Inv, Apart, Talks, Calm;
      TalksCalm(s, s', t, true);
      CalmApart(s, s');
    } else {
      LockApart(s, t);
    }
  }

  lemma ReadApart(s: State, t: nat)
    requires Inv(s) && Apart(s) && t < |s.threads| && s.threads[t].op.Reading? && ReadStep(s, t).Some?
    ensures Apart(ReadStep(s, t).value)
  {
    var p, s' := s.threads[t], ReadStep(s, t).value;
    if p.at in {Loop, Copy, Wake} {
      ReadTalks(s, t);
      hide ReadStep, Inv, Apart, Talks, Calm;
      TalksCalm(s, s', t, false);
      CalmApart(s, s');
    } else {
      LockApart(s, t);
    }
  }

  lemma CloseCalm(s: State, t: nat)
    requires t < |s.threads| && s.threads[t].op.Closing?
    ensures forall w :: Calm(s, Shut(s, t, w))
    ensures forall w :: Calm(s, Woke(s, t, w, Release))
    ensures Calm(s, Closed(s, t))
  {
  }

  lemma CloseApart(s: State, t: nat)
    requires Inv(s) && Apart(s) && t < |s.threads| && s.threads[t].op.Closing? && CloseStep(s, t).Some?
    ensures Apart(CloseStep(s, t).value)
  {
    hide LockStep, Shut, Woke, Closed, Calm, Apart;
    if s.threads[t].at in {Loop, Wake, Release} {
      CloseCalm(s, t);
      hide Inv;
      CalmApart(s, CloseStep(s, t).value);
    } else {
      LockApart(s, t);
    }
  }

  lemma BeginApart(s: State, t: nat, call: Call)
    requires Apart(s) && t < |s.threads| && BeginStep(s, t, call).Some?
    ensures Apart(BeginStep(s, t, call).value)
  {
    BeginShape(s, t, call);
    hide BeginStep, InUse;
    assert Calm(s, BeginStep(s, t, call).value);
    CalmApart(s, BeginStep(s, t, call).value);
  }

  lemma StepApart(s: State, a: Action)
    requires Inv(s) && Apart(s) && Step(s, a).Some?
    ensures Apart(Step(s, a).value)
  {
    hide Inv, Apart, WriteStep, ReadStep, CloseStep, BeginStep;
    match a
    case Begin(t, call) => BeginApart(s, t, call);
    case Kill(t) => CalmApart(s, KillStep(s, t).value);
    case Go(t) =>
      match s.threads[t].op
      case Idle =>
      case Writing(_, _, _) => WriteApart(s, t);
      case Reading(_, _, _) => ReadApart(s, t);
      case Closing(_) => CloseApart(s, t);
  }

  // ---- closing both ends frees the pipe, once and alone

  predicate AllIdle(s: State) { forall u :: 0 <= u < |s.threads| ==> s.threads[u].op.Idle? }

  predicate HolderCloses(s: State)
  {
    s.lock.Some? && s.lock.value < |s.threads| && s.threads[s.lock.value].op.Closing?
  }

  /** The closer has not yet shut its end. */
  predicate Entering(p: Thread) { p.op.Closing? && (p.at == Acquire || p.at == Loop) }

  predicate SameCloser(p: Thread, q: Thread) { p.op.Closing? && q.op == p.op }

  predicate BothShut(s: State) { !s.readopen && !s.writeopen }

  ghost predicate Ends(s: State)
  {
    && (forall t, u :: 0 <= t < |s.threads| && 0 <= u < |s.threads| && SameCloser(s.threads[t], s.threads[u]) ==>
          t == u)
    && (forall t :: 0 <= t < |s.threads| && Entering(s.threads[t]) ==>
          if s.threads[t].op.writable then s.writeopen else s.readopen)
    && (s.freed ==> BothShut(s) && AllIdle(s))
    && (BothShut(s) && !s.freed ==> HolderCloses(s))
  }

  /** A step that leaves the ends as they are: no closer appears or goes back, and a closer that
      holds the lock keeps it while both ends are shut. */
  ghost predicate EndsSame(s: State, s': State, t: nat)
  {
    && |s'.threads| == |s.threads| && s'.readopen == s.readopen && s'.writeopen == s.writeopen && s'.freed == s.freed
    && (forall u :: 0 <= u < |s.threads| && s'.threads[u].op.Closing? ==>
          s'.threads[u].op == s.threads[u].op && (Entering(s'.threads[u]) ==> Entering(s.threads[u])))
    && (s.freed ==> forall u :: 0 <= u < |s.threads| ==> s'.threads[u].op == s.threads[u].op)
    && (BothShut(s) && HolderCloses(s) ==> HolderCloses(s'))
  }

  lemma EndsKept(s: State, s': State, t: nat)
    requires Ends(s) && EndsSame(s, s', t)
    ensures Ends(s')
  {
    hide HolderCloses;
    forall x, y | 0 <= x < |s'.threads| && 0 <= y < |s'.threads| && SameCloser(s'.threads[x], s'.threads[y])
      ensures x == y
    {
      assert SameCloser(s.threads[x], s.threads[y]);
    }
  }

  /** An end in use is open, and a pipe in use is not freed. */
  lemma InUseOpen(s: State, t: nat)
    requires Inv(s) && Ends(s) && t < |s.threads| && !s.threads[t].op.Idle?
    ensures !s.freed && (s.threads[t].op.Writing? ==> s.writeopen) && (s.threads[t].op.Reading? ==> s.readopen)
  {
    assert ThreadOk(s, t);
    hide CallOk, Attended, Sleeping, HasLock, HasTable, Entering, HolderCloses;
  }

  lemma LockEnds(s: State, t: nat)
    requires Inv(s) && Ends(s) && t < |s.threads| && !s.threads[t].op.Idle? && LockStep(s, t).Some?
    requires s.threads[t].op.Closing? ==> s.threads[t].at == Acquire
    ensures Ends(LockStep(s, t).value)
  {
    var s' := LockStep(s, t).value;
    InUseOpen(s, t);
    LockShape(s, t);
    hide LockStep, Inv;
    assert EndsSame(s, s', t);
    hide EndsSame, Ends;
    EndsKept(s, s', t);
  }

  lemma WriteEnds(s: State, t: nat)
    requires Inv(s) && Ends(s) && t < |s.threads| && s.threads[t].op.Writing? && WriteStep(s, t).Some?
    ensures Ends(WriteStep(s, t).value)
  {
    if s.threads[t].at in {Loop, SleepWake, Wake} {
      InUseOpen(s, t);
      WriteTalks(s, t);
      hide Inv, Ends, WriteStep;
      EndsKept(s, WriteStep(s, t).value, t);
    } else {
      LockEnds(s, t);
    }
  }

  lemma ReadEnds(s: State, t: nat)
    requires Inv(s) && Ends(s) && t < |s.threads| && s.threads[t].op.Reading? && ReadStep(s, t).Some?
    ensures Ends(ReadStep(s, t).value)
  {
    if s.threads[t].at in {Loop, Copy, Wake} {
      InUseOpen(s, t);
      ReadTalks(s, t);
      hide Inv, Ends, ReadStep;
      EndsKept(s, ReadStep(s, t).value, t);
    } else {
      LockEnds(s, t);
    }
  }

  /** The last closer is alone: with both ends shut and the lock in its hands no other call is
      under way. */
  lemma LastCloser(s: State, t: nat, u: nat)
    requires Inv(s) && Ends(s) && t < |s.threads| && u < |s.threads| && u != t
    requires s.lock == Some(t) && BothShut(s)
    ensures s.threads[u].op.Idle?
  {
    assert ThreadOk(s, t) && ThreadOk(s, u);
    hide Attended, Sleeping, HasTable, HolderCloses, AllIdle;
  }

  lemma ShutEnds(s: State, t: nat)
    requires Inv(s) && Ends(s) && t < |s.threads| && s.threads[t].op.Closing? && s.threads[t].at == Loop
    ensures Ends(CloseStep(s, t).value)
  {
    InUseOpen(s, t);
    assert ThreadOk(s, t);
    hide CallOk, Attended, Sleeping, HasTable, Shared;
  }

  lemma WokeEnds(s: State, t: nat, w: bool)
    requires Inv(s) && Ends(s) && t < |s.threads| && s.threads[t].op.Closing? && s.threads[t].at == Wake
    ensures Ends(Woke(s, t, w, Release))
  {
    InUseOpen(s, t);
    assert ThreadOk(s, t);
    hide Inv, Ends;
    EndsKept(s, Woke(s, t, w, Release), t);
  }

  lemma ClosedEnds(s: State, t: nat)
    requires Inv(s) && Ends(s) && t < |s.threads| && s.threads[t].op.Closing? && s.threads[t].at == Release
    ensures Ends(Closed(s, t))
  {
    InUseOpen(s, t);
    assert ThreadOk(s, t);
    if BothShut(s) {
      forall u | 0 <= u < |s.threads| && u != t ensures s.threads[u].op.Idle? { LastCloser(s, t, u); }
    }
    hide Inv;
  }

  lemma CloseEnds(s: State, t: nat)
    requires Inv(s) && Ends(s) && t < |s.threads| && s.threads[t].op.Closing? && CloseStep(s, t).Some?
    ensures Ends(CloseStep(s, t).value)
  {
    var p := s.threads[t];
    assert ThreadOk(s, t);
    hide LockStep, Shut, Woke, Closed, Inv, Ends, Attended, Sleeping;
    if p.at == Loop {
      ShutEnds(s, t);
    } else if p.at == Wake {
      WokeEnds(s, t, p.op.writable);
    } else if p.at == Release {
      ClosedEnds(s, t);
    } else {
      LockEnds(s, t);
    }
  }

  lemma BeginEnds(s: State, t: nat, call: Call)
    requires Inv(s) && Ends(s) && t < |s.threads| && BeginStep(s, t, call).Some?
    ensures Ends(BeginStep(s, t, call).value)
  {
    var s' := BeginStep(s, t, call).value;
    BeginShape(s, t, call);
    hide BeginStep, InUse, CallOk, Attended, Sleeping, HasLock, HasTable;
    forall x, y | 0 <= x < |s'.threads| && 0 <= y < |s'.threads| && SameCloser(s'.threads[x], s'.threads[y])
      ensures x == y
    {
      assert x != t ==> ThreadOk(s, x);
      assert y != t ==> ThreadOk(s, y);
      assert x != t && y != t ==> SameCloser(s.threads[x], s.threads[y]);
    }
  }

  lemma KillEnds(s: State, t: nat)
    requires Inv(s) && Ends(s) && t < |s.threads| && KillStep(s, t).Some?
    ensures Ends(KillStep(s, t).value)
  {
    assert ThreadOk(s, t);
    hide Inv;
    assert EndsSame(s, KillStep(s, t).value, t);
    hide EndsSame, Ends;
    EndsKept(s, KillStep(s, t).value, t);
  }

  lemma StepEnds(s: State, a: Action)
    requires Inv(s) && Ends(s) && Step(s, a).Some?
    ensures Ends(Step(s, a).value)
  {
    hide Inv, Ends, WriteStep, ReadStep, CloseStep, BeginStep, KillStep;
    match a
    case Begin(t, call) => BeginEnds(s, t, call);
    case Kill(t) => KillEnds(s, t);
    case Go(t) =>
      match s.threads[t].op
      case Idle =>
      case Writing(_, _, _) => WriteEnds(s, t);
      case Reading(_, _, _) => ReadEnds(s, t);
      case Closing(_) => CloseEnds(s, t);
  }

  // ---- what holds in every run

  function Run(s: State, acts: seq<Action>): Option<State>
    requires |s.ring.data| == PIPESIZE
    decreases |acts|
  {
    if acts == [] then Some(s)
    else match Step(s, acts[0])
      case None => None
      case Some(s1) => if |s1.ring.data| == PIPESIZE then Run(s1, acts[1..]) else None
  }

  ghost predicate Reachable(s: State)
  {
    exists n: nat, data: seq<Byte>, acts :: |data| == PIPESIZE && Run(Initial(n, data), acts) == Some(s)
  }

  ghost predicate Good(s: State) { Inv(s) && AllRecorded(s) && Apart(s) && Ends(s) }

  lemma StepGood(s: State, a: Action)
    requires Good(s) && Step(s, a).Some?
    ensures Good(Step(s, a).value)
  {
    hide Step, AllRecorded, Apart, Ends;
    StepKeeps(s, a);
    StepRecorded(s, a);
    StepApart(s, a);
    StepEnds(s, a);
  }

  lemma {:induction false} RunKeeps(s: State, acts: seq<Action>)
    requires Good(s) && Run(s, acts).Some?
    ensures Good(Run(s, acts).value)
    decreases |acts|
  {
    if acts != [] {
      StepGood(s, acts[0]);
      hide Inv, AllRecorded, Apart, Ends, Step;
      RunKeeps(Step(s, acts[0]).value, acts[1..]);
    }
  }

  lemma ReachableInv(s: State)
    requires Reachable(s)
    ensures Good(s)
  {
    var n: nat, data: seq<Byte>, acts :| |data| == PIPESIZE && Run(Initial(n, data), acts) == Some(s);
    InitialInv(n, data);
    RunKeeps(Initial(n, data), acts);
  }

  /** A read or write begins exactly while its end is not closed, and a close exactly once, when no
      call uses the end. */
  lemma BeginIff(s: State, t: nat, call: Call)
    requires |s.ring.data| == PIPESIZE && t < |s.threads| && s.threads[t].op.Idle?
    ensures Step(s, Begin(t, call)).Some? <==>
      match call
      case Write(_) => !s.wdone
      case Read(_) => !s.rdone
      case Close(true) => !s.wdone && forall u :: 0 <= u < |s.threads| ==> !s.threads[u].op.Writing?
      case Close(false) => !s.rdone && forall u :: 0 <= u < |s.threads| ==> !s.threads[u].op.Reading?
  {
  }

  /** kill marks one thread, makes it runnable if it sleeps, and changes nothing else. */
  lemma KillLaw(s: State, t: nat)
    requires |s.ring.data| == PIPESIZE && t < |s.threads|
    ensures Step(s, Kill(t)).Some? <==> s.table.None?
    ensures Step(s, Kill(t)).Some? ==>
      var s', p := Step(s, Kill(t)).value, s.threads[t];
      && |s'.threads| == |s.threads|
      && s'.threads[t] == Thread(p.op, if p.at == Asleep then Acquire else p.at, true)
      && (forall u :: 0 <= u < |s.threads| && u != t ==> s'.threads[u] == s.threads[u])
      && s' == s.(threads := s'.threads)
  {
  }

  /** A killed sleeper whose condition still holds returns from its call in three steps of its own. */
  lemma KilledSleeperReturns(s: State, t: nat)
    requires |s.ring.data| == PIPESIZE && t < |s.threads| && s.lock.None? && s.table.None?
    requires var p := s.threads[t];
      && p.at == Asleep
      && ((p.op.Reading? && Empty(s.ring) && s.writeopen)
          || (p.op.Writing? && p.op.i < |p.op.buf| && Full(s.ring)))
    ensures var r := Run(s, [Kill(t), Go(t), Go(t), Go(t)]);
      r.Some? && |r.value.threads| == |s.threads| && r.value.threads[t].op.Idle? && r.value.ring == s.ring
  {
    var p := s.threads[t];
    var s1 := Step(s, Kill(t)).value;
    assert s1.threads[t] == p.(killed := true, at := Acquire);
    var s2 := Step(s1, Go(t)).value;
    assert s2.threads[t] == p.(killed := true, at := Loop) && s2.ring == s.ring;
    var s3 := Step(s2, Go(t)).value;
    assert s3.threads[t] == p.(killed := true, at := Fail) && s3.ring == s.ring;
    var s4 := Step(s3, Go(t)).value;
    assert s4.threads[t].op.Idle? && s4.ring == s.ring;
    var a := [Kill(t), Go(t), Go(t), Go(t)];
    assert a[1..] == [Go(t), Go(t), Go(t)] && a[1..][1..] == [Go(t), Go(t)] && a[1..][1..][1..] == [Go(t)];
    assert [Go(t)][1..] == [];
    hide Step;
    assert Run(s4, []) == Some(s4);
    assert Run(s3, [Go(t)]) == Some(s4);
    assert Run(s2, [Go(t), Go(t)]) == Some(s4);
    assert Run(s1, [Go(t), Go(t), Go(t)]) == Some(s4);
  }

  /** The guard behind which pipewrite returns without the wakeup. */
  predicate Leaves(s: State, t: nat)
  {
    && t < |s.threads| && s.threads[t].op.Writing? && s.threads[t].at == Loop
    && s.threads[t].op.i < |s.threads[t].op.buf|
    && Full(s.ring) && (!s.readopen || s.threads[t].killed)
  }

  /** The step wakes the readers, or takes the last byte. */
  predicate Clears(s: State, t: nat)
    requires |s.ring.data| == PIPESIZE
  {
    t < |s.threads| &&
    match s.threads[t].op
    case Writing(_, _, _) => s.threads[t].at == SleepWake || s.threads[t].at == Wake
    case Closing(writable) => writable && s.threads[t].at == Wake
    case Reading(n, got, _) =>
      s.threads[t].at == Copy && |got| < n && !Empty(s.ring) && Empty(Get(s.ring))
    case Idle => false
  }

  /** Exactly that guard misses a wakeup, and exactly those steps make up for it. */
  ghost predicate MissedBy(s: State, s': State, t: nat)
    requires |s.ring.data| == PIPESIZE
  {
    s'.missed <==> Leaves(s, t) || (s.missed && !Clears(s, t))
  }

  lemma MissedResults(s: State, t: nat)
    requires t < |s.threads|
    ensures forall at :: At(s, t, at).missed == s.missed
    ensures forall r, at :: Woke(s, t, r, at).missed == (s.missed && !r)
    ensures Gone(s, t).missed && Closed(s, t).missed == s.missed
    ensures forall w :: Shut(s, t, w).missed == s.missed
    ensures forall lock, table :: Locked(s, t, lock, table).missed == s.missed
  {
  }

  lemma MissedMoves(s: State, t: nat, b: Byte, ring: Ring)
    requires t < |s.threads|
    ensures s.threads[t].op.Writing? ==> Gave(s, t, b, ring).missed == s.missed
    ensures s.threads[t].op.Reading? ==> Took(s, t, b, ring).missed == (s.missed && !Empty(ring))
  {
    hide Empty;
  }

  lemma WriteMissed(s: State, t: nat)
    requires t < |s.threads| && s.threads[t].op.Writing? && |s.ring.data| == PIPESIZE && WriteStep(s, t).Some?
    ensures MissedBy(s, WriteStep(s, t).value, t)
  {
    var p := s.threads[t];
    hide At, Woke, Gone, Gave, Locked, Full, Put, Empty, Get;
    if p.at == Loop && p.op.i < |p.op.buf| { MissedMoves(s, t, p.op.buf[p.op.i], Put(s.ring, p.op.buf[p.op.i])); }
    MissedResults(s, t);
  }

  lemma ReadMissed(s: State, t: nat)
    requires t < |s.threads| && s.threads[t].op.Reading? && |s.ring.data| == PIPESIZE && ReadStep(s, t).Some?
    ensures MissedBy(s, ReadStep(s, t).value, t)
  {
    hide At, Woke, Took, Locked, Empty, Get, Front;
    MissedMoves(s, t, Front(s.ring), Get(s.ring));
    MissedResults(s, t);
  }

  lemma CloseMissed(s: State, t: nat)
    requires t < |s.threads| && s.threads[t].op.Closing? && |s.ring.data| == PIPESIZE && CloseStep(s, t).Some?
    ensures MissedBy(s, CloseStep(s, t).value, t)
  {
    hide Shut, Woke, Closed, Locked;
    MissedResults(s, t);
  }

  lemma StepMissed(s: State, a: Action)
    requires |s.ring.data| == PIPESIZE && Step(s, a).Some?
    ensures if a.Go? then MissedBy(s, Step(s, a).value, a.t) else Step(s, a).value.missed == s.missed
  {
    hide WriteStep, ReadStep, CloseStep, BeginStep;
    match a
    case Begin(t, call) => BeginShape(s, t, call);
    case Kill(t) =>
    case Go(t) =>
      hide MissedBy;
      match s.threads[t].op
      case Idle =>
      case Writing(_, _, _) => WriteMissed(s, t);
      case Reading(_, _, _) => ReadMissed(s, t);
      case Closing(_) => CloseMissed(s, t);
  }

  /** What a step does to the marks: only kill marks a thread. */
  ghost predicate MarksKept(s: State, s': State, a: Action)
  {
    && |s'.threads| == |s.threads| && (s'.readopen ==> s.readopen)
    && (forall u :: 0 <= u < |s.threads| && s'.threads[u].killed ==> s.threads[u].killed || a == Kill(u))
  }

  lemma MarkResults(s: State, t: nat)
    requires t < |s.threads|
    ensures forall at :: MarksKept(s, At(s, t, at), Go(t))
    ensures MarksKept(s, Gone(s, t), Go(t))
    ensures forall w :: MarksKept(s, Shut(s, t, w), Go(t))
    ensures MarksKept(s, Closed(s, t), Go(t))
  {
  }

  lemma WokeMarks(s: State, t: nat)
    requires t < |s.threads|
    ensures forall r, at :: MarksKept(s, Woke(s, t, r, at), Go(t))
  {
  }

  lemma MovedMarks(s: State, t: nat, b: Byte, ring: Ring)
    requires t < |s.threads|
    ensures s.threads[t].op.Writing? ==> MarksKept(s, Gave(s, t, b, ring), Go(t))
    ensures s.threads[t].op.Reading? ==> MarksKept(s, Took(s, t, b, ring), Go(t))
  {
    hide Empty;
  }

  lemma LockMarks(s: State, t: nat)
    requires t < |s.threads| && LockStep(s, t).Some?
    ensures MarksKept(s, LockStep(s, t).value, Go(t))
  {
    LockShape(s, t);
    hide LockStep;
  }

  lemma WriteMarks(s: State, t: nat)
    requires t < |s.threads| && s.threads[t].op.Writing? && |s.ring.data| == PIPESIZE && WriteStep(s, t).Some?
    ensures MarksKept(s, WriteStep(s, t).value, Go(t))
  {
    var p := s.threads[t];
    hide At, Woke, Gone, Gave, LockStep, MarksKept, Full, Put;
    if p.at == Loop && p.op.i < |p.op.buf| { MovedMarks(s, t, p.op.buf[p.op.i], Put(s.ring, p.op.buf[p.op.i])); }
    MarkResults(s, t);
    WokeMarks(s, t);
    if p.at !in {Loop, SleepWake, Wake} { LockMarks(s, t); }
  }

  lemma ReadMarks(s: State, t: nat)
    requires t < |s.threads| && s.threads[t].op.Reading? && |s.ring.data| == PIPESIZE && ReadStep(s, t).Some?
    ensures MarksKept(s, ReadStep(s, t).value, Go(t))
  {
    hide At, Woke, Took, LockStep, MarksKept, Empty, Get, Front;
    MovedMarks(s, t, Front(s.ring), Get(s.ring));
    MarkResults(s, t);
    WokeMarks(s, t);
    if s.threads[t].at !in {Loop, Copy, Wake} { LockMarks(s, t); }
  }

  lemma CloseMarks(s: State, t: nat)
    requires t < |s.threads| && s.threads[t].op.Closing? && CloseStep(s, t).Some?
    ensures MarksKept(s, CloseStep(s, t).value, Go(t))
  {
    hide Shut, Woke, Closed, LockStep, MarksKept;
    MarkResults(s, t);
    WokeMarks(s, t);
    if s.threads[t].at !in {Loop, Wake, Release} { LockMarks(s, t); }
  }

  lemma StepMarks(s: State, a: Action)
    requires |s.ring.data| == PIPESIZE && Step(s, a).Some?
    ensures MarksKept(s, Step(s, a).value, a)
  {
    hide WriteStep, ReadStep, CloseStep, BeginStep;
    match a
    case Begin(t, call) => BeginShape(s, t, call);
    case Kill(t) =>
    case Go(t) =>
      hide MarksKept;
      match s.threads[t].op
      case Idle =>
      case Writing(_, _, _) => WriteMarks(s, t);
      case Reading(_, _, _) => ReadMarks(s, t);
      case Closing(_) => CloseMarks(s, t);
  }

  // ---- the runs in which a wakeup is missed

  /** In the run a writer left a full pipe, and since then no step has woken the readers or emptied
      the pipe. */
  ghost predicate MissedIn(s: State, acts: seq<Action>)
    requires |s.ring.data| == PIPESIZE
  {
    exists k :: 0 <= k < |acts| && LeavesAt(s, acts, k) && forall j :: k < j < |acts| ==> !ClearsAt(s, acts, j)
  }

  ghost predicate LeavesAt(s: State, acts: seq<Action>, k: nat)
    requires |s.ring.data| == PIPESIZE && k < |acts|
  {
    var mid := Run(s, acts[..k]);
    acts[k].Go? && mid.Some? && Leaves(mid.value, acts[k].t)
  }

  ghost predicate ClearsAt(s: State, acts: seq<Action>, k: nat)
    requires |s.ring.data| == PIPESIZE && k < |acts|
  {
    var mid := Run(s, acts[..k]);
    acts[k].Go? && mid.Some? && |mid.value.ring.data| == PIPESIZE && Clears(mid.value, acts[k].t)
  }

  lemma {:induction false} RunSplit(s: State, acts: seq<Action>)
    requires |s.ring.data| == PIPESIZE && acts != [] && Run(s, acts).Some?
    ensures var mid := Run(s, acts[..|acts| - 1]);
      mid.Some? && |mid.value.ring.data| == PIPESIZE && Step(mid.value, acts[|acts| - 1]) == Run(s, acts)
    decreases |acts|
  {
    hide Step;
    var n := |acts| - 1;
    if n == 0 {
      assert acts[..0] == [] && acts[1..] == [];
    } else {
      assert acts[..n][0] == acts[0] && acts[..n][1..] == acts[1..][..n - 1];
      RunSplit(Step(s, acts[0]).value, acts[1..]);
    }
  }

  /** `missed` says just that. */
  lemma {:induction false} MissedIff(s: State, acts: seq<Action>)
    requires |s.ring.data| == PIPESIZE && Run(s, acts).Some? && !s.missed
    ensures Run(s, acts).value.missed <==> MissedIn(s, acts)
    decreases |acts|
  {
    hide Step, Run, Leaves, Clears;
    if acts == [] {
      RunNone(s);
    } else {
      var n := |acts| - 1;
      var pre := acts[..n];
      RunSplit(s, acts);
      var mid := Run(s, pre).value;
      MissedIff(s, pre);
      StepMissed(mid, acts[n]);
      assert forall k :: 0 <= k < n ==> acts[..k] == pre[..k] && acts[k] == pre[k];
      MissedSnoc(s, acts, mid, pre);
    }
  }

  lemma RunNone(s: State)
    requires |s.ring.data| == PIPESIZE
    ensures Run(s, []) == Some(s)
  {
  }

  lemma MissedSnoc(s: State, acts: seq<Action>, mid: State, pre: seq<Action>)
    requires |s.ring.data| == PIPESIZE && acts != [] && pre == acts[..|acts| - 1] && Run(s, pre) == Some(mid)
    requires |mid.ring.data| == PIPESIZE
    requires forall k :: 0 <= k < |pre| ==> acts[..k] == pre[..k] && acts[k] == pre[k]
    ensures var a := acts[|acts| - 1];
      MissedIn(s, acts) <==> (a.Go? && Leaves(mid, a.t)) || (MissedIn(s, pre) && !(a.Go? && Clears(mid, a.t)))
  {
    hide Run, Leaves, Clears;
    var n, a := |acts| - 1, acts[|acts| - 1];
    assert LeavesAt(s, acts, n) <==> a.Go? && Leaves(mid, a.t);
    assert ClearsAt(s, acts, n) <==> a.Go? && Clears(mid, a.t);
    assert forall k :: 0 <= k < n ==> LeavesAt(s, acts, k) == LeavesAt(s, pre, k);
    assert forall k :: 0 <= k < n ==> ClearsAt(s, acts, k) == ClearsAt(s, pre, k);
    hide LeavesAt, ClearsAt;
    if LeavesAt(s, acts, n) { assert MissedIn(s, acts); }
    if k :| 0 <= k < n && LeavesAt(s, pre, k) && (forall j :: k < j < n ==> !ClearsAt(s, pre, j)) {
      assert LeavesAt(s, acts, k);
    }
  }

  lemma SleepersRight(s: State, t: nat, u: nat)
    requires Reachable(s) && s.lock.None? && t < |s.threads| && u < |s.threads|
    ensures Fits(s.ring)
    ensures s.threads[t].op.Reading? && s.threads[t].at == Asleep ==>
      (Window(s.ring) == [] && s.writeopen <==> !s.missed)
    ensures s.threads[t].op.Writing? && s.threads[t].at == Asleep ==> |Window(s.ring)| == PIPESIZE && s.readopen
    ensures !(s.threads[t].op.Reading? && s.threads[t].at == Asleep
              && s.threads[u].op.Writing? && s.threads[u].at == Asleep)
  {
    ReachableInv(s);
    TestsExact(s.ring);
    assert ThreadOk(s, t) && ThreadOk(s, u);
    assert !(Sleeping(s.threads[t], true) && Waiting(s.threads[u]));
    hide Ends, AllRecorded, Window;
  }

  /** With the pipe lock free, a reader asleep means an empty pipe whose write end is open exactly if
      the run has not missed a wakeup; a writer asleep always means a full pipe whose read end is
      open; and readers and writers are never asleep together. */
  lemma {:induction false} NoLostWakeup(n: nat, data: seq<Byte>, acts: seq<Action>, s: State, t: nat, u: nat)
    requires |data| == PIPESIZE && Run(Initial(n, data), acts) == Some(s)
    requires s.lock.None? && t < |s.threads| && u < |s.threads|
    ensures Fits(s.ring)
    ensures s.threads[t].op.Reading? && s.threads[t].at == Asleep ==>
      (Window(s.ring) == [] && s.writeopen <==> !MissedIn(Initial(n, data), acts))
    ensures s.threads[t].op.Writing? && s.threads[t].at == Asleep ==> |Window(s.ring)| == PIPESIZE && s.readopen
    ensures !(s.threads[t].op.Reading? && s.threads[t].at == Asleep
              && s.threads[u].op.Writing? && s.threads[u].at == Asleep)
  {
    MissedIff(Initial(n, data), acts);
    hide Run, MissedIn, Window;
    SleepersRight(s, t, u);
  }

  /** Nobody has been killed, and wakeups have been missed only when no reader is left. */
  ghost predicate Unmarked(s: State)
  {
    (forall t :: 0 <= t < |s.threads| ==> !s.threads[t].killed) && (s.missed ==> !s.readopen)
  }

  lemma {:induction false} NoKillRun(s: State, acts: seq<Action>)
    requires Good(s) && Unmarked(s) && Run(s, acts).Some? && forall k :: 0 <= k < |acts| ==> !acts[k].Kill?
    ensures Unmarked(Run(s, acts).value)
    decreases |acts|
  {
    if acts != [] {
      StepMarks(s, acts[0]);
      StepMissed(s, acts[0]);
      StepGood(s, acts[0]);
      hide Step, Inv, AllRecorded, Apart, Ends;
      NoKillRun(Step(s, acts[0]).value, acts[1..]);
    }
  }

  /** As long as nobody is killed no wakeup is lost. */
  lemma {:induction false} NoKillNoLoss(n: nat, data: seq<Byte>, acts: seq<Action>, s: State, t: nat)
    requires |data| == PIPESIZE && Run(Initial(n, data), acts) == Some(s) && s.lock.None?
    requires forall k :: 0 <= k < |acts| ==> !acts[k].Kill?
    requires t < |s.threads| && s.threads[t].op.Reading? && s.threads[t].at == Asleep
    ensures Fits(s.ring) && Window(s.ring) == [] && s.writeopen
  {
    var s0 := Initial(n, data);
    InitialInv(n, data);
    NoKillRun(s0, acts);
    ReachableInv(s);
    SleepersRight(s, t, t);
    assert ThreadOk(s, t);
    hide Run, AllRecorded, Apart, Ends, Window;
  }

  // ---- a lost wakeup

  lemma {:induction false} RunSnoc(s: State, acts: seq<Action>, mid: State, a: Action, s': State)
    requires |s.ring.data| == PIPESIZE && Run(s, acts) == Some(mid) && |mid.ring.data| == PIPESIZE
    requires Step(mid, a) == Some(s') && |s'.ring.data| == PIPESIZE
    ensures Run(s, acts + [a]) == Some(s')
    decreases |acts|
  {
    hide Step;
    if acts == [] {
      assert acts + [a] == [a] && [a][1..] == [];
    } else {
      assert (acts + [a])[0] == acts[0] && (acts + [a])[1..] == acts[1..] + [a];
      RunSnoc(Step(s, acts[0]).value, acts[1..], mid, a, s');
    }
  }

  lemma ReachStep(s: State, a: Action, s': State)
    requires Reachable(s) && |s.ring.data| == PIPESIZE && Step(s, a) == Some(s')
    ensures Reachable(s') && |s'.ring.data| == PIPESIZE
  {
    ReachableInv(s);
    StepKeeps(s, a);
    hide Step, Run, AllRecorded, Apart, Ends, ThreadsOk;
    var n: nat, data: seq<Byte>, acts :| |data| == PIPESIZE && Run(Initial(n, data), acts) == Some(s);
    RunSnoc(Initial(n, data), acts, s, a, s');
  }

  /** The pipe of two threads, `p` and `q`, with both ends open. */
  ghost predicate Two(s: State, ring: Ring, p: Thread, q: Thread, lock: Option<nat>, table: Option<nat>)
  {
    && Reachable(s) && s.ring == ring && |ring.data| == PIPESIZE && s.threads == [p, q]
    && s.lock == lock && s.table == table && s.readopen && s.writeopen && !s.rdone && !s.wdone
  }

  lemma TwoPass(s: State, ring: Ring, p: Thread, q: Thread, lock: Option<nat>, table: Option<nat>, t: nat)
    returns (s': State)
    requires Two(s, ring, p, q, lock, table) && t < 2 && (if t == 0 then p.op.Reading? else q.op.Writing?)
    requires LockStep(s, t).Some?
    ensures Two(s', ring, if t == 0 then Passed(p) else p, if t == 0 then q else Passed(q), s'.lock, s'.table)
    ensures s' == LockStep(s, t).value
  {
    s' := LockStep(s, t).value;
    ReachStep(s, Go(t), s');
    LockShape(s, t);
    hide Reachable, Passed, LockStep;
  }

  lemma TwoAt(s: State, ring: Ring, p: Thread, q: Thread, lock: Option<nat>, at: Point) returns (s': State)
    requires Two(s, ring, p, q, lock, None) && p.op.Reading? && Step(s, Go(0)) == Some(At(s, 0, at))
    ensures Two(s', ring, p.(at := at), q, lock, None)
  {
    s' := At(s, 0, at);
    ReachStep(s, Go(0), s');
    hide Reachable, Step;
  }

  lemma LockOf(s: State, t: nat)
    requires t < |s.threads| && LockStep(s, t).Some?
    ensures var r, at := LockStep(s, t).value, s.threads[t].at;
      && r.lock == (if at == Acquire then Some(t) else if at in {SleepRelease, Release, Fail} then None else s.lock)
      && r.table == (if at == SleepAcquire then Some(t) else if at == SleepSet then None else s.table)
  {
    hide Locked;
    LockResults(s, t);
  }

  /** A reader finds the pipe empty and goes to sleep. */
  lemma ReaderSleeps(data: seq<Byte>) returns (s: State)
    requires |data| == PIPESIZE
    ensures Two(s, Ring(data, 0, 0), Thread(Reading(1, [], 0), Asleep, false), Thread(Idle, Release, false), None, None)
  {
    var s0, i, ring, op := Initial(2, data), Thread(Idle, Release, false), Ring(data, 0, 0), Reading(1, [], 0);
    assert Run(s0, []) == Some(s0);
    s := BeginStep(s0, 0, Read(1)).value;
    BeginShape(s0, 0, Read(1));
    ReachStep(s0, Begin(0, Read(1)), s);
    assert Two(s, ring, Thread(op, Acquire, false), i, None, None);
    hide Two, Reachable;
    s := SleeperPasses(s, ring, op, i);
  }

  lemma SleeperPasses(s0: State, ring: Ring, op: Op, i: Thread) returns (s: State)
    requires Two(s0, ring, Thread(op, Acquire, false), i, None, None) && op.Reading? && ring.nread == ring.nwrite
    ensures Two(s, ring, Thread(op, Asleep, false), i, None, None)
  {
    hide Reachable, Locked;
    LockOf(s0, 0);
    s := TwoPass(s0, ring, Thread(op, Acquire, false), i, None, None, 0);
    assert Two(s, ring, Thread(op, Loop, false), i, Some(0), None);
    s := TwoAt(s, ring, Thread(op, Loop, false), i, Some(0), SleepAcquire);
    LockOf(s, 0);
    s := TwoPass(s, ring, Thread(op, SleepAcquire, false), i, Some(0), None, 0);
    LockOf(s, 0);
    s := TwoPass(s, ring, Thread(op, SleepRelease, false), i, Some(0), Some(0), 0);
    LockOf(s, 0);
    s := TwoPass(s, ring, Thread(op, SleepSet, false), i, None, Some(0), 0);
  }

  /** A killed writer comes in while the reader sleeps. */
  lemma WriterEnters(data: seq<Byte>, buf: seq<Byte>) returns (s: State)
    requires |data| == PIPESIZE
    ensures Two(s, Ring(data, 0, 0), Thread(Reading(1, [], 0), Asleep, false),
      Thread(Writing(buf, 0, |s.stored|), Loop, true), Some(1), None)
  {
    var r, ring := Thread(Reading(1, [], 0), Asleep, false), Ring(data, 0, 0);
    var s0 := ReaderSleeps(data);
    var s1 := KillStep(s0, 1).value;
    ReachStep(s0, Kill(1), s1);
    assert Two(s1, ring, r, Thread(Idle, Release, true), None, None);
    var s2 := BeginStep(s1, 1, Write(buf)).value;
    BeginShape(s1, 1, Write(buf));
    ReachStep(s1, Begin(1, Write(buf)), s2);
    var w := Thread(Writing(buf, 0, |s2.stored|), Acquire, true);
    assert Two(s2, ring, r, w, None, None);
    hide Reachable;
    LockOf(s2, 1);
    s := TwoPass(s2, ring, r, w, None, None, 1);
    LockShape(s2, 1);
  }

  /** It stores as many bytes as fit. */
  lemma {:induction false} WriterFills(s0: State, r: Thread, buf: seq<Byte>, i: nat, since: nat) returns (s: State)
    requires Two(s0, s0.ring, r, Thread(Writing(buf, i, since), Loop, true), Some(1), None)
    requires Fits(s0.ring) && |Window(s0.ring)| == i <= PIPESIZE < |buf|
    ensures Two(s, s.ring, r, Thread(Writing(buf, PIPESIZE, since), Loop, true), Some(1), None)
    ensures Fits(s.ring) && |Window(s.ring)| == PIPESIZE
    decreases PIPESIZE - i
  {
    TestsExact(s0.ring);
    if i == PIPESIZE {
      s := s0;
    } else {
      PutAppends(s0.ring, buf[i]);
      hide Reachable, Window, Fits, Put, Full;
      var s1 := Gave(s0, 1, buf[i], Put(s0.ring, buf[i]));
      ReachStep(s0, Go(1), s1);
      s := WriterFills(s1, r, buf, i + 1, since);
    }
  }

  /** The failing run: a reader sleeps on the empty pipe, a killed writer fills it and returns
      without waking the reader, which sleeps on over a full pipe while nobody else is active. */
  lemma LostWakeup(data: seq<Byte>, buf: seq<Byte>) returns (s: State)
    requires |data| == PIPESIZE < |buf|
    ensures Reachable(s) && s.lock.None? && s.table.None? && |s.threads| == 2 && s.writeopen
    ensures s.threads[0].op.Reading? && s.threads[0].at == Asleep && s.threads[1].op.Idle?
    ensures Fits(s.ring) && |Window(s.ring)| == PIPESIZE
  {
    var r := Thread(Reading(1, [], 0), Asleep, false);
    var s0 := WriterEnters(data, buf);
    TestsExact(s0.ring);
    var since := |s0.stored|;
    var s1 := WriterFills(s0, r, buf, 0, since);
    TestsExact(s1.ring);
    hide Window, Fits, Full, Reachable;
    var w := Thread(Writing(buf, PIPESIZE, since), Fail, true);
    var s2 := Gone(s1, 1);
    ReachStep(s1, Go(1), s2);
    LockOf(s2, 1);
    s := TwoPass(s2, s2.ring, r, w, Some(1), None, 1);
  }

  /** The pipe is freed exactly when both ends are shut and nobody holds its lock; then no call is
      under way and none can begin or go on, so nobody uses it and nobody frees it again. */
  lemma FreedAlone(s: State)
    requires Reachable(s)
    ensures s.freed <==> !s.readopen && !s.writeopen && s.lock.None?
    ensures s.freed ==> (forall u :: 0 <= u < |s.threads| ==> s.threads[u].op.Idle?)
    ensures s.freed ==> |s.ring.data| == PIPESIZE && forall a: Action :: !a.Kill? ==> Step(s, a).None?
  {
    ReachableInv(s);
    assert s.lock.Some? ==> ThreadOk(s, s.lock.value);
    hide AllRecorded, Apart;
  }

  /** The bytes taken are a prefix of the bytes stored, and the rest is the ring's window. */
  lemma BytesInOrder(s: State)
    requires Reachable(s)
    ensures Fits(s.ring) && Bytes(s.stored) == Bytes(s.taken) + Window(s.ring) && |Window(s.ring)| <= PIPESIZE
  {
    ReachableInv(s);
  }

  /** How calls end.  A read that returns a number returns 0 of n > 0 only from an empty pipe whose
      write end is closed, whether or not its caller has been killed, and a write that returns a
      number has stored its whole buffer, in order.  A call that returns -1 is a read whose caller
      has been killed, over an empty pipe with an open write end, or a write that falls short, over a
      full pipe whose read end is closed or whose caller has been killed.  A read returns just what
      it took. */
  lemma CallsEnd(s: State, t: nat)
    requires Reachable(s) && t < |s.threads| && !s.threads[t].op.Idle? && s.threads[t].at in {Release, Fail}
    ensures Fits(s.ring)
    ensures var p := s.threads[t].op;
      s.threads[t].at == Release ==>
        && (p.Reading? && p.n > 0 && p.got == [] ==> Window(s.ring) == [] && !s.writeopen)
        && (p.Writing? ==> p.i == |p.buf| && p.since <= |s.stored| && Own(s.stored[p.since..], t) == p.buf)
    ensures var p, k := s.threads[t].op, s.threads[t].killed;
      s.threads[t].at == Fail ==>
        && (p.Reading? ==> p.got == [] && Window(s.ring) == [] && s.writeopen && k)
        && (p.Writing? ==> p.i < |p.buf| && |Window(s.ring)| == PIPESIZE && (!s.readopen || k))
        && !p.Closing?
    ensures var p := s.threads[t].op;
      p.Reading? ==> p.since <= |s.taken| && Own(s.taken[p.since..], t) == p.got && |p.got| <= p.n
  {
    ReachableInv(s);
    TestsExact(s.ring);
    assert ThreadOk(s, t) && Recorded(s, t);
    hide Own;
  }

  /** The protocol never locks up: as long as some call is neither finished nor asleep, some
      thread can move. */
  lemma Progress(s: State, t: nat)
    requires Reachable(s) && t < |s.threads| && !s.threads[t].op.Idle? && s.threads[t].at != Asleep
    ensures exists u :: 0 <= u < |s.threads| && |s.ring.data| == PIPESIZE && Step(s, Go(u)).Some?
  {
    hide Shared, AllRecorded, Apart, Ends, Step;
    ReachableInv(s);
    SharedFacts(s);
    var u := if s.table.Some? then s.table.value else if s.lock.Some? then s.lock.value else t;
    assert ThreadOk(s, t) && ThreadOk(s, u);
    CanMove(s, u);
  }

  lemma SharedFacts(s: State)
    requires Shared(s)
    ensures |s.ring.data| == PIPESIZE
    ensures (s.lock.Some? ==> s.lock.value < |s.threads|) && (s.table.Some? ==> s.table.value < |s.threads|)
  {
  }

  /** A call that is awake can move when both locks are free or its own. */
  lemma CanMove(s: State, u: nat)
    requires |s.ring.data| == PIPESIZE && u < |s.threads| && !s.threads[u].op.Idle? && s.threads[u].at != Asleep
    requires CallOk(s, s.threads[u]) && (s.table.Some? ==> HasTable(s.threads[u]))
    requires s.lock.Some? ==> HasLock(s.threads[u]) || HasTable(s.threads[u])
    ensures Step(s, Go(u)).Some?
  {
    hide At, Woke, Gone, Gave, Took, Shut, Closed, Locked, Put, Get, Front, Empty, Full, MaySleep;
  }
}
