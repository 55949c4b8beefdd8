/** Sleep locks (kernel/sleeplock.c) over spin locks and sleep/wakeup (kernel/proc.c): any number of
    processes contend for one lock, in any interleaving. */
module SleepLocks {
  import opened Options

  /** Where a process is.  EnterAcquire and EnterRelease wait for the spin lock; Test is the head of
      the while loop; the three Sleep points are the steps of sleep; Got is behind the loop with the
      spin lock still held; Hold is between acquiresleep and releasesleep. */
  datatype Point =
    Idle | EnterAcquire | Test | SleepTable | SleepUnlock | SleepSet | Asleep | Got | Hold | EnterRelease
      | Clear | Wake | Leave

  /** The fields of the lock, the holders of its spin lock and of ptable.lock, and the processes. */
  datatype State = State(locked: bool, pid: nat, spin: Option<nat>, table: Option<nat>, at: seq<Point>)

  function PidOf(t: nat): nat { t + 1 }

  predicate HasSpin(p: Point) { p in {Test, SleepTable, SleepUnlock, Got, Clear, Wake, Leave} }
  predicate HasTable(p: Point) { p in {SleepUnlock, SleepSet} }
  predicate Owns(p: Point) { p in {Got, Hold, EnterRelease, Clear} }

  function Initial(n: nat): State { State(false, 0, None, None, seq(n, _ => Idle)) }

  function Woken(at: seq<Point>): (r: seq<Point>)
    ensures |r| == |at| && forall u :: 0 <= u < |at| ==> r[u] == if at[u] == Asleep then EnterAcquire else at[u]
  {
    seq(|at|, u requires 0 <= u < |at| => if at[u] == Asleep then EnterAcquire else at[u])
  }

  function Goto(s: State, t: nat, p: Point): State
    requires t < |s.at|
  {
    s.(at := s.at[t := p])
  }

  /** The next step of process `t`; an idle one calls acquiresleep, a holder releasesleep. */
  function Step(s: State, t: nat): Option<State>
  {
    if t >= |s.at| then None
    else match s.at[t]
      case Idle => Some(Goto(s, t, EnterAcquire))
      case EnterAcquire => if s.spin.None? then Some(Goto(s, t, Test).(spin := Some(t))) else None
      case Test => Some(if s.locked then Goto(s, t, SleepTable) else Goto(s, t, Got).(locked := true, pid := PidOf(t)))
      case SleepTable => if s.table.None? then Some(Goto(s, t, SleepUnlock).(table := Some(t))) else None
      case SleepUnlock => Some(Goto(s, t, SleepSet).(spin := None))
      case SleepSet => Some(Goto(s, t, Asleep).(table := None))
      case Asleep => None
      case Got => Some(Goto(s, t, Hold).(spin := None))
      case Hold => Some(Goto(s, t, EnterRelease))
      case EnterRelease => if s.spin.None? then Some(Goto(s, t, Clear).(spin := Some(t))) else None
      case Clear => Some(Goto(s, t, Wake).(locked := false, pid := 0))
      case Wake => if s.table.None? then Some(Goto(s.(at := Woken(s.at)), t, Leave)) else None
      case Leave => Some(Goto(s, t, Idle).(spin := None))
  }

  /** kill, under ptable.lock, makes a sleeper runnable: it goes back to the test. */
  function Killed(s: State, t: nat): Option<State>
  {
    if t >= |s.at| || s.table.Some? then None
    else Some(if s.at[t] == Asleep then Goto(s, t, EnterAcquire) else s)
  }

  /** kill moves a sleeper to the test and nobody else, and leaves the lock alone. */
  lemma KillLaw(s: State, t: nat)
    requires t < |s.at|
    ensures Killed(s, t).Some? <==> s.table.None?
    ensures Killed(s, t).Some? ==>
      var s' := Killed(s, t).value;
      && |s'.at| == |s.at| && s'.at[t] == (if s.at[t] == Asleep then EnterAcquire else s.at[t])
      && (forall u :: 0 <= u < |s.at| && u != t ==> s'.at[u] == s.at[u])
      && s'.locked == s.locked && s'.pid == s.pid && s'.spin == s.spin && s'.table == s.table
  {
  }

  datatype Turn = Go(t: nat) | Kill(t: nat)

  function Move(s: State, turn: Turn): Option<State>
  {
    match turn case Go(t) => Step(s, t) case Kill(t) => Killed(s, t)
  }

  // ---- the invariant

  /** A sleeper is waiting for a lock that is held, or the spin lock's holder is about to wake it. */
  predicate Attended(s: State) { s.locked || (s.spin.Some? && s.spin.value < |s.at| && s.at[s.spin.value] == Wake) }

  predicate ThreadOk(s: State, t: nat)
    requires t < |s.at|
  {
    var p := s.at[t];
    && (HasSpin(p) <==> s.spin == Some(t))
    && (HasTable(p) <==> s.table == Some(t))
    && (Owns(p) ==> s.locked && s.pid == PidOf(t))
    && (p in {SleepTable, SleepUnlock} ==> s.locked)
    && (p in {SleepSet, Asleep} ==> Attended(s))
    && (p == Wake ==> !s.locked)
  }

  ghost predicate Inv(s: State)
  {
    && (s.spin.Some? ==> s.spin.value < |s.at|) && (s.table.Some? ==> s.table.value < |s.at|)
    && (s.locked <==> exists t :: 0 <= t < |s.at| && Owns(s.at[t]))
    && (!s.locked ==> s.pid == 0)
    && forall t :: 0 <= t < |s.at| ==> ThreadOk(s, t)
  }

  lemma InitialInv(n: nat)
    ensures Inv(Initial(n))
  {
  }

  /** Nobody else owns the lock when `t` does. */
  lemma OneOwner(s: State, t: nat, u: nat)
    requires Inv(s) && t < |s.at| && u < |s.at| && Owns(s.at[t]) && Owns(s.at[u])
    ensures t == u
  {
    assert ThreadOk(s, t) && ThreadOk(s, u);
  }

  lemma StepOther(s: State, t: nat, u: nat)
    requires Inv(s) && t < |s.at| && u < |s.at| && u != t && Step(s, t).Some?
    ensures ThreadOk(Step(s, t).value, u)
  {
    assert ThreadOk(s, t) && ThreadOk(s, u);
    if Owns(s.at[t]) && Owns(s.at[u]) { OneOwner(s, t, u); }
  }

  lemma StepSelf(s: State, t: nat)
    requires Inv(s) && t < |s.at| && Step(s, t).Some?
    ensures ThreadOk(Step(s, t).value, t)
  {
    assert ThreadOk(s, t);
  }

  lemma StepOwner(s: State, t: nat)
    requires Inv(s) && t < |s.at| && Step(s, t).Some?
    ensures var s' := Step(s, t).value; s'.locked <==> exists u :: 0 <= u < |s'.at| && Owns(s'.at[u])
  {
    var s' := Step(s, t).value;
    assert ThreadOk(s, t);
    if s.locked && s.at[t] != Clear {
      var u :| 0 <= u < |s.at| && Owns(s.at[u]);
      assert Owns(s'.at[u]);
    }
    if s.at[t] == Test && !s.locked { assert Owns(s'.at[t]); }
    forall u | 0 <= u < |s'.at| && Owns(s'.at[u]) ensures s'.locked {
      assert u != t ==> Owns(s.at[u]);
      if u != t && Owns(s.at[t]) { OneOwner(s, t, u); }
    }
  }

  lemma StepKeeps(s: State, t: nat)
    requires Inv(s) && Step(s, t).Some?
    ensures Inv(Step(s, t).value)
  {
    StepOwner(s, t);
    assert ThreadOk(s, t);
    hide Attended, ThreadOk;
    forall u | 0 <= u < |s.at| ensures ThreadOk(Step(s, t).value, u) {
      if u == t { StepSelf(s, t); } else { StepOther(s, t, u); }
    }
  }

  lemma KilledKeeps(s: State, t: nat)
    requires Inv(s) && Killed(s, t).Some?
    ensures Inv(Killed(s, t).value)
  {
    var s' := Killed(s, t).value;
    assert ThreadOk(s, t);
    if s.locked {
      var u :| 0 <= u < |s.at| && Owns(s.at[u]);
      assert Owns(s'.at[u]);
    }
    forall u | 0 <= u < |s'.at| ensures ThreadOk(s', u) { assert ThreadOk(s, u); }
  }

  // ---- what holds in every run

  /** `turns` names, step by step, the process that moves or is killed. */
  ghost predicate Reaches(s: State, turns: seq<Turn>, s': State)
    decreases |turns|
  {
    if turns == [] then s' == s else Move(s, turns[0]).Some? && Reaches(Move(s, turns[0]).value, turns[1..], s')
  }

  lemma {:induction false} RunKeeps(s: State, turns: seq<Turn>, s': State)
    requires Inv(s) && Reaches(s, turns, s')
    ensures Inv(s')
    decreases |turns|
  {
    if turns != [] {
      if turns[0].Go? { StepKeeps(s, turns[0].t); } else { KilledKeeps(s, turns[0].t); }
      hide Inv, Step, Killed;
      RunKeeps(Move(s, turns[0]).value, turns[1..], s');
    }
  }

  /** At most one process is between acquiresleep and releasesleep, the lock's pid is its own, and
      with the spin lock free a sleeper waits for a holder that is there. */
  lemma MutualExclusion(n: nat, turns: seq<Turn>, s: State, t: nat, u: nat)
    requires Reaches(Initial(n), turns, s) && t < |s.at| && u < |s.at|
    ensures s.at[t] == Hold && s.at[u] == Hold ==> t == u
    ensures s.at[t] == Hold ==> s.locked && s.pid == PidOf(t)
    ensures s.at[t] == Asleep && s.spin.None? ==> exists h :: 0 <= h < |s.at| && s.at[h] in {Hold, EnterRelease}
  {
    InitialInv(n);
    RunKeeps(Initial(n), turns, s);
    assert ThreadOk(s, t) && ThreadOk(s, u);
    if s.at[t] == Asleep && s.spin.None? {
      var h :| 0 <= h < |s.at| && Owns(s.at[h]);
      assert ThreadOk(s, h);
    }
  }

  /** Contenders never lock up: while any process is inside acquiresleep or releasesleep or holds the
      lock, one such process can move. */
  lemma Progress(n: nat, turns: seq<Turn>, s: State, t: nat)
    requires Reaches(Initial(n), turns, s) && t < |s.at| && s.at[t] != Idle
    ensures exists u :: 0 <= u < |s.at| && s.at[u] != Idle && Step(s, u).Some?
  {
    InitialInv(n);
    RunKeeps(Initial(n), turns, s);
    assert ThreadOk(s, t);
    var u := t;
    if s.table.Some? {
      u := s.table.value;
    } else if s.spin.Some? {
      u := s.spin.value;
    } else if s.at[t] == Asleep {
      u :| 0 <= u < |s.at| && Owns(s.at[u]);
    }
    assert ThreadOk(s, u);
    assert s.at[u] != Idle && Step(s, u).Some?;
  }

  /** holdingsleep answers whether anyone holds the lock: it is right about its caller exactly if no
      other process holds it. */
  lemma HoldingSleepIff(n: nat, turns: seq<Turn>, s: State, t: nat)
    requires Reaches(Initial(n), turns, s) && t < |s.at| && s.spin.None?
    ensures s.locked == (s.at[t] in {Hold, EnterRelease}) <==>
            !exists u :: 0 <= u < |s.at| && u != t && s.at[u] in {Hold, EnterRelease}
  {
    InitialInv(n);
    RunKeeps(Initial(n), turns, s);
    assert ThreadOk(s, t);
    if u :| 0 <= u < |s.at| && u != t && s.at[u] in {Hold, EnterRelease} {
      assert ThreadOk(s, u);
      assert Owns(s.at[u]);
    }
    if s.locked {
      var h :| 0 <= h < |s.at| && Owns(s.at[h]);
      assert ThreadOk(s, h);
    }
  }

  /** A process that holds the lock is always answered right. */
  lemma HolderAnswered(n: nat, turns: seq<Turn>, s: State, t: nat)
    requires Reaches(Initial(n), turns, s) && t < |s.at| && s.at[t] == Hold
    ensures s.locked
  {
    MutualExclusion(n, turns, s, t, t);
  }

  /** Two processes, of which the first acquires the lock: asked by the second, holdingsleep says yes. */
  lemma HoldingSleepWrong()
    ensures exists turns, s :: Reaches(Initial(2), turns, s) && s.spin.None? && s.locked && s.at == [Hold, Idle]
  {
    var s0, g := Initial(2), Go(0);
    assert s0.at == [Idle, Idle];
    var s1 := Step(s0, 0).value;
    var s2 := Step(s1, 0).value;
    var s3 := Step(s2, 0).value;
    var s4 := Step(s3, 0).value;
    assert Reaches(s4, [], s4);
    assert [g][1..] == [] && [g, g][1..] == [g] && [g, g, g][1..] == [g, g] && [g, g, g, g][1..] == [g, g, g];
    assert Reaches(s3, [g], s4);
    assert Reaches(s2, [g, g], s4);
    assert Reaches(s1, [g, g, g], s4);
    assert Reaches(s0, [g, g, g, g], s4);
    assert s4.at == [Hold, Idle];
  }
}
