/** The byte ring of kernel/pipe.c: a 512-byte buffer and two 32-bit counters that wrap. */
module PipeRing {
  const PIPESIZE: nat := 512
  const U32: nat := 0x1_0000_0000

  type Byte = bv8

  datatype Ring = Ring(data: seq<Byte>, nread: nat, nwrite: nat)

  predicate Empty(r: Ring) { r.nread == r.nwrite }
  predicate Full(r: Ring) { r.nwrite == (r.nread + PIPESIZE) % U32 }

  /** Bytes in the ring, counted modulo 2^32. */
  function Count(r: Ring): nat
    requires r.nread < U32 && r.nwrite < U32
  {
    (r.nwrite + U32 - r.nread) % U32
  }

  predicate Fits(r: Ring) { |r.data| == PIPESIZE && r.nread < U32 && r.nwrite < U32 && Count(r) <= PIPESIZE }

  /** The bytes waiting to be read, oldest first. */
  function Window(r: Ring): (w: seq<Byte>)
    requires Fits(r)
    ensures |w| == Count(r)
  {
    seq(Count(r), k requires 0 <= k => r.data[(r.nread + k) % PIPESIZE])
  }

  function Put(r: Ring, b: Byte): Ring
    requires |r.data| == PIPESIZE
  {
    Ring(r.data[r.nwrite % PIPESIZE := b], r.nread, (r.nwrite + 1) % U32)
  }

  function Front(r: Ring): Byte
    requires |r.data| == PIPESIZE
  {
    r.data[r.nread % PIPESIZE]
  }

  function Get(r: Ring): Ring { r.(nread := (r.nread + 1) % U32) }

  /** The two tests of the code decide emptiness and fullness, also across wrap-around. */
  lemma TestsExact(r: Ring)
    requires Fits(r)
    ensures Empty(r) <==> Window(r) == []
    ensures Full(r) <==> |Window(r)| == PIPESIZE
  {
  }

  lemma Slot(n: nat, k: nat)
    requires n < U32 && k < U32
    ensures ((n + k) % U32) % PIPESIZE == (n + k) % PIPESIZE
  {
    if n + k >= U32 {
      assert (n + k) % U32 == n + k - U32;
      assert U32 == 8388608 * PIPESIZE;
    }
  }

  lemma SlotsApart(n: nat, k: nat, j: nat)
    requires k < j < k + PIPESIZE
    ensures (n + k) % PIPESIZE != (n + j) % PIPESIZE
  {
  }

  lemma PutCount(r: Ring, b: Byte)
    requires Fits(r) && !Full(r)
    ensures Fits(Put(r, b)) && Count(Put(r, b)) == Count(r) + 1
    ensures r.nwrite % PIPESIZE == (r.nread + Count(r)) % PIPESIZE
  {
    var c, w := Count(r), (r.nwrite + 1) % U32;
    CountIs(r.nread, r.nwrite);
    CountIs(r.nread, w);
    assert c < PIPESIZE by { NotFull(r.nread, r.nwrite, c); }
    Slot(r.nread, c);
  }

  /** The difference of two counters, without the modulus. */
  lemma CountIs(a: nat, b: nat)
    requires a < U32 && b < U32
    ensures (b + U32 - a) % U32 == if a <= b then b - a else b + U32 - a
    ensures (b + 1) % U32 == if b + 1 == U32 then 0 else b + 1
  {
  }

  lemma NotFull(a: nat, b: nat, c: nat)
    requires a < U32 && b < U32 && c == (if a <= b then b - a else b + U32 - a) && b != (a + PIPESIZE) % U32
    ensures c != PIPESIZE
  {
  }

  /** Storing appends: no unread byte is overwritten. */
  lemma PutAppends(r: Ring, b: Byte)
    requires Fits(r) && !Full(r)
    ensures Fits(Put(r, b)) && Window(Put(r, b)) == Window(r) + [b]
  {
    hide Count, Full;
    var s, c := Put(r, b), Count(r);
    PutCount(r, b);
    forall k | 0 <= k < c ensures Window(s)[k] == Window(r)[k] {
      SlotsApart(r.nread, k, c);
    }
  }

  /** Taking removes the oldest byte. */
  lemma GetRemoves(r: Ring)
    requires Fits(r) && !Empty(r)
    ensures Fits(Get(r)) && Window(r) == [Front(r)] + Window(Get(r))
  {
    var s := Get(r);
    assert Count(s) == Count(r) - 1;
    forall k | 0 <= k < Count(s) ensures Window(s)[k] == Window(r)[k + 1] {
      NextSlot(r.nread, k);
    }
  }

  lemma NextSlot(n: nat, k: nat)
    requires n < U32
    ensures ((n + 1) % U32 + k) % PIPESIZE == (n + 1 + k) % PIPESIZE
  {
    if n + 1 == U32 { assert U32 == 8388608 * PIPESIZE; }
  }

  class Pipe {
    const data: array<Byte>
    var nread: nat
    var nwrite: nat
    var readopen: bool
    var writeopen: bool

    ghost predicate Valid()
      reads this, data
    {
      data.Length == PIPESIZE && Fits(R())
    }

    function R(): Ring
      reads this, data
    {
      Ring(data[..], nread, nwrite)
    }

    constructor ()
      ensures Valid() && fresh(data) && Window(R()) == [] && readopen && writeopen
    {
      data := new Byte[PIPESIZE](_ => 0);
      nread, nwrite := 0, 0;
      readopen, writeopen := true, true;
    }

    /** The stores of pipewrite between two sleeps: bytes of `addr` from `i` on, until all are
        stored or the ring is full. */
    method StoreUntilFull(addr: seq<Byte>, i: nat) returns (j: nat)
      requires Valid() && i <= |addr|
      modifies this`nwrite, data
      ensures Valid() && i <= j <= |addr| && nread == old(nread)
      ensures Window(R()) == old(Window(R())) + addr[i..j]
      ensures j == |addr| || Full(R())
    {
      j := i;
      while j < |addr|
        invariant Valid() && i <= j <= |addr| && nread == old(nread)
        invariant Window(R()) == old(Window(R())) + addr[i..j]
      {
        if nwrite == (nread + PIPESIZE) % U32 { return; }
        PutAppends(R(), addr[j]);
        ghost var w := Put(R(), addr[j]);
        data[nwrite % PIPESIZE] := addr[j];
        nwrite := (nwrite + 1) % U32;
        assert R() == w;
        assert addr[i..j + 1] == addr[i..j] + [addr[j]];
        j := j + 1;
      }
    }

    /** The copy loop of piperead: the oldest bytes, `n` of them or as many as there are. */
    method CopyOut(n: nat) returns (got: seq<Byte>)
      requires Valid()
      modifies this`nread
      ensures Valid() && old(Window(R())) == got + Window(R())
      ensures |got| == if n < |old(Window(R()))| then n else |old(Window(R()))|
    {
      hide Fits, Window, Count;
      got := [];
      var i := 0;
      while i < n
        invariant data.Length == PIPESIZE && Fits(R()) && 0 <= i <= n && |got| == i
        invariant old(Window(R())) == got + Window(R())
      {
        TestsExact(R());
        if nread == nwrite { return; }
        GetRemoves(R());
        ghost var r := Get(R());
        assert got + Window(R()) == got + [Front(R())] + Window(r);
        got := got + [data[nread % PIPESIZE]];
        nread := (nread + 1) % U32;
        assert R() == r;
        i := i + 1;
      }
    }
  }
}

/** Pipe readers, writers and closers as threads that interleave at lock operations and at the
    steps of sleep and wakeup (kernel/pipe.c, kernel/proc.c). */
module PipeProtocol {
  import opened Options
  import opened PipeRing

  /** Where a thread is inside its call.  Acquire waits for the pipe lock (at entry, or after
      being woken); SleepAcquire to SleepSet are the steps of sleep: take ptable.lock, release
      the pipe lock, become SLEEPING and give up ptable.lock.  Release is the release before a
      return of the number of bytes moved, Fail the release before a return of -1. */
  datatype Point =
    Acquire | Loop | Copy | SleepWake | SleepAcquire | SleepRelease | SleepSet | Asleep | Wake | Release | Fail

  /** The calls; `since` is how much had been stored, or taken, when the call began. */
  datatype Op =
    | Idle
    | Writing(buf: seq<Byte>, i: nat, since: nat)
    | Reading(n: nat, got: seq<Byte>, since: nat)
    | Closing(writable: bool)

  /** `killed` is the mark that kill leaves on the process. */
  datatype Thread = Thread(op: Op, at: Point, killed: bool)

  datatype Call = Write(buf: seq<Byte>) | Read(n: nat) | Close(writable: bool)
  datatype Action = Begin(t: nat, call: Call) | Go(t: nat) | Kill(t: nat)

  /** A byte that thread `t` stored or took. */
  datatype Event = Event(t: nat, b: Byte)

  /** `lock` and `table` are the holders of the pipe lock and of ptable.lock; `rdone` and `wdone`
      say that the last descriptor of that end has been dropped; `stored` and `taken` record all
      bytes that went into and came out of the pipe, in lock order.  `missed` records that a writer
      has left a full pipe without the wakeup, and that since then the readers have not been woken
      and the pipe has not been emptied; `freed` that pipeclose has freed the pipe. */
  datatype State = State(ring: Ring, readopen: bool, writeopen: bool, rdone: bool, wdone: bool,
                         lock: Option<nat>, table: Option<nat>, threads: seq<Thread>,
                         stored: seq<Event>, taken: seq<Event>, missed: bool, freed: bool)

  predicate HasLock(p: Thread)
  {
    !p.op.Idle? && p.at in {Loop, Copy, SleepWake, SleepAcquire, SleepRelease, Wake, Release, Fail}
  }

  predicate HasTable(p: Thread) { !p.op.Idle? && p.at in {SleepRelease, SleepSet} }

  function Initial(n: nat, data: seq<Byte>): State
  {
    State(Ring(data, 0, 0), true, true, false, false, None, None, seq(n, _ => Thread(Idle, Release, false)), [], [],
          false, false)
  }

  /** wakeup1 on the readers' channel (`nread`) or the writers' channel (`nwrite`). */
  function Woken(ts: seq<Thread>, readers: bool): (r: seq<Thread>)
    ensures |r| == |ts|
    ensures forall u :: 0 <= u < |ts| ==> r[u] == WokenOne(ts[u], readers)
  {
    seq(|ts|, u requires 0 <= u < |ts| => WokenOne(ts[u], readers))
  }

  function WokenOne(p: Thread, readers: bool): Thread
  {
    if p.at == Asleep && (if readers then p.op.Reading? else p.op.Writing?) then p.(at := Acquire) else p
  }

  function Goto(s: State, t: nat, p: Thread): State
    requires t < |s.threads|
  {
    s.(threads := s.threads[t := p])
  }

  function Wakeup(s: State, readers: bool): State
  {
    s.(threads := Woken(s.threads, readers), missed := s.missed && !readers)
  }

  /** Thread `t` goes on to `at`. */
  function At(s: State, t: nat, at: Point): State
    requires t < |s.threads|
  {
    Goto(s, t, s.threads[t].(at := at))
  }

  /** Thread `t` has called wakeup and goes on to `at`. */
  function Woke(s: State, t: nat, readers: bool, at: Point): State
    requires t < |s.threads|
  {
    Goto(Wakeup(s, readers), t, s.threads[t].(at := at))
  }

  /** The writer `t` leaves a full pipe without wakeup. */
  function Gone(s: State, t: nat): State
    requires t < |s.threads|
  {
    s.(threads := s.threads[t := s.threads[t].(at := Fail)], missed := true)
  }

  /** The writer `t` has stored `b` and left `ring`. */
  function Gave(s: State, t: nat, b: Byte, ring: Ring): State
    requires t < |s.threads| && s.threads[t].op.Writing?
  {
    var op := s.threads[t].op;
    s.(threads := s.threads[t := s.threads[t].(op := Writing(op.buf, op.i + 1, op.since))], ring := ring,
       stored := s.stored + [Event(t, b)])
  }

  /** The reader `t` has taken `b` and left `ring`. */
  function Took(s: State, t: nat, b: Byte, ring: Ring): State
    requires t < |s.threads| && s.threads[t].op.Reading?
  {
    var op := s.threads[t].op;
    s.(threads := s.threads[t := s.threads[t].(op := Reading(op.n, op.got + [b], op.since))], ring := ring,
       taken := s.taken + [Event(t, b)], missed := s.missed && !Empty(ring))
  }

  /** The closer `t` has cleared the flag of its end. */
  function Shut(s: State, t: nat, writable: bool): State
    requires t < |s.threads|
  {
    s.(threads := s.threads[t := s.threads[t].(at := Wake)], readopen := s.readopen && writable,
       writeopen := s.writeopen && !writable)
  }

  /** The closer `t` releases the lock, and frees the pipe when both ends are closed. */
  function Closed(s: State, t: nat): State
    requires t < |s.threads|
  {
    s.(threads := s.threads[t := s.threads[t].(op := Idle)], lock := None,
       freed := s.freed || (!s.readopen && !s.writeopen))
  }

  /** One step of pipewrite. */
  function WriteStep(s: State, t: nat): (r: Option<State>)
    requires t < |s.threads| && s.threads[t].op.Writing? && |s.ring.data| == PIPESIZE
  {
    var p := s.threads[t];
    var buf, i := p.op.buf, p.op.i;
    match p.at
    case Loop =>
      if i >= |buf| then Some(At(s, t, Wake))
      else if Full(s.ring) then Some(if !s.readopen || p.killed then Gone(s, t) else At(s, t, SleepWake))
      else Some(Gave(s, t, buf[i], Put(s.ring, buf[i])))
    case SleepWake => if s.table.None? then Some(Woke(s, t, true, SleepAcquire)) else None
    case Wake => if s.table.None? then Some(Woke(s, t, true, Release)) else None
    case _ => LockStep(s, t)
  }

  /** One step of piperead. */
  function ReadStep(s: State, t: nat): (r: Option<State>)
    requires t < |s.threads| && s.threads[t].op.Reading? && |s.ring.data| == PIPESIZE
  {
    var p := s.threads[t];
    match p.at
    case Loop =>
      Some(At(s, t, if Empty(s.ring) && s.writeopen then if p.killed then Fail else SleepAcquire else Copy))
    case Copy =>
      if |p.op.got| >= p.op.n || Empty(s.ring) then Some(At(s, t, Wake))
      else Some(Took(s, t, Front(s.ring), Get(s.ring)))
    case Wake => if s.table.None? then Some(Woke(s, t, false, Release)) else None
    case _ => LockStep(s, t)
  }

  /** One step of pipeclose. */
  function CloseStep(s: State, t: nat): (r: Option<State>)
    requires t < |s.threads| && s.threads[t].op.Closing?
  {
    var p := s.threads[t];
    match p.at
    case Loop => Some(Shut(s, t, p.op.writable))
    case Wake => if s.table.None? then Some(Woke(s, t, p.op.writable, Release)) else None
    case Release => Some(Closed(s, t))
    case _ => LockStep(s, t)
  }

  /** The steps that only move locks: acquire, release, and the three steps of sleep. */
  function LockStep(s: State, t: nat): (r: Option<State>)
    requires t < |s.threads|
    ensures r.Some? ==> |r.value.threads| == |s.threads|
  {
    match s.threads[t].at
    case Acquire => if s.lock.None? then Some(Locked(s, t, Some(t), s.table)) else None
    case SleepAcquire => if s.table.None? then Some(Locked(s, t, s.lock, Some(t))) else None
    case SleepRelease => Some(Locked(s, t, None, s.table))
    case SleepSet => Some(Locked(s, t, s.lock, None))
    case Release => Some(Locked(s, t, None, s.table))
    case Fail => Some(Locked(s, t, None, s.table))
    case _ => None
  }

  /** Thread `t` passes its lock operation and leaves the locks as given. */
  function Locked(s: State, t: nat, lock: Option<nat>, table: Option<nat>): State
    requires t < |s.threads|
  {
    s.(threads := s.threads[t := Passed(s.threads[t])], lock := lock, table := table)
  }

  predicate LockPoint(at: Point) { at in {Acquire, SleepAcquire, SleepRelease, SleepSet, Release, Fail} }

  /** A thread that has passed its lock operation. */
  function Passed(p: Thread): Thread
  {
    match p.at
    case Acquire => p.(at := Loop)
    case SleepAcquire => p.(at := SleepRelease)
    case SleepRelease => p.(at := SleepSet)
    case SleepSet => p.(at := Asleep)
    case Release => p.(op := Idle)
    case Fail => p.(op := Idle)
    case _ => p
  }

  /** A call begins.  The file layer lets a process use an end only while it holds a descriptor,
      and calls pipeclose when the last descriptor of that end is dropped. */
  function BeginStep(s: State, t: nat, call: Call): (r: Option<State>)
    requires t < |s.threads|
    ensures r.Some? ==> |r.value.threads| == |s.threads|
  {
    if !s.threads[t].op.Idle? then None
    else match call
      case Write(buf) => if s.wdone then None else Some(Began(s, t, Writing(buf, 0, |s.stored|), s.rdone, s.wdone))
      case Read(n) => if s.rdone then None else Some(Began(s, t, Reading(n, [], |s.taken|), s.rdone, s.wdone))
      case Close(w) =>
        if w then if s.wdone || InUse(s, true) then None else Some(Began(s, t, Closing(true), s.rdone, true))
        else if s.rdone || InUse(s, false) then None
        else Some(Began(s, t, Closing(false), true, s.wdone))
  }

  function Began(s: State, t: nat, op: Op, rdone: bool, wdone: bool): State
    requires t < |s.threads|
  {
    s.(threads := s.threads[t := s.threads[t].(op := op, at := Acquire)], rdone := rdone, wdone := wdone)
  }

  /** kill, under ptable.lock: the mark, and a sleeping process is made runnable. */
  function KillStep(s: State, t: nat): (r: Option<State>)
    requires t < |s.threads|
    ensures r.Some? ==> |r.value.threads| == |s.threads|
  {
    var p := s.threads[t];
    if s.table.Some? then None
    else Some(Goto(s, t, p.(killed := true, at := if p.at == Asleep then Acquire else p.at)))
  }

  predicate InUse(s: State, writable: bool)
  {
    exists u :: 0 <= u < |s.threads| && if writable then s.threads[u].op.Writing? else s.threads[u].op.Reading?
  }

  function Step(s: State, a: Action): Option<State>
    requires |s.ring.data| == PIPESIZE
  {
    if a.t >= |s.threads| then None
    else match a
      case Begin(t, call) => BeginStep(s, t, call)
      case Kill(t) => KillStep(s, t)
      case Go(t) =>
        match s.threads[t].op
        case Idle => None
        case Writing(_, _, _) => WriteStep(s, t)
        case Reading(_, _, _) => ReadStep(s, t)
        case Closing(_) => CloseStep(s, t)
  }

  // ---- the invariant

  /** The holder of the pipe lock will call wakeup on that channel before it releases the lock. */
  predicate Owes(s: State, readers: bool)
  {
    && s.lock.Some? && s.lock.value < |s.threads|
    && OwesAt(s.threads[s.lock.value], readers)
  }

  predicate OwesAt(p: Thread, readers: bool)
  {
    if readers then (p.op.Writing? && p.at in {Loop, SleepWake, Wake}) || (p.op == Closing(true) && p.at == Wake)
    else (p.op.Reading? && p.at in {Copy, Wake}) || (p.op == Closing(false) && p.at == Wake)
  }

  /** What a sleeping reader, or writer, waits for has not happened. */
  predicate MaySleep(s: State, reader: bool)
  {
    if reader then Empty(s.ring) && s.writeopen else Full(s.ring) && s.readopen
  }

  /** A sleeping reader, or writer, is still waiting or is about to be woken, or a killed writer
      has failed to wake it. */
  predicate Attended(s: State, reader: bool) { MaySleep(s, reader) || Owes(s, reader) || (reader && s.missed) }

  predicate ThreadOk(s: State, t: nat)
    requires t < |s.threads|
  {
    var p := s.threads[t];
    && (HasLock(p) <==> s.lock == Some(t))
    && (HasTable(p) <==> s.table == Some(t))
    && (Sleeping(p, true) ==> Attended(s, true))
    && (Sleeping(p, false) ==> Attended(s, false))
    && (p.op.Writing? ==> !s.wdone) && (p.op.Reading? ==> !s.rdone)
    && (p.op.Closing? ==> if p.op.writable then s.wdone else s.rdone)
    && CallOk(s, p)
  }

  predicate Sleeping(p: Thread, reader: bool)
  {
    p.at in {SleepSet, Asleep} && if reader then p.op.Reading? else p.op.Writing?
  }

  /** What a call knows at each point; it speaks of the pipe only where the lock is held. */
  predicate CallOk(s: State, p: Thread)
  {
    match p.op
    case Idle => true
    case Writing(buf, i, _) =>
      && i <= |buf| && p.at != Copy
      && (p.at in {SleepWake, SleepAcquire, SleepRelease} ==> MaySleep(s, false))
      && (p.at == Wake ==> i == |buf|)
      && (p.at == Release ==> i == |buf|)
      && (p.at == Fail ==> i < |buf| && Full(s.ring) && (!s.readopen || p.killed))
    case Reading(n, got, _) =>
      && |got| <= n && p.at != SleepWake
      && (p.at !in {Copy, Wake, Release} ==> got == [])
      && (p.at in {SleepAcquire, SleepRelease} ==> MaySleep(s, true))
      && (p.at == Copy && got == [] ==> !Empty(s.ring) || !s.writeopen)
      && (p.at in {Wake, Release} && got == [] && n > 0 ==> Empty(s.ring) && !s.writeopen)
      && (p.at == Fail ==> MaySleep(s, true) && p.killed)
    case Closing(w) =>
      && p.at in {Acquire, Loop, Wake, Release}
      && (p.at in {Wake, Release} ==> if w then !s.writeopen else !s.readopen)
  }

  function Bytes(log: seq<Event>): (r: seq<Byte>)
    ensures |r| == |log| && forall k :: 0 <= k < |log| ==> r[k] == log[k].b
  {
    seq(|log|, k requires 0 <= k < |log| => log[k].b)
  }

  /** The readers can have been missed only over bytes that are there; once the write end is closed
      its closer is about to wake them. */
  predicate MissedOk(s: State) { s.missed ==> !Empty(s.ring) && (s.writeopen || Owes(s, true)) }

  ghost predicate Shared(s: State)
  {
    && Fits(s.ring) && Bytes(s.stored) == Bytes(s.taken) + Window(s.ring)
    && (!s.readopen ==> s.rdone) && (!s.writeopen ==> s.wdone) && MissedOk(s)
    && (s.lock.Some? ==> s.lock.value < |s.threads|)
    && (s.table.Some? ==> s.table.value < |s.threads|)
  }

  ghost predicate ThreadsOk(s: State) { forall t :: 0 <= t < |s.threads| ==> ThreadOk(s, t) }

  ghost predicate Inv(s: State) { Shared(s) && ThreadsOk(s) }

  lemma InitialInv(n: nat, data: seq<Byte>)
    requires |data| == PIPESIZE
    ensures Inv(Initial(n, data))
  {
  }

  // ---- every step keeps it

  /** The other threads keep what they have when `t` moves: `t` may change the pipe only while it
      holds the lock, and may take or drop only its own locks. */
  ghost predicate MovesOnly(s: State, s': State, t: nat)
  {
    && |s'.threads| == |s.threads| && t < |s.threads|
    && (forall u :: 0 <= u < |s.threads| && u != t ==> s'.threads[u] == s.threads[u])
    && (s'.lock == s.lock || (s.lock.None? && s'.lock == Some(t)) || (s.lock == Some(t) && s'.lock.None?))
    && (s'.table == s.table || (s.table.None? && s'.table == Some(t)) || (s.table == Some(t) && s'.table.None?))
    && s'.rdone == s.rdone && s'.wdone == s.wdone
    && (s.lock == Some(t) || (s'.ring == s.ring && s'.readopen == s.readopen && s'.writeopen == s.writeopen))
  }

  ghost predicate NoneSleep(s: State, reader: bool)
  {
    forall u :: 0 <= u < |s.threads| ==> !Sleeping(s.threads[u], reader)
  }

  lemma OthersKeep(s: State, s': State, t: nat)
    requires Inv(s) && MovesOnly(s, s', t)
    requires NoneSleep(s, true) || (Attended(s, true) ==> Attended(s', true))
    requires NoneSleep(s, false) || (Attended(s, false) ==> Attended(s', false))
    requires ThreadOk(s', t)
    ensures ThreadsOk(s')
  {
    hide Attended, Sleeping, MaySleep;
    forall u | 0 <= u < |s'.threads| && u != t ensures ThreadOk(s', u) {
      assert ThreadOk(s, u);
      OtherCall(s, s', s.threads[u]);
    }
  }

  lemma OtherCall(s: State, s': State, p: Thread)
    requires CallOk(s, p)
      && (!HasLock(p) || (s'.ring == s.ring && s'.readopen == s.readopen && s'.writeopen == s.writeopen))
    ensures CallOk(s', p)
  {
  }

  /** After wakeup no thread is left asleep on the channel. */
  lemma WakeupKeeps(s: State, reader: bool)
    requires Inv(s) && s.table.None?
    ensures Inv(Wakeup(s, reader)) && NoneSleep(Wakeup(s, reader), reader)
  {
    var s' := Wakeup(s, reader);
    forall u | 0 <= u < |s.threads| ensures ThreadOk(s', u) && !Sleeping(s'.threads[u], reader) {
      assert ThreadOk(s, u);
      WokenOwes(s, reader);
    }
  }

  lemma WokenOwes(s: State, reader: bool)
    ensures Owes(s, true) ==> Owes(Wakeup(s, reader), true)
    ensures Owes(s, false) ==> Owes(Wakeup(s, reader), false)
  {
  }

  /** A step of a call after it has called wakeup. */
  lemma AfterWakeup(s: State, t: nat, reader: bool, at: Point)
    requires Inv(s) && s.table.None? && t < |s.threads| && s.lock == Some(t) && at in {SleepAcquire, Release}
    requires var p := s.threads[t]; !OwesAt(p, !reader) && CallOk(s, p.(at := at)) && HasLock(p.(at := at))
    ensures Inv(Woke(s, t, reader, at))
  {
    var w := Wakeup(s, reader);
    WakeupKeeps(s, reader);
    assert ThreadOk(s, t) && ThreadOk(w, t);
    OthersKeep(w, Goto(w, t, s.threads[t].(at := at)), t);
  }

  /** A step inside the critical section that changes nothing but the thread's point. */
  lemma AtKeeps(s: State, t: nat, at: Point)
    requires Inv(s) && t < |s.threads| && s.lock == Some(t)
    requires var p := s.threads[t];
      && HasLock(p) && !HasTable(p) && HasLock(p.(at := at)) && !HasTable(p.(at := at)) && CallOk(s, p.(at := at))
      && forall r :: OwesAt(p, r) ==> OwesAt(p.(at := at), r)
    ensures Inv(At(s, t, at))
  {
    var p, s' := s.threads[t], At(s, t, at);
    assert ThreadOk(s, t);
    SameMaySleep(s, s');
    SameCall(s, s', p.(at := at));
    assert Shared(s');
    hide Shared, CallOk, MaySleep, OwesAt;
    OthersKeep(s, s', t);
  }

  lemma GoneOk(s: State, t: nat)
    requires Shared(s) && t < |s.threads| && ThreadOk(s, t) && s.threads[t].op.Writing? && s.threads[t].at == Loop
    requires Full(s.ring) && !Empty(s.ring) && (!s.readopen || s.threads[t].killed)
    requires s.threads[t].op.i < |s.threads[t].op.buf|
    ensures var s' := Gone(s, t);
      Shared(s') && MovesOnly(s, s', t) && ThreadOk(s', t) && Attended(s', true)
      && (Attended(s, false) ==> Attended(s', false))
  {
    hide Window, Count, Fits;
  }

  lemma GiveShared(s: State, t: nat, b: Byte)
    requires Shared(s) && !Full(s.ring)
    ensures Fits(Put(s.ring, b)) && !Empty(Put(s.ring, b))
    ensures Bytes(s.stored + [Event(t, b)]) == Bytes(s.taken) + Window(Put(s.ring, b))
  {
    hide Window, Count, MaySleep;
    PutAppends(s.ring, b);
    TestsExact(Put(s.ring, b));
    assert Bytes(s.stored + [Event(t, b)]) == Bytes(s.stored) + [b];
    assert Bytes(s.taken) + Window(Put(s.ring, b)) == Bytes(s.taken) + Window(s.ring) + [b];
  }

  lemma GaveOk(s: State, t: nat)
    requires Shared(s) && t < |s.threads| && ThreadOk(s, t) && s.threads[t].op.Writing? && s.threads[t].at == Loop
    requires !Full(s.ring) && s.threads[t].op.i < |s.threads[t].op.buf|
    ensures var b := s.threads[t].op.buf[s.threads[t].op.i];
      var s' := Gave(s, t, b, Put(s.ring, b));
      && Shared(s') && MovesOnly(s, s', t) && ThreadOk(s', t)
      && (Attended(s, true) ==> Attended(s', true)) && (Attended(s, false) ==> Attended(s', false))
  {
    GiveShared(s, t, s.threads[t].op.buf[s.threads[t].op.i]);
    hide Window, Count, Fits, Put;
  }

  lemma WriteLoopKeeps(s: State, t: nat)
    requires Inv(s) && t < |s.threads| && s.threads[t].op.Writing? && s.threads[t].at == Loop
    ensures Inv(WriteStep(s, t).value)
  {
    var s', p := WriteStep(s, t).value, s.threads[t];
    assert ThreadOk(s, t);
    TestsExact(s.ring);
    hide At, Gone, Gave, Shared, Window, Attended, ThreadOk, MovesOnly, Put;
    if p.op.i >= |p.op.buf| {
      AtKeeps(s, t, Wake);
    } else if Full(s.ring) && s.readopen && !p.killed {
      AtKeeps(s, t, SleepWake);
    } else if Full(s.ring) {
      GoneOk(s, t);
      OthersKeep(s, s', t);
    } else {
      GaveOk(s, t);
      OthersKeep(s, s', t);
    }
  }

  lemma WriteKeeps(s: State, t: nat)
    requires Inv(s) && t < |s.threads| && s.threads[t].op.Writing? && WriteStep(s, t).Some?
    ensures Inv(WriteStep(s, t).value)
  {
    var p := s.threads[t];
    if p.at == Loop {
      WriteLoopKeeps(s, t);
    } else {
      assert ThreadOk(s, t);
      hide Inv, At, Gone, Gave, Woke;
      if p.at == SleepWake { AfterWakeup(s, t, true, SleepAcquire); }
      else if p.at == Wake { AfterWakeup(s, t, true, Release); }
      else { LockKeeps(s, t); }
    }
  }

  lemma ReadLoopKeeps(s: State, t: nat)
    requires Inv(s) && t < |s.threads| && s.threads[t].op.Reading? && s.threads[t].at == Loop
    ensures Inv(ReadStep(s, t).value)
  {
    assert ThreadOk(s, t);
    hide At, Window, Count, Full, Shared;
    AtKeeps(s, t, if MaySleep(s, true) then if s.threads[t].killed then Fail else SleepAcquire else Copy);
  }

  lemma TakeShared(s: State, t: nat)
    requires Shared(s) && !Empty(s.ring)
    ensures Fits(Get(s.ring))
    ensures Bytes(s.stored) == Bytes(s.taken + [Event(t, Front(s.ring))]) + Window(Get(s.ring))
  {
    hide Window, Count, MaySleep;
    GetRemoves(s.ring);
    assert Bytes(s.taken + [Event(t, Front(s.ring))]) == Bytes(s.taken) + [Front(s.ring)];
    assert Bytes(s.taken) + Window(s.ring) == Bytes(s.taken) + [Front(s.ring)] + Window(Get(s.ring));
  }

  lemma TookOk(s: State, t: nat)
    requires Shared(s) && t < |s.threads| && ThreadOk(s, t) && s.threads[t].op.Reading? && s.threads[t].at == Copy
    requires !Empty(s.ring) && |s.threads[t].op.got| < s.threads[t].op.n
    ensures var s' := Took(s, t, Front(s.ring), Get(s.ring));
      && Shared(s') && MovesOnly(s, s', t) && ThreadOk(s', t)
      && (Attended(s, true) ==> Attended(s', true)) && (Attended(s, false) ==> Attended(s', false))
  {
    TakeShared(s, t);
    hide Window, Count, Fits, Get, Front, Full;
  }

  lemma CopyKeeps(s: State, t: nat)
    requires Inv(s) && t < |s.threads| && s.threads[t].op.Reading? && s.threads[t].at == Copy
    ensures Inv(ReadStep(s, t).value)
  {
    var p, s' := s.threads[t], ReadStep(s, t).value;
    assert ThreadOk(s, t);
    hide At, Took, Shared, Window, Attended, ThreadOk, MovesOnly, Get, Front;
    if |p.op.got| < p.op.n && !Empty(s.ring) {
      TookOk(s, t);
      OthersKeep(s, s', t);
    } else {
      AtKeeps(s, t, Wake);
    }
  }

  lemma ReadKeeps(s: State, t: nat)
    requires Inv(s) && t < |s.threads| && s.threads[t].op.Reading? && ReadStep(s, t).Some?
    ensures Inv(ReadStep(s, t).value)
  {
    var p := s.threads[t];
    if p.at == Loop {
      ReadLoopKeeps(s, t);
    } else if p.at == Copy {
      CopyKeeps(s, t);
    } else {
      assert ThreadOk(s, t);
      hide Inv, At, Took, Woke;
      if p.at == Wake { AfterWakeup(s, t, false, Release); } else { LockKeeps(s, t); }
    }
  }

  /** A step that only takes or gives up a lock. */
  lemma LockShape(s: State, t: nat)
    requires t < |s.threads| && LockStep(s, t).Some?
    ensures var r := LockStep(s, t).value;
      && r == Locked(s, t, r.lock, r.table) && LockPoint(s.threads[t].at)
      && (r.lock == s.lock || LockMoved(s, r.lock, t)) && (r.table == s.table || TableMoved(s, r.table, t))
  {
    hide Passed, Locked;
    LockResults(s, t);
  }

  lemma LockResults(s: State, t: nat)
    requires t < |s.threads|
    ensures LockedIs(s, t, Some(t), s.table) && LockedIs(s, t, s.lock, Some(t))
    ensures LockedIs(s, t, None, s.table) && LockedIs(s, t, s.lock, None)
  {
  }

  predicate LockedIs(s: State, t: nat, lock: Option<nat>, table: Option<nat>)
    requires t < |s.threads|
  {
    var r := Locked(s, t, lock, table);
    r.lock == lock && r.table == table && |r.threads| == |s.threads| && r.threads[t] == Passed(s.threads[t])
  }

  predicate LockMoved(s: State, lock: Option<nat>, t: nat)
    requires t < |s.threads|
  {
    || (s.lock.None? && lock == Some(t))
    || (s.threads[t].at in {SleepRelease, Release, Fail} && lock.None?)
  }

  predicate TableMoved(s: State, table: Option<nat>, t: nat)
    requires t < |s.threads|
  {
    (s.table.None? && table == Some(t)) || (s.threads[t].at == SleepSet && table.None?)
  }

  lemma CloseKeeps(s: State, t: nat)
    requires Inv(s) && t < |s.threads| && s.threads[t].op.Closing? && CloseStep(s, t).Some?
    ensures Inv(CloseStep(s, t).value)
  {
    var p := s.threads[t];
    assert ThreadOk(s, t);
    hide Inv, Shut, Woke, Closed;
    if p.at == Loop {
      CloseLoopKeeps(s, t);
    } else if p.at == Wake {
      AfterWakeup(s, t, p.op.writable, Release);
    } else {
      LockKeeps(s, t);
      if p.at == Release {
        ClosedIs(s, t);
        FreedIgnored(LockStep(s, t).value, Closed(s, t).freed);
      }
    }
  }

  lemma ShutOk(s: State, t: nat, w: bool)
    requires Shared(s) && t < |s.threads| && ThreadOk(s, t) && s.threads[t].op == Closing(w) && s.threads[t].at == Loop
    ensures var s' := Shut(s, t, w);
      && Shared(s') && MovesOnly(s, s', t) && ThreadOk(s', t)
      && (Attended(s, true) ==> Attended(s', true)) && (Attended(s, false) ==> Attended(s', false))
  {
    hide Window, Count, Empty, Full;
  }

  lemma CloseLoopKeeps(s: State, t: nat)
    requires Inv(s) && t < |s.threads| && s.threads[t].op.Closing? && s.threads[t].at == Loop
    ensures Inv(CloseStep(s, t).value)
  {
    var p, s' := s.threads[t], CloseStep(s, t).value;
    assert ThreadOk(s, t);
    ShutOk(s, t, p.op.writable);
    assert s' == Shut(s, t, p.op.writable);
    hide Shut, Inv, Shared, ThreadOk, CloseStep;
    OthersKeep(s, s', t);
  }

  lemma ClosedIs(s: State, t: nat)
    requires t < |s.threads| && s.threads[t].at == Release
    ensures LockStep(s, t).Some? && Closed(s, t) == LockStep(s, t).value.(freed := Closed(s, t).freed)
  {
  }

  lemma FreedIgnored(s: State, freed: bool)
    requires Inv(s)
    ensures Inv(s.(freed := freed))
  {
    hide Window, Count, Empty, Full;
    var s' := s.(freed := freed);
    forall u | 0 <= u < |s.threads| ensures ThreadOk(s', u) { assert ThreadOk(s, u); }
  }

  lemma LockOwes(s: State, t: nat)
    requires t < |s.threads| && !s.threads[t].op.Idle? && LockStep(s, t).Some? && ThreadOk(s, t)
    ensures forall r :: Owes(s, r) ==> Owes(LockStep(s, t).value, r)
  {
    LockShape(s, t);
    hide LockStep, CallOk, Attended, Sleeping, Passed;
  }

  lemma LockAttended(s: State, t: nat)
    requires Inv(s) && t < |s.threads| && !s.threads[t].op.Idle? && LockStep(s, t).Some?
    ensures var s' := LockStep(s, t).value;
      (Attended(s, true) ==> Attended(s', true)) && (Attended(s, false) ==> Attended(s', false))
  {
    assert ThreadOk(s, t);
    LockShape(s, t);
    LockOwes(s, t);
    hide LockStep, CallOk, MaySleep, Shared, ThreadsOk, Sleeping, Passed, Owes, ThreadOk;
    SameMaySleep(s, LockStep(s, t).value);
  }

  /** What a thread knows when it has passed a lock operation. */
  lemma PassedOk(s: State, p: Thread)
    requires LockPoint(p.at) && CallOk(s, p)
    ensures CallOk(s, Passed(p))
    ensures forall r :: Sleeping(Passed(p), r) ==> Sleeping(p, r) || MaySleep(s, r)
  {
    hide MaySleep, Empty, Full;
  }

  lemma LockHeld(s: State, t: nat)
    requires t < |s.threads| && !s.threads[t].op.Idle? && LockStep(s, t).Some?
    requires HasLock(s.threads[t]) <==> s.lock == Some(t)
    requires HasTable(s.threads[t]) <==> s.table == Some(t)
    ensures var s' := LockStep(s, t).value;
      (HasLock(s'.threads[t]) <==> s'.lock == Some(t)) && (HasTable(s'.threads[t]) <==> s'.table == Some(t))
  {
    hide Locked;
    LockResults(s, t);
  }

  lemma LockOk(s: State, t: nat)
    requires Inv(s) && t < |s.threads| && !s.threads[t].op.Idle? && LockStep(s, t).Some?
    ensures ThreadOk(LockStep(s, t).value, t)
  {
    var p, s' := s.threads[t], LockStep(s, t).value;
    assert ThreadOk(s, t);
    LockShape(s, t);
    LockHeld(s, t);
    LockAttended(s, t);
    PassedOk(s, p);
    SameMaySleep(s, s');
    SameCall(s, s', Passed(p));
    hide LockStep, CallOk, Sleeping, Shared, ThreadsOk, MaySleep, Owes, HasLock, HasTable;
  }

  lemma SameCall(s: State, s': State, p: Thread)
    requires s'.ring == s.ring && s'.readopen == s.readopen && s'.writeopen == s.writeopen
    ensures CallOk(s', p) == CallOk(s, p)
  {
  }

  lemma LockMoves(s: State, t: nat)
    requires Shared(s) && t < |s.threads| && !s.threads[t].op.Idle? && LockStep(s, t).Some? && ThreadOk(s, t)
    ensures MovesOnly(s, LockStep(s, t).value, t) && Shared(LockStep(s, t).value)
  {
    LockOwes(s, t);
    hide LockStep, Window, Count, Empty, Full, CallOk, Sleeping, Attended, Passed, Owes;
    LockShape(s, t);
  }

  lemma LockKeeps(s: State, t: nat)
    requires Inv(s) && t < |s.threads| && !s.threads[t].op.Idle? && LockStep(s, t).Some?
    ensures Inv(LockStep(s, t).value)
  {
    hide Shared, LockStep, ThreadOk, MovesOnly, Attended, NoneSleep;
    assert ThreadOk(s, t);
    LockMoves(s, t);
    LockOk(s, t);
    LockAttended(s, t);
    OthersKeep(s, LockStep(s, t).value, t);
  }

  /** What the beginning of a call changes. */
  lemma BeginShape(s: State, t: nat, call: Call)
    requires t < |s.threads| && BeginStep(s, t, call).Some?
    ensures var r := BeginStep(s, t, call).value;
      && r == Began(s, t, r.threads[t].op, r.rdone, r.wdone) && s.threads[t].op.Idle? && Fresh(s, r.threads[t])
      && (r.threads[t].op.Writing? ==> !r.wdone) && (r.threads[t].op.Reading? ==> !r.rdone)
      && (r.threads[t].op.Closing? ==> if r.threads[t].op.writable then r.wdone else r.rdone)
      && (r.wdone == s.wdone || (r.wdone && !InUse(s, true))) && (r.rdone == s.rdone || (r.rdone && !InUse(s, false)))
  {
    hide InUse, Began;
    match call
    case Write(buf) => BeganIs(s, t, Writing(buf, 0, |s.stored|), s.rdone, s.wdone);
    case Read(n) => BeganIs(s, t, Reading(n, [], |s.taken|), s.rdone, s.wdone);
    case Close(w) => BeganIs(s, t, Closing(w), if w then s.rdone else true, if w then true else s.wdone);
  }

  lemma BeganIs(s: State, t: nat, op: Op, rdone: bool, wdone: bool)
    requires t < |s.threads|
    ensures var r := Began(s, t, op, rdone, wdone);
      && r.rdone == rdone && r.wdone == wdone && |r.threads| == |s.threads|
      && r.threads[t] == s.threads[t].(op := op, at := Acquire)
  {
  }

  /** A thread whose call has just begun. */
  predicate Fresh(s: State, p: Thread)
  {
    && p.at == Acquire && !p.op.Idle?
    && (p.op.Writing? ==> p.op.i == 0 && p.op.since == |s.stored|)
    && (p.op.Reading? ==> p.op.got == [] && p.op.since == |s.taken|)
  }

  lemma BeginKeeps(s: State, t: nat, call: Call)
    requires Inv(s) && t < |s.threads| && BeginStep(s, t, call).Some?
    ensures Inv(BeginStep(s, t, call).value)
  {
    var s' := BeginStep(s, t, call).value;
    assert ThreadOk(s, t);
    BeginShape(s, t, call);
    hide BeginStep;
    BeginOwes(s, s', t);
    SameMaySleep(s, s');
    assert Shared(s');
    hide Shared, Owes, Sleeping, CallOk, MaySleep;
    forall u | 0 <= u < |s'.threads| ensures ThreadOk(s', u) {
      assert ThreadOk(s, u);
      if u == t { BeginOk(s', t); } else { OtherCall(s, s', s.threads[u]); }
    }
  }

  lemma KillKeeps(s: State, t: nat)
    requires Inv(s) && t < |s.threads| && KillStep(s, t).Some?
    ensures Inv(KillStep(s, t).value)
  {
    var s' := KillStep(s, t).value;
    assert ThreadOk(s, t);
    KillOwes(s, t);
    SameMaySleep(s, s');
    KillCall(s, t);
    assert Shared(s');
    hide Shared, Owes, CallOk, MaySleep;
    OthersKeep(s, s', t);
  }

  lemma KillOwes(s: State, t: nat)
    requires t < |s.threads| && KillStep(s, t).Some?
    ensures forall r :: Owes(s, r) ==> Owes(KillStep(s, t).value, r)
  {
  }

  lemma KillCall(s: State, t: nat)
    requires t < |s.threads| && KillStep(s, t).Some? && CallOk(s, s.threads[t])
    ensures CallOk(KillStep(s, t).value, KillStep(s, t).value.threads[t])
  {
  }

  lemma SameMaySleep(s: State, s': State)
    requires s'.ring == s.ring && s'.readopen == s.readopen && s'.writeopen == s.writeopen
    ensures forall r :: MaySleep(s', r) == MaySleep(s, r)
  {
  }

  lemma BeginOk(s: State, t: nat)
    requires t < |s.threads| && Fresh(s, s.threads[t])
    ensures CallOk(s, s.threads[t]) && !Sleeping(s.threads[t], true) && !Sleeping(s.threads[t], false)
  {
  }

  lemma BeginOwes(s: State, s': State, t: nat)
    requires t < |s.threads| && s.threads[t].op.Idle? && s'.lock == s.lock && |s'.threads| == |s.threads|
    requires forall u :: 0 <= u < |s.threads| && u != t ==> s'.threads[u] == s.threads[u]
    ensures Owes(s, true) ==> Owes(s', true)
    ensures Owes(s, false) ==> Owes(s', false)
  {
  }

  lemma StepKeeps(s: State, a: Action)
    requires Inv(s) && Step(s, a).Some?
    ensures Inv(Step(s, a).value)
  {
    hide Inv;
    match a
    case Begin(t, call) => BeginKeeps(s, t, call);
    case Kill(t) => KillKeeps(s, t);
    case Go(t) =>
      match s.threads[t].op
      case Idle =>
      case Writing(_, _, _) => WriteKeeps(s, t);
      case Reading(_, _, _) => ReadKeeps(s, t);
      case Closing(_) => CloseKeeps(s, t);
  }

  // ---- every byte belongs to one call

  /** The bytes of thread `t` in a log, in order. */
  function Own(log: seq<Event>, t: nat): seq<Byte>
  {
    if log == [] then []
    else Own(log[..|log| - 1], t) + (if log[|log| - 1].t == t then [log[|log| - 1].b] else [])
  }

  /** A call has stored the first `i` bytes of its buffer, or returned what it took, in order. */
  predicate Recorded(s: State, t: nat)
    requires t < |s.threads|
  {
    match s.threads[t].op
    case Writing(buf, i, since) => i <= |buf| && since <= |s.stored| && Own(s.stored[since..], t) == buf[..i]
    case Reading(_, got, since) => since <= |s.taken| && Own(s.taken[since..], t) == got
    case _ => true
  }

  ghost predicate AllRecorded(s: State) { forall t :: 0 <= t < |s.threads| ==> Recorded(s, t) }

  lemma {:induction false} OwnMore(log: seq<Event>, since: nat, e: Event, t: nat)
    requires since <= |log|
    ensures Own((log + [e])[since..], t) == Own(log[since..], t) + (if e.t == t then [e.b] else [])
  {
    var l := (log + [e])[since..];
    assert l[..|l| - 1] == log[since..] && l[|l| - 1] == e;
  }

  /** What a step does to the logs and to the calls. */
  ghost predicate LogMove(s: State, s': State, t: nat)
  {
    && |s'.threads| == |s.threads| && t < |s.threads|
    && (forall u :: 0 <= u < |s.threads| && u != t ==> s'.threads[u].op == s.threads[u].op)
    && var p, q := s.threads[t].op, s'.threads[t].op;
       || (s'.stored == s.stored && s'.taken == s.taken && (q == p || q.Idle? || q.Closing?))
       || (s'.stored == s.stored && s'.taken == s.taken && q.Writing? && q.i == 0 && q.since == |s.stored|)
       || (s'.stored == s.stored && s'.taken == s.taken && q.Reading? && q.got == [] && q.since == |s.taken|)
       || (p.Writing? && p.i < |p.buf| && q == p.(i := p.i + 1) && s'.stored == s.stored + [Event(t, p.buf[p.i])]
          && s'.taken == s.taken)
       || exists b ::
          && p.Reading? && q == p.(got := p.got + [b]) && s'.stored == s.stored
          && s'.taken == s.taken + [Event(t, b)]
  }

  /** The step leaves the logs and every call alone, except that `t` may finish. */
  ghost predicate Quiet(s: State, s': State, t: nat)
  {
    && s'.stored == s.stored && s'.taken == s.taken && |s'.threads| == |s.threads| && t < |s.threads|
    && (forall u :: 0 <= u < |s.threads| && u != t ==> s'.threads[u].op == s.threads[u].op)
    && (s'.threads[t].op == s.threads[t].op || s'.threads[t].op.Idle?)
  }

  lemma QuietMove(s: State, s': State, t: nat)
    requires Quiet(s, s', t)
    ensures LogMove(s, s', t)
  {
  }

  lemma LockLogs(s: State, t: nat)
    requires t < |s.threads| && LockStep(s, t).Some?
    ensures LogMove(s, LockStep(s, t).value, t)
  {
    hide LogMove, LockStep;
    LockShape(s, t);
    QuietMove(s, LockStep(s, t).value, t);
  }

  /** Of the results of steps all but the two that move a byte are quiet. */
  lemma QuietResults(s: State, t: nat)
    requires t < |s.threads|
    ensures forall at :: Quiet(s, At(s, t, at), t)
    ensures Quiet(s, Gone(s, t), t) && Quiet(s, Closed(s, t), t)
    ensures forall w :: Quiet(s, Shut(s, t, w), t)
  {
  }

  lemma WokeQuiet(s: State, t: nat)
    requires t < |s.threads|
    ensures forall r, at :: Quiet(s, Woke(s, t, r, at), t)
  {
  }

  lemma GaveLogs(s: State, t: nat, ring: Ring)
    requires t < |s.threads| && s.threads[t].op.Writing? && s.threads[t].op.i < |s.threads[t].op.buf|
    ensures LogMove(s, Gave(s, t, s.threads[t].op.buf[s.threads[t].op.i], ring), t)
  {
  }

  lemma TookLogs(s: State, t: nat, b: Byte, ring: Ring)
    requires t < |s.threads| && s.threads[t].op.Reading?
    ensures LogMove(s, Took(s, t, b, ring), t)
  {
    hide Empty;
  }

  lemma WriteLogs(s: State, t: nat)
    requires t < |s.threads| && s.threads[t].op.Writing? && |s.ring.data| == PIPESIZE && WriteStep(s, t).Some?
    ensures LogMove(s, WriteStep(s, t).value, t)
  {
    var p := s.threads[t];
    hide LockStep, Put, Full, At, Woke, Gone, Gave, LogMove, Quiet;
    if p.at == Loop && p.op.i < |p.op.buf| && !Full(s.ring) {
      GaveLogs(s, t, Put(s.ring, p.op.buf[p.op.i]));
    } else if p.at in {Loop, SleepWake, Wake} {
      QuietResults(s, t);
      WokeQuiet(s, t);
      QuietMove(s, WriteStep(s, t).value, t);
    } else {
      LockLogs(s, t);
    }
  }

  lemma ReadLogs(s: State, t: nat)
    requires t < |s.threads| && s.threads[t].op.Reading? && |s.ring.data| == PIPESIZE && ReadStep(s, t).Some?
    ensures LogMove(s, ReadStep(s, t).value, t)
  {
    var p := s.threads[t];
    hide LockStep, Get, Front, Empty, At, Woke, Took, LogMove, Quiet;
    if p.at == Copy && |p.op.got| < p.op.n && !Empty(s.ring) {
      TookLogs(s, t, Front(s.ring), Get(s.ring));
    } else if p.at in {Loop, Copy, Wake} {
      QuietResults(s, t);
      WokeQuiet(s, t);
      QuietMove(s, ReadStep(s, t).value, t);
    } else {
      LockLogs(s, t);
    }
  }

  lemma CloseLogs(s: State, t: nat)
    requires t < |s.threads| && s.threads[t].op.Closing? && CloseStep(s, t).Some?
    ensures LogMove(s, CloseStep(s, t).value, t)
  {
    hide LogMove, LockStep, Shut, Woke, Closed, Quiet;
    if s.threads[t].at in {Loop, Wake, Release} {
      QuietResults(s, t);
      WokeQuiet(s, t);
      QuietMove(s, CloseStep(s, t).value, t);
    } else {
      LockLogs(s, t);
    }
  }

  lemma BeginLogs(s: State, t: nat, call: Call)
    requires t < |s.threads| && BeginStep(s, t, call).Some?
    ensures LogMove(s, BeginStep(s, t, call).value, t)
  {
    hide BeginStep, InUse;
    BeginShape(s, t, call);
  }

  lemma StepLogs(s: State, a: Action)
    requires |s.ring.data| == PIPESIZE && Step(s, a).Some?
    ensures LogMove(s, Step(s, a).value, a.t)
  {
    hide LogMove, WriteStep, ReadStep, CloseStep, BeginStep;
    match a
    case Begin(t, call) => BeginLogs(s, t, call);
    case Kill(t) => QuietMove(s, KillStep(s, t).value, t);
    case Go(t) =>
      match s.threads[t].op
      case Idle =>
      case Writing(_, _, _) => WriteLogs(s, t);
      case Reading(_, _, _) => ReadLogs(s, t);
      case Closing(_) => CloseLogs(s, t);
  }

  lemma {:induction false} MoveRecorded(s: State, s': State, t: nat, u: nat)
    requires LogMove(s, s', t) && AllRecorded(s) && u < |s.threads|
    ensures Recorded(s', u)
  {
    assert Recorded(s, u);
    var p := s.threads[u].op;
    hide Own;
    if s'.stored != s.stored && p.Writing? {
      OwnMore(s.stored, p.since, s'.stored[|s.stored|], u);
      assert u == t ==> p.buf[..p.i + 1] == p.buf[..p.i] + [p.buf[p.i]];
    }
    if s'.taken != s.taken && p.Reading? { OwnMore(s.taken, p.since, s'.taken[|s.taken|], u); }
    if u == t { OwnNothing(s'.stored, u); OwnNothing(s'.taken, u); }
  }

  lemma OwnNothing(log: seq<Event>, t: nat)
    ensures Own(log[|log|..], t) == []
  {
  }

  lemma StepRecorded(s: State, a: Action)
    requires |s.ring.data| == PIPESIZE && Step(s, a).Some? && AllRecorded(s)
    ensures AllRecorded(Step(s, a).value)
  {
    StepLogs(s, a);
    hide Step, Recorded, LogMove;
    forall u | 0 <= u < |Step(s, a).value.threads| ensures Recorded(Step(s, a).value, u) {
      SameThreads(s, Step(s, a).value, a.t);
      MoveRecorded(s, Step(s, a).value, a.t, u);
    }
  }

  lemma SameThreads(s: State, s': State, t: nat)
    requires LogMove(s, s', t)
    ensures |s'.threads| == |s.threads|
  {
  }
}
