/** Every run of the queued driver: processes that hold different buffers request, the drive
    interrupts, and requests return, in any order. */
module DiskRuns {
  import opened Options
  import opened DiskSpec
  import opened Ide

  /** A finished request: whose buffer, as requested and as completed, and whether the drive failed. */
  datatype Done = Done(who: nat, req: Buffer, res: Buffer, failed: bool)

  /** `inside` marks the buffers whose holder is inside iderw, `asked` what they held on entry;
      `issued` and `log` record all requests and all completions, in order. */
  datatype Sys = Sys(disk: Disk, bufs: seq<Buffer>, inside: seq<bool>, asked: seq<Buffer>, queue: seq<nat>,
                     active: Option<Command>, issued: seq<nat>, log: seq<Done>)

  /** Edit: the holder of a buffer, outside iderw, gives it another identity, data or flags. */
  datatype Action = Edit(i: nat, b: Buffer) | Request(i: nat) | Interrupt(failed: bool) | Return(i: nat)

  predicate Shape(s: Sys)
  {
    |s.inside| == |s.bufs| == |s.asked| && forall x :: 0 <= x < |s.queue| ==> s.queue[x] < |s.bufs|
  }

  predicate Enabled(s: Sys, a: Action)
    requires Shape(s)
  {
    match a
    case Edit(i, _) => i < |s.bufs| && !s.inside[i]
    case Request(i) => i < |s.bufs| && !s.inside[i] && !Synced(s.bufs[i]) && OnDisk(s.disk, s.bufs[i])
    case Interrupt(_) => s.queue != [] && s.active.Some? && s.active.value.at in s.disk
    case Return(i) => i < |s.bufs| && s.inside[i] && Synced(s.bufs[i])
  }

  /** ideintr: the head of the queue is finished, and the drive starts on the next buffer. */
  function IntrStep(s: Sys, failed: bool): (r: Sys)
    requires Shape(s) && s.active.Some? && s.queue != [] && s.active.value.at in s.disk
    ensures Shape(r) && |r.bufs| == |s.bufs|
  {
    var i, rest := s.queue[0], s.queue[1..];
    var f := Finished(s.disk, s.active.value, s.bufs[i], failed);
    s.(disk := f.disk, bufs := s.bufs[i := f.buf], queue := rest,
       log := s.log + [Done(i, s.asked[i], f.buf, failed)],
       active := if rest == [] then None else Some(Start(s.bufs[rest[0]])))
  }

  function Step(s: Sys, a: Action): (r: Sys)
    requires Shape(s) && Enabled(s, a)
    ensures Shape(r) && |r.bufs| == |s.bufs|
  {
    match a
    case Edit(i, b) => s.(bufs := s.bufs[i := b])
    case Request(i) =>
      s.(inside := s.inside[i := true], asked := s.asked[i := s.bufs[i]], queue := s.queue + [i],
         issued := s.issued + [i],
         active := if s.queue == [] then Some(Start(s.bufs[i])) else s.active)
    case Interrupt(failed) => IntrStep(s, failed)
    case Return(i) => s.(inside := s.inside[i := false])
  }

  // ---- what a synchronous disk would hold and answer

  function {:induction false} Replay(d: Disk, log: seq<Done>): (r: Disk)
    ensures r.Keys == d.Keys
    decreases |log|
  {
    if log == [] then d
    else
      var before, last := Replay(d, log[..|log| - 1]), log[|log| - 1];
      if OnDisk(before, last.req) && !last.failed then Sync(before, last.req).disk else before
  }

  /** Every completion is the synchronous driver's answer at its place in the log, or leaves the
      data alone when the drive has failed. */
  predicate Faithful(d: Disk, log: seq<Done>)
    decreases |log|
  {
    log == [] ||
    (var before, last := Replay(d, log[..|log| - 1]), log[|log| - 1];
     && Faithful(d, log[..|log| - 1]) && OnDisk(before, last.req)
     && last.res == if last.failed then Stale(last.req) else Sync(before, last.req).buf)
  }

  function Whos(log: seq<Done>): (r: seq<nat>)
    ensures |r| == |log| && forall k :: 0 <= k < |log| ==> r[k] == log[k].who
  {
    seq(|log|, k requires 0 <= k < |log| => log[k].who)
  }

  /** The last completion for buffer `i` left it as it is. */
  predicate Answered(s: Sys, i: nat)
    requires i < |s.bufs| == |s.asked|
  {
    exists k :: 0 <= k < |s.log| && AnswerAt(s.log, k, i, s.asked[i], s.bufs[i])
  }

  predicate AnswerAt(log: seq<Done>, k: nat, i: nat, req: Buffer, res: Buffer)
    requires k < |log|
  {
    log[k] == Done(i, req, res, log[k].failed) && forall m :: k < m < |log| ==> log[m].who != i
  }

  predicate BufferOk(s: Sys, i: nat)
    requires Shape(s) && i < |s.bufs|
  {
    && (i in s.queue <==> s.inside[i] && !Synced(s.bufs[i]))
    && (i in s.queue ==> s.bufs[i] == s.asked[i] && OnDisk(s.disk, s.bufs[i]))
    && (s.inside[i] && Synced(s.bufs[i]) ==> Answered(s, i))
  }

  ghost predicate Queue(s: Sys)
  {
    && Shape(s)
    && (forall x, y :: 0 <= x < y < |s.queue| ==> s.queue[x] != s.queue[y])
    && s.active == (if s.queue == [] then None else Some(Start(s.bufs[s.queue[0]])))
    && s.issued == Whos(s.log) + s.queue
  }

  ghost predicate Inv(d: Disk, s: Sys)
  {
    && Shape(s) && Queue(s) && s.disk == Replay(d, s.log) && Faithful(d, s.log)
    && forall i :: 0 <= i < |s.bufs| ==> BufferOk(s, i)
  }

  function Initial(d: Disk, bufs: seq<Buffer>): Sys
  {
    Sys(d, bufs, seq(|bufs|, _ => false), bufs, [], None, [], [])
  }

  lemma InitialInv(d: Disk, bufs: seq<Buffer>)
    ensures Inv(d, Initial(d, bufs))
  {
  }

  lemma RequestKeeps(d: Disk, s: Sys, i: nat)
    requires Inv(d, s) && Enabled(s, Request(i))
    ensures Inv(d, Step(s, Request(i)))
  {
    hide Replay, Faithful;
    var s' := Step(s, Request(i));
    assert BufferOk(s, i);
    assert s'.queue[|s.queue|] == i;
    forall j | 0 <= j < |s.bufs| ensures BufferOk(s', j) {
      assert BufferOk(s, j);
      if j != i && Answered(s, j) {
        var k :| 0 <= k < |s.log| && AnswerAt(s.log, k, j, s.asked[j], s.bufs[j]);
        assert AnswerAt(s'.log, k, j, s'.asked[j], s'.bufs[j]);
      }
      assert j in s'.queue <==> j in s.queue || j == i;
    }
    assert forall x :: 0 <= x < |s.queue| ==> s'.queue[x] == s.queue[x] && s.queue[x] in s.queue;
    assert s'.issued == Whos(s.log) + s'.queue;
  }

  lemma ReturnKeeps(d: Disk, s: Sys, i: nat)
    requires Inv(d, s) && Enabled(s, Return(i))
    ensures Inv(d, Step(s, Return(i)))
  {
    forall j | 0 <= j < |s.bufs| ensures BufferOk(Step(s, Return(i)), j) { assert BufferOk(s, j); }
  }

  lemma EditKeeps(d: Disk, s: Sys, i: nat, b: Buffer)
    requires Inv(d, s) && Enabled(s, Edit(i, b))
    ensures Inv(d, Step(s, Edit(i, b)))
  {
    hide Replay, Faithful;
    assert BufferOk(s, i);
    forall j | 0 <= j < |s.bufs| ensures BufferOk(Step(s, Edit(i, b)), j) { assert BufferOk(s, j); }
    if s.queue != [] { assert s.queue[0] in s.queue; }
  }

  /** The interrupt carries out the head of the queue as the synchronous driver would, unless the
      drive has failed. */
  lemma IntrSyncs(d: Disk, s: Sys, failed: bool)
    requires Inv(d, s) && s.queue != []
    ensures s.active.Some? && s.active.value.at in s.disk
    ensures var i := s.queue[0];
      && i < |s.bufs| && OnDisk(s.disk, s.asked[i])
      && Result(IntrStep(s, failed).disk, IntrStep(s, failed).bufs[i])
         == if failed then Result(s.disk, Stale(s.asked[i])) else Sync(s.disk, s.asked[i])
  {
    assert BufferOk(s, s.queue[0]);
  }

  lemma IntrShape(s: Sys, failed: bool)
    requires Shape(s) && s.active.Some? && s.queue != [] && s.active.value.at in s.disk
    ensures var s', i := IntrStep(s, failed), s.queue[0];
      && s'.inside == s.inside && s'.asked == s.asked && s'.queue == s.queue[1..] && s'.disk.Keys == s.disk.Keys
      && s'.log == s.log + [Done(i, s.asked[i], s'.bufs[i], failed)] && Synced(s'.bufs[i])
      && forall j :: 0 <= j < |s.bufs| && j != i ==> s'.bufs[j] == s.bufs[j]
  {
  }

  /** An answer stays the last one when another buffer is answered. */
  lemma StillAnswered(s: Sys, s': Sys, e: Done, j: nat)
    requires j < |s.bufs| == |s.asked| == |s'.bufs| == |s'.asked| && Answered(s, j) && e.who != j
    requires s'.log == s.log + [e] && s'.asked[j] == s.asked[j] && s'.bufs[j] == s.bufs[j]
    ensures Answered(s', j)
  {
    var k :| 0 <= k < |s.log| && AnswerAt(s.log, k, j, s.asked[j], s.bufs[j]);
    assert AnswerAt(s'.log, k, j, s'.asked[j], s'.bufs[j]);
  }

  lemma IntrBuffer(d: Disk, s: Sys, failed: bool, j: nat)
    requires Inv(d, s) && s.queue != [] && j < |s.bufs| && s.active.Some? && s.active.value.at in s.disk
    ensures BufferOk(IntrStep(s, failed), j)
  {
    var s', i := IntrStep(s, failed), s.queue[0];
    IntrShape(s, failed);
    assert BufferOk(s, j) && BufferOk(s, i);
    assert s.queue == [i] + s'.queue && i !in s'.queue;
    hide IntrStep, Replay, Faithful, Queue, Answered;
    if j == i {
      assert AnswerAt(s'.log, |s.log|, i, s'.asked[i], s'.bufs[i]);
      LastAnswers(s', i);
    } else if s.inside[j] && Synced(s.bufs[j]) {
      StillAnswered(s, s', s'.log[|s.log|], j);
    }
  }

  lemma LastAnswers(s: Sys, i: nat)
    requires i < |s.bufs| == |s.asked| && s.log != []
    requires AnswerAt(s.log, |s.log| - 1, i, s.asked[i], s.bufs[i])
    ensures Answered(s, i)
  {
  }

  lemma IntrQueue(s: Sys, failed: bool)
    requires Queue(s) && s.queue != [] && s.active.Some? && s.active.value.at in s.disk
    ensures Queue(IntrStep(s, failed))
  {
    var s', i := IntrStep(s, failed), s.queue[0];
    assert s.queue == [i] + s.queue[1..];
    assert Whos(s'.log) == Whos(s.log) + [i];
    if s'.queue != [] { assert s'.queue[0] == s.queue[1] && s.queue[1] != i; }
  }

  lemma IntrKeeps(d: Disk, s: Sys, failed: bool)
    requires Inv(d, s) && Enabled(s, Interrupt(failed))
    ensures Inv(d, Step(s, Interrupt(failed)))
  {
    hide Queue, BufferOk;
    IntrSyncs(d, s, failed);
    IntrQueue(s, failed);
    forall j | 0 <= j < |s.bufs| ensures BufferOk(IntrStep(s, failed), j) { IntrBuffer(d, s, failed, j); }
    assert IntrStep(s, failed).log[..|s.log|] == s.log;
  }

  lemma StepKeeps(d: Disk, s: Sys, a: Action)
    requires Inv(d, s) && Enabled(s, a)
    ensures Inv(d, Step(s, a))
  {
    hide Queue, Faithful, Replay;
    match a
    case Edit(i, b) => EditKeeps(d, s, i, b);
    case Request(i) => RequestKeeps(d, s, i);
    case Interrupt(failed) => IntrKeeps(d, s, failed);
    case Return(i) => ReturnKeeps(d, s, i);
  }

  ghost predicate Reaches(s: Sys, acts: seq<Action>, s': Sys)
    decreases |acts|
  {
    if acts == [] then s' == s
    else Shape(s) && Enabled(s, acts[0]) && Reaches(Step(s, acts[0]), acts[1..], s')
  }

  lemma {:induction false} RunKeeps(d: Disk, s: Sys, acts: seq<Action>, s': Sys)
    requires Inv(d, s) && Reaches(s, acts, s')
    ensures Inv(d, s')
    decreases |acts|
  {
    if acts != [] {
      StepKeeps(d, s, acts[0]);
      RunKeeps(d, Step(s, acts[0]), acts[1..], s');
    }
  }

  /** The queue refines the synchronous disk in every run: requests finish in the order they were
      issued, the drive works on the head of the queue, no buffer is queued twice, and the disk is
      what synchronous requests in that order leave. */
  lemma RefinesSynchronous(d: Disk, bufs: seq<Buffer>, acts: seq<Action>, s: Sys)
    requires Reaches(Initial(d, bufs), acts, s)
    ensures s.disk == Replay(d, s.log) && Faithful(d, s.log)
    ensures Whos(s.log) <= s.issued && s.issued[|s.log|..] == s.queue
    ensures forall x, y :: 0 <= x < y < |s.queue| ==> s.queue[x] != s.queue[y]
    ensures Shape(s)
    ensures s.active == if s.queue == [] then None else Some(Start(s.bufs[s.queue[0]]))
  {
    InitialInv(d, bufs);
    RunKeeps(d, Initial(d, bufs), acts, s);
  }

  /** iderw returns a buffer only with the answer to its own request: what the synchronous driver
      would have answered at that place, exactly if the request was a write, or the drive did not
      fail, or the buffer happened to hold the block's data before. */
  lemma ReturnsAnswer(d: Disk, bufs: seq<Buffer>, acts: seq<Action>, s: Sys, i: nat) returns (k: nat)
    requires Reaches(Initial(d, bufs), acts, s) && Shape(s) && Enabled(s, Return(i))
    ensures k < |s.log| && AnswerAt(s.log, k, i, s.asked[i], s.bufs[i])
    ensures var before := Replay(d, s.log[..k]);
      && OnDisk(before, s.asked[i])
      && (s.bufs[i] == Sync(before, s.asked[i]).buf <==>
          !s.log[k].failed || s.asked[i].dirty || s.asked[i].data == before[Where(s.asked[i])])
  {
    InitialInv(d, bufs);
    RunKeeps(d, Initial(d, bufs), acts, s);
    assert BufferOk(s, i);
    k :| 0 <= k < |s.log| && AnswerAt(s.log, k, i, s.asked[i], s.bufs[i]);
    hide Inv, Reaches, Initial, BufferOk;
    AnswerIs(d, s.log, k);
  }

  lemma {:induction false} AnswerIs(d: Disk, log: seq<Done>, k: nat)
    requires Faithful(d, log) && k < |log|
    ensures var before, e := Replay(d, log[..k]), log[k];
      && OnDisk(before, e.req)
      && (e.res == Sync(before, e.req).buf <==> !e.failed || e.req.dirty || e.req.data == before[Where(e.req)])
  {
    FaithfulPrefix(d, log, k + 1);
    assert log[..k + 1][..k] == log[..k] && log[..k + 1][k] == log[k];
    FaithfulLast(d, log[..k + 1]);
    hide Faithful, Replay, Sync, Stale;
    StaleIsSync(Replay(d, log[..k]), log[k].req);
  }

  lemma {:induction false} FaithfulLast(d: Disk, log: seq<Done>)
    requires Faithful(d, log) && log != []
    ensures var before, e := Replay(d, log[..|log| - 1]), log[|log| - 1];
      OnDisk(before, e.req) && e.res == if e.failed then Stale(e.req) else Sync(before, e.req).buf
  {
    hide Replay, Sync, Stale;
  }

  lemma StaleIsSync(disk: Disk, b: Buffer)
    requires OnDisk(disk, b)
    ensures Stale(b) == Sync(disk, b).buf <==> b.dirty || b.data == disk[Where(b)]
  {
  }

  /** A failed read of the first block: iderw returns bytes that are not on the disk. */
  lemma FailedRead(d: Disk, b: Buffer)
    requires OnDisk(d, b) && !b.valid && !b.dirty && b.data != d[Where(b)]
    ensures exists s ::
      && Reaches(Initial(d, [b]), [Request(0), Interrupt(true)], s) && Shape(s) && Enabled(s, Return(0))
      && s.bufs[0].data != s.disk[Where(b)]
  {
    var s0 := Initial(d, [b]);
    var s1 := Step(s0, Request(0));
    var s2 := Step(s1, Interrupt(true));
    assert Reaches(s2, [], s2);
    assert [Interrupt(true)][1..] == [] && [Request(0), Interrupt(true)][1..] == [Interrupt(true)];
    assert Reaches(s1, [Interrupt(true)], s2);
    assert Reaches(s0, [Request(0), Interrupt(true)], s2);
  }

  lemma {:induction false} FaithfulPrefix(d: Disk, log: seq<Done>, n: nat)
    requires Faithful(d, log) && n <= |log|
    ensures Faithful(d, log[..n])
    decreases |log|
  {
    hide Sync, Stale, Replay;
    if n == |log| {
      assert log[..n] == log;
    } else {
      FaithfulPrefix(d, log[..|log| - 1], n);
      assert log[..|log| - 1][..n] == log[..n];
    }
  }

  /** A holder that returns is outside again and may use its buffer for the next request; nothing
      else changes. */
  lemma ReturnLeaves(s: Sys, i: nat, b: Buffer)
    requires Shape(s) && Enabled(s, Return(i))
    ensures var s' := Step(s, Return(i));
      && s' == s.(inside := s'.inside) && !s'.inside[i] && Enabled(s', Edit(i, b))
      && (forall j :: 0 <= j < |s.bufs| && j != i ==> s'.inside[j] == s.inside[j])
      && (!Synced(b) && OnDisk(s.disk, b) ==> Enabled(Step(s', Edit(i, b)), Request(i)))
  {
  }

  /** Every queued request moves up at each interrupt and is finished by the one that finds it at
      the head; no other step delays it. */
  lemma MovesUp(d: Disk, s: Sys, a: Action, x: nat)
    requires Inv(d, s) && Enabled(s, a) && x < |s.queue|
    ensures s.queue[x] < |Step(s, a).bufs|
    ensures var i := s.queue[x];
      if !a.Interrupt? then x < |Step(s, a).queue| && Step(s, a).queue[x] == i
      else if x > 0 then x <= |Step(s, a).queue| && Step(s, a).queue[x - 1] == i
      else Synced(Step(s, a).bufs[i]) && Step(s, a).inside[i]
    ensures forall failed :: Enabled(s, Interrupt(failed))
  {
    IntrSyncs(d, s, a.Interrupt? && a.failed);
    assert BufferOk(s, s.queue[0]);
  }

  // ---- what a block holds

  /** A completion that has put data on block `n` of the drive of `dev`. */
  predicate Wrote(e: Done, dev: nat, n: nat)
  {
    !e.failed && e.req.dirty && e.req.dev % 2 == dev % 2 && e.req.blockno == n
  }

  /** The data of the last completed write of a block, or what was there at the start. */
  function LastWritten(first: Data, log: seq<Done>, dev: nat, n: nat): Data
    decreases |log|
  {
    if log == [] then first
    else
      var last := log[|log| - 1];
      if Wrote(last, dev, n) then last.req.data else LastWritten(first, log[..|log| - 1], dev, n)
  }

  /** Every block holds what was last written to its drive and number, and to no other. */
  lemma {:induction false} HoldsLastWritten(d: Disk, log: seq<Done>, dev: nat, n: nat)
    requires Faithful(d, log) && Place(dev % 2, n) in d
    ensures Replay(d, log)[Place(dev % 2, n)] == LastWritten(d[Place(dev % 2, n)], log, dev, n)
    decreases |log|
  {
    if log != [] { HoldsLastWritten(d, log[..|log| - 1], dev, n); }
  }

  lemma {:induction false} WrittenSince(first: Data, log: seq<Done>, k: nat, dev: nat, n: nat)
    requires k < |log| && Wrote(log[k], dev, n) && forall m :: k < m < |log| ==> !Wrote(log[m], dev, n)
    ensures LastWritten(first, log, dev, n) == log[k].req.data
    decreases |log|
  {
    if k < |log| - 1 {
      assert log[..|log| - 1][k] == log[k];
      WrittenSince(first, log[..|log| - 1], k, dev, n);
    }
  }

  /** In every run a read of block `n` of the drive of `dev` returns what was last written there,
      whatever requests for other blocks or the other drive have completed in between. */
  lemma ReadsLastWrite(d: Disk, bufs: seq<Buffer>, acts: seq<Action>, s: Sys, l: nat, dev: nat, n: nat)
    requires Reaches(Initial(d, bufs), acts, s) && l < |s.log|
    requires var e := s.log[l]; !e.failed && !e.req.dirty && e.req.dev % 2 == dev % 2 && e.req.blockno == n
    ensures Place(dev % 2, n) in d
    ensures s.log[l].res.data == LastWritten(d[Place(dev % 2, n)], s.log[..l], dev, n)
  {
    RefinesSynchronous(d, bufs, acts, s);
    hide *;
    ReadAnswer(d, s.log, l, dev, n);
  }

  lemma ReadAnswer(d: Disk, log: seq<Done>, l: nat, dev: nat, n: nat)
    requires Faithful(d, log) && l < |log|
    requires var e := log[l]; !e.failed && !e.req.dirty && e.req.dev % 2 == dev % 2 && e.req.blockno == n
    ensures Place(dev % 2, n) in d
    ensures log[l].res.data == LastWritten(d[Place(dev % 2, n)], log[..l], dev, n)
  {
    FaithfulPrefix(d, log, l + 1);
    FaithfulPrefix(d, log, l);
    assert log[..l + 1][..l] == log[..l] && log[..l + 1][l] == log[l];
    FaithfulLast(d, log[..l + 1]);
    hide Faithful, Replay;
    HoldsLastWritten(d, log[..l], dev, n);
  }

  /** A write is read back until the same block of the same drive is written again. */
  lemma ReadsBack(d: Disk, bufs: seq<Buffer>, acts: seq<Action>, s: Sys, k: nat, l: nat)
    requires Reaches(Initial(d, bufs), acts, s) && k < l < |s.log|
    requires var w, e := s.log[k], s.log[l];
      && !w.failed && w.req.dirty && !e.failed && !e.req.dirty
      && e.req.dev % 2 == w.req.dev % 2 && e.req.blockno == w.req.blockno
      && forall m :: k < m < l ==> !Wrote(s.log[m], w.req.dev, w.req.blockno)
    ensures s.log[l].res.data == s.log[k].req.data
  {
    var dev, n := s.log[k].req.dev, s.log[k].req.blockno;
    ReadsLastWrite(d, bufs, acts, s, l, dev, n);
    hide Reaches, Initial;
    assert forall m :: 0 <= m < l ==> s.log[..l][m] == s.log[m];
    WrittenSince(d[Place(dev % 2, n)], s.log[..l], k, dev, n);
  }
}
