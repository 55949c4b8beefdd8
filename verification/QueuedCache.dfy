/** The buffer cache over the interrupt-driven disk (kernel/bio.c with kernel/ide.c): a handle that
    reads or writes a block waits in the disk queue while others go on.  Every run of this system is
    a run of the cache whose requests are answered at once, the answer falling on the interrupt. */
module QueuedCache {
  import opened Options
  import opened BufferList
  import opened BufferCache

  /** What idestart programs into the drive. */
  datatype Command = ReadBlock(key: Key) | WriteBlock(key: Key, data: Data)

  /** `inside` marks the handles inside iderw; `queue` holds the buffers requested, the head being
      the one the drive works on. */
  datatype Queued = Queued(s: Sys, inside: seq<bool>, queue: seq<nat>, active: Option<Command>)

  /** Plain: a step that needs no disk.  Ask and Save enter iderw for bread and bwrite. */
  datatype Event = Plain(h: nat, a: Action) | Ask(h: nat) | Save(h: nat) | Interrupt | Return(h: nat)

  ghost predicate Shape(q: Queued)
  {
    && Sized(q.s) && |q.inside| == |q.s.handles|
    && forall i :: 0 <= i < |q.queue| ==> q.queue[i] < NBUF
  }

  function CommandFor(s: Sys, b: nat): Command
    requires b < |s.cache.slots| && b < |s.data|
  {
    if s.cache.slots[b].dirty then WriteBlock(s.cache.slots[b].key, s.data[b]) else ReadBlock(s.cache.slots[b].key)
  }

  function SetSlot(s: Sys, b: nat, slot: Slot): Sys
    requires b < |s.cache.slots|
  {
    s.(cache := s.cache.(slots := s.cache.slots[b := slot]))
  }

  /** iderw up to the wait: append the buffer and start the drive if it was idle. */
  function Requested(q: Queued, s: Sys, h: nat, b: nat): Queued
    requires h < |q.inside| && b < |s.cache.slots| && b < |s.data|
  {
    Queued(s, q.inside[h := true], q.queue + [b], if q.queue == [] then Some(CommandFor(s, b)) else q.active)
  }

  /** ideintr: the drive has carried out its command for the head of the queue. */
  function Interrupted(q: Queued): Queued
    requires Sized(q.s) && q.queue != [] && q.active.Some? && forall i :: 0 <= i < |q.queue| ==> q.queue[i] < NBUF
  {
    var b, rest := q.queue[0], q.queue[1..];
    var slot := q.s.cache.slots[b];
    var disk := match q.active.value case WriteBlock(key, d) => q.s.disk[key := d] case ReadBlock(_) => q.s.disk;
    var data := if slot.dirty then q.s.data[b] else Read(disk, q.active.value.key);
    var s := SetSlot(q.s, b, slot.(valid := true, dirty := false)).(disk := disk, data := q.s.data[b := data],
      writes := match q.active.value
        case WriteBlock(key, d) => q.s.writes + [(key, d)]
        case ReadBlock(_) => q.s.writes);
    Queued(s, q.inside, rest, if rest == [] then None else Some(CommandFor(s, rest[0])))
  }

  predicate Serving(pc: Pc) { (pc.Locked? || pc.Using?) && pc.b < NBUF }

  ghost predicate Enabled(q: Queued, e: Event)
    requires Shape(q)
  {
    match e
    case Plain(h, a) =>
      && h < |q.inside| && !q.inside[h] && !a.Bwrite? && Step(q.s, h, a).Some?
      && (a.Check? ==> q.s.cache.slots[q.s.handles[h].b].valid)
    case Ask(h) =>
      && h < |q.inside| && !q.inside[h] && q.s.handles[h].Locked? && q.s.handles[h].b < NBUF
      && !q.s.cache.slots[q.s.handles[h].b].valid
    case Save(h) => h < |q.inside| && !q.inside[h] && q.s.handles[h].Using? && q.s.handles[h].b < NBUF
    case Interrupt => q.queue != [] && q.active.Some?
    case Return(h) =>
      && h < |q.inside| && q.inside[h] && Serving(q.s.handles[h])
      && q.s.cache.slots[q.s.handles[h].b].valid && !q.s.cache.slots[q.s.handles[h].b].dirty
  }

  ghost function Next(q: Queued, e: Event): Queued
    requires Shape(q) && Enabled(q, e)
  {
    match e
    case Plain(h, a) => q.(s := Step(q.s, h, a).value)
    case Ask(h) => Requested(q, q.s, h, q.s.handles[h].b)
    case Save(h) =>
      var b := q.s.handles[h].b;
      Requested(q, SetSlot(q.s, b, q.s.cache.slots[b].(dirty := true)), h, b)
    case Interrupt => Interrupted(q)
    case Return(h) =>
      var pc := q.s.handles[h];
      q.(inside := q.inside[h := false], s := q.s.(handles := q.s.handles[h := Using(pc.b, pc.key, false)]))
  }

  // ---- the same system with requests answered at once

  function Clean(slots: seq<Slot>): (r: seq<Slot>)
    ensures |r| == |slots| && forall b :: 0 <= b < |slots| ==> r[b] == slots[b].(dirty := false)
  {
    seq(|slots|, b requires 0 <= b < |slots| => slots[b].(dirty := false))
  }

  /** A handle whose request is finished has, at once, what it is about to return with. */
  function Settled(q: Queued, h: nat): Pc
    requires h < |q.inside| == |q.s.handles|
  {
    var pc := q.s.handles[h];
    if q.inside[h] && Serving(pc) && pc.b !in q.queue then Using(pc.b, pc.key, false) else pc
  }

  function Handles(q: Queued): (r: seq<Pc>)
    requires |q.inside| == |q.s.handles|
    ensures |r| == |q.inside| && forall h :: 0 <= h < |q.inside| ==> r[h] == Settled(q, h)
  {
    seq(|q.inside|, h requires 0 <= h < |q.inside| => Settled(q, h))
  }

  function Direct(q: Queued): Sys
    requires |q.inside| == |q.s.handles|
  {
    q.s.(cache := q.s.cache.(slots := Clean(q.s.cache.slots)), handles := Handles(q))
  }

  // ---- the invariant

  predicate HandleOk(q: Queued, h: nat)
    requires h < |q.inside| == |q.s.handles| && |q.s.cache.slots| == NBUF
  {
    q.inside[h] ==>
      var pc := q.s.handles[h];
      && Serving(pc)
      && var slot := q.s.cache.slots[pc.b];
         && (pc.b in q.queue <==> !(slot.valid && !slot.dirty))
         && (pc.Using? ==> slot.valid) && (pc.b in q.queue ==> (slot.dirty <==> pc.Using?))
  }

  ghost predicate Waiter(q: Queued, b: nat, h: nat)
  {
    h < |q.inside| == |q.s.handles| && q.inside[h] && Holds(q.s.handles[h], b)
  }

  ghost predicate BufferOk(q: Queued, b: nat)
    requires |q.s.cache.slots| == NBUF && b < NBUF
  {
    && (q.s.cache.slots[b].dirty ==> b in q.queue)
    && (b in q.queue ==> exists h :: Waiter(q, b, h))
  }

  ghost predicate Waits(q: Queued)
    requires Shape(q)
  {
    && (forall i, j :: 0 <= i < j < |q.queue| ==> q.queue[i] != q.queue[j])
    && q.active == (if q.queue == [] then None else Some(CommandFor(q.s, q.queue[0])))
    && (forall h :: 0 <= h < |q.inside| ==> HandleOk(q, h))
    && (forall b :: 0 <= b < NBUF ==> BufferOk(q, b))
  }

  ghost predicate QInv(q: Queued) { Shape(q) && Sized(Direct(q)) && Inv(Direct(q)) && Waits(q) }

  // ---- nobody else holds a buffer that waits

  /** A buffer in the queue is referred to and held by one handle, which is inside iderw. */
  lemma QueuedHeld(q: Queued, b: nat, g: nat)
    requires QInv(q) && b < NBUF && b in q.queue && g < |q.inside| && Holds(q.s.handles[g], b)
    ensures q.inside[g] && q.s.cache.slots[b].refcnt > 0 && q.s.locked[b]
  {
    assert BufferOk(q, b);
    var h :| Waiter(q, b, h);
    SettledHolds(q, h, b);
    SettledHolds(q, g, b);
    hide Refs, Holders, Unique, Coherent, Loaded, Recency;
    CountsAtLeast(Direct(q).handles, h, b);
    if g != h { OneHolder(Direct(q).handles, g, h, b); }
  }

  lemma SettledHolds(q: Queued, h: nat, b: nat)
    requires h < |q.inside| == |q.s.handles|
    ensures Holds(Settled(q, h), b) <==> Holds(q.s.handles[h], b)
    ensures On(Settled(q, h), b) <==> On(q.s.handles[h], b)
  {
  }

  lemma QueuedReferred(q: Queued, b: nat)
    requires QInv(q) && b < NBUF && b in q.queue
    ensures q.s.cache.slots[b].refcnt > 0 && q.s.locked[b]
  {
    assert BufferOk(q, b);
    var h :| Waiter(q, b, h);
    QueuedHeld(q, b, h);
  }

  // ---- steps that need no disk

  function CleanCache(c: Cache): Cache { c.(slots := Clean(c.slots)) }

  ghost predicate DirtyReferred(c: Cache)
  {
    forall b :: 0 <= b < |c.slots| && c.slots[b].dirty ==> c.slots[b].refcnt > 0
  }

  lemma {:induction false} HitClean(c: Cache, key: Key, p: nat)
    requires c.Valid() && p <= NBUF
    ensures CleanCache(c).Valid() && Hit(CleanCache(c), key, p) == Hit(c, key, p)
    decreases NBUF - p
  {
    if p < NBUF && c.slots[c.order[p]].key != key { HitClean(c, key, p + 1); }
  }

  lemma {:induction false} VictimClean(c: Cache, p: nat)
    requires c.Valid() && p <= NBUF && DirtyReferred(c)
    ensures CleanCache(c).Valid() && Victim(CleanCache(c), p) == Victim(c, p)
    decreases p
  {
    if p > 0 && !Recyclable(c.slots[c.order[p - 1]]) { VictimClean(c, p - 1); }
  }

  lemma CleanUpdate(slots: seq<Slot>, b: nat, x: Slot)
    requires b < |slots|
    ensures Clean(slots[b := x]) == Clean(slots)[b := x.(dirty := false)]
  {
  }

  /** bget chooses the same buffer whether or not it sees the dirty bits of waiting buffers. */
  lemma BgetClean(c: Cache, key: Key)
    requires c.Valid() && DirtyReferred(c)
    ensures CleanCache(c).Valid()
    ensures var g, k := BufferList.Bget(c, key), BufferList.Bget(CleanCache(c), key);
      if g.NoBuffers? then k.NoBuffers? else k == Got(CleanCache(g.cache), g.b)
  {
    hide Hit, Victim, DirtyReferred, Clean, Recyclable;
    HitClean(c, key, 0);
    VictimClean(c, NBUF);
    var b := Hit(c, key, 0);
    if b.Some? {
      CleanUpdate(c.slots, b.value, c.slots[b.value].(refcnt := c.slots[b.value].refcnt + 1));
    } else if Victim(c, NBUF).Some? {
      CleanUpdate(c.slots, Victim(c, NBUF).value, Slot(key, false, false, 1));
    }
  }

  lemma BrelseClean(c: Cache, b: nat)
    requires c.Valid() && b < NBUF && c.slots[b].refcnt > 0
    ensures CleanCache(c).Valid() && Brelse(CleanCache(c), b) == CleanCache(Brelse(c, b))
  {
    hide Position, MoveToFront;
    assert Brelse(CleanCache(c), b).slots == Clean(Brelse(c, b).slots);
  }

  lemma DirtyAreReferred(q: Queued)
    requires QInv(q)
    ensures DirtyReferred(q.s.cache)
  {
    forall b | 0 <= b < NBUF && q.s.cache.slots[b].dirty ensures q.s.cache.slots[b].refcnt > 0 {
      assert BufferOk(q, b);
      QueuedReferred(q, b);
    }
  }

  /** A handle outside iderw moves in both systems alike. */
  lemma HandlesMove(q: Queued, q': Queued, h: nat)
    requires |q.inside| == |q.s.handles| && h < |q.inside| && !q.inside[h]
    requires q'.inside == q.inside && q'.queue == q.queue && |q'.s.handles| == |q.s.handles|
    requires q'.s.handles == q.s.handles[h := q'.s.handles[h]]
    ensures Handles(q)[h] == q.s.handles[h] && Handles(q') == Handles(q)[h := q'.s.handles[h]]
  {
  }

  lemma StepHandles(s: Sys, h: nat, a: Action)
    requires Sized(s) && Step(s, h, a).Some?
    ensures var s' := Step(s, h, a).value;
      h < |s.handles| == |s'.handles| && s'.handles == s.handles[h := s'.handles[h]]
  {
    hide BufferList.Bget, Brelse;
  }

  lemma PlainBget(q: Queued, h: nat, key: Key)
    requires QInv(q) && Enabled(q, Plain(h, Action.Bget(key)))
    ensures Step(Direct(q), h, Action.Bget(key)) == Some(Direct(Next(q, Plain(h, Action.Bget(key)))))
  {
    hide BufferList.Bget, Inv, Waits, DirtyReferred, Handles, Clean;
    DirtyAreReferred(q);
    BgetClean(q.s.cache, key);
    StepHandles(q.s, h, Action.Bget(key));
    HandlesMove(q, Next(q, Plain(h, Action.Bget(key))), h);
  }

  lemma PlainDrop(q: Queued, h: nat)
    requires QInv(q) && Enabled(q, Plain(h, Drop))
    ensures Step(Direct(q), h, Drop) == Some(Direct(Next(q, Plain(h, Drop))))
  {
    hide Brelse, Inv, Waits, Handles;
    var b := q.s.handles[h].b;
    BrelseClean(q.s.cache, b);
    StepHandles(q.s, h, Drop);
    HandlesMove(q, Next(q, Plain(h, Drop)), h);
    assert Direct(q).cache.slots[b].refcnt == q.s.cache.slots[b].refcnt;
    hide Clean;
  }

  /** A step outside iderw is the same step with requests answered at once. */
  lemma PlainSim(q: Queued, h: nat, a: Action)
    requires QInv(q) && Enabled(q, Plain(h, a))
    ensures Step(Direct(q), h, a) == Some(Direct(Next(q, Plain(h, a))))
  {
    hide BufferList.Bget, Brelse, Inv, Waits, Handles;
    if a.Bget? {
      PlainBget(q, h, a.key);
    } else if a.Drop? {
      PlainDrop(q, h);
    } else {
      StepHandles(q.s, h, a);
      HandlesMove(q, Next(q, Plain(h, a)), h);
    }
  }

  /** What a step outside iderw leaves alone: a buffer that is referred to and that it does not hold. */
  lemma PlainFrame(s: Sys, h: nat, a: Action, b: nat)
    requires Sized(s) && Step(s, h, a).Some? && b < NBUF && !a.Bwrite? && Sized(Step(s, h, a).value)
    requires a.Check? ==> s.handles[h].b < NBUF && s.cache.slots[s.handles[h].b].valid
    ensures var s' := Step(s, h, a).value;
      && (s'.cache.slots[b].dirty ==> s.cache.slots[b].dirty)
      && (s.cache.slots[b].refcnt > 0 && !Holds(s.handles[h], b) ==>
            s'.cache.slots[b] == s.cache.slots[b].(refcnt := s'.cache.slots[b].refcnt) && s'.data[b] == s.data[b])
  {
    hide Hit, Victim, Position, MoveToFront;
  }

  /** A handle inside iderw is the only holder of its buffer. */
  lemma InsideHolds(q: Queued, g: nat, h: nat)
    requires QInv(q) && g < |q.inside| && h < |q.inside| && g != h && q.inside[g]
    ensures Serving(q.s.handles[g])
    ensures q.s.cache.slots[q.s.handles[g].b].refcnt > 0 && !Holds(q.s.handles[h], q.s.handles[g].b)
  {
    assert HandleOk(q, g);
    var b := q.s.handles[g].b;
    SettledHolds(q, g, b);
    SettledHolds(q, h, b);
    hide Refs, Holders, Unique, Coherent, Loaded, Recency, HandleOk, BufferOk;
    var hs := Direct(q).handles;
    CountsAtLeast(hs, g, b);
    if Holds(hs[h], b) { OneHolder(hs, g, h, b); }
  }

  lemma PlainHandle(q: Queued, h: nat, a: Action, g: nat)
    requires QInv(q) && Enabled(q, Plain(h, a)) && g < |q.inside| && Sized(Step(q.s, h, a).value)
    requires |Step(q.s, h, a).value.handles| == |q.inside|
    ensures HandleOk(Next(q, Plain(h, a)), g)
  {
    StepHandles(q.s, h, a);
    assert HandleOk(q, g);
    if g != h && q.inside[g] {
      InsideHolds(q, g, h);
      PlainFrame(q.s, h, a, q.s.handles[g].b);
    }
    hide Step, QInv;
  }

  lemma PlainBuffer(q: Queued, h: nat, a: Action, b: nat)
    requires QInv(q) && Enabled(q, Plain(h, a)) && b < NBUF && Sized(Step(q.s, h, a).value)
    ensures BufferOk(Next(q, Plain(h, a)), b)
  {
    assert BufferOk(q, b);
    StepHandles(q.s, h, a);
    PlainFrame(q.s, h, a, b);
    hide Step, QInv;
    if b in q.queue {
      var g :| Waiter(q, b, g);
      assert Waiter(Next(q, Plain(h, a)), b, g);
    }
  }

  lemma PlainWaits(q: Queued, h: nat, a: Action)
    requires QInv(q) && Enabled(q, Plain(h, a))
    ensures Shape(Next(q, Plain(h, a))) && Waits(Next(q, Plain(h, a)))
  {
    var q' := Next(q, Plain(h, a));
    StepSized(q.s, h, a);
    StepHandles(q.s, h, a);
    if q.queue != [] {
      var b := q.queue[0];
      assert b in q.queue && BufferOk(q, b);
      var g :| Waiter(q, b, g);
      InsideHolds(q, g, h);
      PlainFrame(q.s, h, a, b);
    }
    forall g | 0 <= g < |q'.inside| ensures HandleOk(q', g) { PlainHandle(q, h, a, g); }
    forall b | 0 <= b < NBUF ensures BufferOk(q', b) { PlainBuffer(q, h, a, b); }
    hide Step, HandleOk, BufferOk, Inv;
  }

  // ---- requests

  /** Entering iderw changes nothing that the direct system sees. */
  lemma RequestSame(q: Queued, e: Event)
    requires QInv(q) && Enabled(q, e) && (e.Ask? || e.Save?)
    ensures Shape(Next(q, e)) && Direct(Next(q, e)) == Direct(q)
  {
    var q', b := Next(q, e), q.s.handles[e.h].b;
    assert q'.queue[|q.queue|] == b;
    CleanUpdate(q.s.cache.slots, b, q'.s.cache.slots[b]);
    hide Inv, Waits;
    assert Clean(q'.s.cache.slots) == Clean(q.s.cache.slots);
    forall g | 0 <= g < |q.inside| ensures Settled(q', g) == Settled(q, g) {
      if g != e.h && q.inside[g] { InsideHolds(q, g, e.h); }
    }
    assert Handles(q') == Handles(q);
  }

  lemma RequestNew(q: Queued, e: Event)
    requires QInv(q) && Enabled(q, e) && (e.Ask? || e.Save?)
    ensures var b := q.s.handles[e.h].b; b !in q.queue && !q.s.cache.slots[b].dirty
    ensures e.Save? ==> q.s.cache.slots[q.s.handles[e.h].b].valid
  {
    var b := q.s.handles[e.h].b;
    assert BufferOk(q, b);
    if b in q.queue { QueuedHeld(q, b, e.h); }
    assert Direct(q).handles[e.h] == q.s.handles[e.h];
    assert Direct(q).cache.slots[b].valid == q.s.cache.slots[b].valid;
    hide Counted, Unique, Coherent, Recency, HandleOk, BufferOk;
  }

  lemma RequestHandle(q: Queued, e: Event, g: nat)
    requires QInv(q) && Enabled(q, e) && (e.Ask? || e.Save?) && g < |q.inside|
    ensures HandleOk(Next(q, e), g)
  {
    RequestNew(q, e);
    assert HandleOk(q, g);
    if g != e.h && q.inside[g] { InsideHolds(q, g, e.h); }
    hide QInv;
    assert forall x :: x in Next(q, e).queue <==> x in q.queue || x == q.s.handles[e.h].b by {
      InAppended(q.queue, q.s.handles[e.h].b);
    }
  }

  lemma InAppended(queue: seq<nat>, b: nat)
    ensures forall x :: x in queue + [b] <==> x in queue || x == b
  {
    assert (queue + [b])[|queue|] == b;
    forall x | x in queue ensures x in queue + [b] {
      var i :| 0 <= i < |queue| && queue[i] == x;
      assert (queue + [b])[i] == x;
    }
  }

  lemma RequestBuffer(q: Queued, e: Event, b: nat)
    requires QInv(q) && Enabled(q, e) && (e.Ask? || e.Save?) && b < NBUF
    ensures BufferOk(Next(q, e), b)
  {
    assert BufferOk(q, b);
    InAppended(q.queue, q.s.handles[e.h].b);
    hide QInv;
    if b == q.s.handles[e.h].b {
      assert Waiter(Next(q, e), b, e.h);
    } else if b in q.queue {
      var g :| Waiter(q, b, g);
      assert Waiter(Next(q, e), b, g);
    }
  }

  lemma RequestWaits(q: Queued, e: Event)
    requires QInv(q) && Enabled(q, e) && (e.Ask? || e.Save?) && Shape(Next(q, e))
    ensures Waits(Next(q, e))
  {
    var q', b := Next(q, e), q.s.handles[e.h].b;
    RequestNew(q, e);
    forall g | 0 <= g < |q'.inside| ensures HandleOk(q', g) { RequestHandle(q, e, g); }
    forall c | 0 <= c < NBUF ensures BufferOk(q', c) { RequestBuffer(q, e, c); }
    hide HandleOk, BufferOk, Inv;
    forall i | 0 <= i < |q.queue| ensures q.queue[i] != b { assert q.queue[i] in q.queue; }
  }

  // ---- returns

  lemma ReturnSame(q: Queued, h: nat)
    requires QInv(q) && Enabled(q, Return(h))
    ensures Shape(Next(q, Return(h))) && Direct(Next(q, Return(h))) == Direct(q)
  {
    assert HandleOk(q, h);
    hide Inv, Waits;
    var q' := Next(q, Return(h));
    forall g | 0 <= g < |q.inside| ensures Settled(q', g) == Settled(q, g) { }
    assert Handles(q') == Handles(q);
  }

  lemma ReturnWaits(q: Queued, h: nat)
    requires QInv(q) && Enabled(q, Return(h)) && Shape(Next(q, Return(h)))
    ensures Waits(Next(q, Return(h)))
  {
    var q' := Next(q, Return(h));
    assert HandleOk(q, h);
    forall g | 0 <= g < |q'.inside| ensures HandleOk(q', g) { assert HandleOk(q, g); }
    forall b | 0 <= b < NBUF ensures BufferOk(q', b) {
      assert BufferOk(q, b);
      if b in q.queue {
        var g :| Waiter(q, b, g);
        assert g != h;
        assert Waiter(q', b, g);
      }
    }
    hide HandleOk, BufferOk, Inv;
  }

  // ---- interrupts

  /** The handle that waits for the head of the queue. */
  lemma HeadWaiter(q: Queued) returns (h: nat)
    requires QInv(q) && Enabled(q, Interrupt)
    ensures h < |q.inside| && q.inside[h] && Holds(q.s.handles[h], q.queue[0]) && q.s.locked[q.queue[0]]
    ensures q.queue[0] < NBUF && q.queue[0] in q.queue && q.queue[0] !in q.queue[1..]
    ensures var slot := q.s.cache.slots[q.queue[0]];
      if slot.dirty then q.s.handles[h].Using? else q.s.handles[h].Locked? && !slot.valid
    ensures q.active == Some(CommandFor(q.s, q.queue[0]))
  {
    var b := q.queue[0];
    assert BufferOk(q, b) && b in q.queue;
    h :| Waiter(q, b, h);
    assert HandleOk(q, h);
    QueuedHeld(q, b, h);
    hide Inv, HandleOk, BufferOk;
  }

  lemma TailMembers(queue: seq<nat>)
    requires queue != [] && forall i, j :: 0 <= i < j < |queue| ==> queue[i] != queue[j]
    ensures forall x :: x in queue[1..] <==> x in queue && x != queue[0]
  {
    forall x | x in queue && x != queue[0] ensures x in queue[1..] {
      var i :| 0 <= i < |queue| && queue[i] == x;
      assert queue[1..][i - 1] == x;
    }
  }

  /** The other handles look as before to the direct system. */
  lemma IntrHandles(q: Queued, h: nat)
    requires QInv(q) && Enabled(q, Interrupt) && h < |q.inside| && q.inside[h] && Holds(q.s.handles[h], q.queue[0])
    ensures var pc := q.s.handles[h];
      && Handles(q)[h] == pc
      && Handles(Next(q, Interrupt)) == Handles(q)[h := Using(pc.b, pc.key, false)]
  {
    TailMembers(q.queue);
    var q' := Next(q, Interrupt);
    assert q.queue[0] in q.queue && q.queue[0] !in q'.queue;
    forall g | 0 <= g < |q.inside| && g != h ensures Settled(q', g) == Settled(q, g) {
      if q.inside[g] { InsideHolds(q, g, h); }
    }
    hide QInv;
  }

  /** The interrupt is the step of bread or bwrite that reaches the disk. */
  lemma IntrSim(q: Queued) returns (h: nat, a: Action)
    requires QInv(q) && Enabled(q, Interrupt)
    ensures Shape(Next(q, Interrupt)) && Step(Direct(q), h, a) == Some(Direct(Next(q, Interrupt)))
  {
    h := HeadWaiter(q);
    IntrHandles(q, h);
    var b := q.queue[0];
    a := if q.s.cache.slots[b].dirty then Bwrite else Check;
    var q' := Next(q, Interrupt);
    CleanUpdate(q.s.cache.slots, b, q'.s.cache.slots[b]);
    assert Clean(q.s.cache.slots)[b] == q.s.cache.slots[b].(dirty := false);
    assert q.s.data[b := q.s.data[b]] == q.s.data;
    hide Inv, Waits, Handles, Clean;
  }

  lemma IntrWaits(q: Queued)
    requires QInv(q) && Enabled(q, Interrupt) && Shape(Next(q, Interrupt))
    ensures Waits(Next(q, Interrupt))
  {
    var q', b := Next(q, Interrupt), q.queue[0];
    var h := HeadWaiter(q);
    TailMembers(q.queue);
    forall g | 0 <= g < |q'.inside| ensures HandleOk(q', g) {
      assert HandleOk(q, g);
      if g != h && q.inside[g] { InsideHolds(q, g, h); }
    }
    forall c | 0 <= c < NBUF ensures BufferOk(q', c) {
      assert BufferOk(q, c);
      if c in q'.queue {
        var g :| Waiter(q, c, g);
        assert Waiter(q', c, g);
      }
    }
    hide HandleOk, BufferOk, Inv;
  }

  // ---- whole runs

  /** One event keeps the invariant, and is a step of the direct system or invisible to it. */
  lemma EventKeeps(q: Queued, e: Event, disk: map<Key, Data>)
    requires QInv(q) && Enabled(q, e) && DiskIsPlain(Direct(q), disk)
    ensures QInv(Next(q, e)) && DiskIsPlain(Direct(Next(q, e)), disk)
  {
    hide Inv, Waits, DiskIsPlain, Step, Direct;
    match e
    case Plain(h, a) =>
      PlainWaits(q, h, a);
      PlainSim(q, h, a);
      DirectStep(q, Next(q, e), h, a, disk);
    case Ask(h) => RequestSame(q, e); RequestWaits(q, e);
    case Save(h) => RequestSame(q, e); RequestWaits(q, e);
    case Interrupt =>
      var h, a := IntrSim(q);
      IntrWaits(q);
      DirectStep(q, Next(q, e), h, a, disk);
    case Return(h) => ReturnSame(q, h); ReturnWaits(q, h);
  }

  lemma DirectStep(q: Queued, q': Queued, h: nat, a: Action, disk: map<Key, Data>)
    requires QInv(q) && Shape(q') && Step(Direct(q), h, a) == Some(Direct(q')) && DiskIsPlain(Direct(q), disk)
    ensures Sized(Direct(q')) && Inv(Direct(q')) && DiskIsPlain(Direct(q'), disk)
  {
    hide Inv, Waits, DiskIsPlain, Step;
    StepKeeps(Direct(q), h, a);
    StepKeepsPlain(Direct(q), h, a, disk);
    InvSized(Direct(q'));
  }

  ghost predicate Reaches(q: Queued, events: seq<Event>, q': Queued)
    decreases |events|
  {
    if events == [] then q' == q
    else Shape(q) && Enabled(q, events[0]) && Reaches(Next(q, events[0]), events[1..], q')
  }

  lemma {:induction false} EventsKeep(q: Queued, events: seq<Event>, q': Queued, disk: map<Key, Data>)
    requires QInv(q) && DiskIsPlain(Direct(q), disk) && Reaches(q, events, q')
    ensures QInv(q') && DiskIsPlain(Direct(q'), disk)
    decreases |events|
  {
    hide QInv, DiskIsPlain, Enabled, Next;
    if events != [] {
      EventKeeps(q, events[0], disk);
      EventsKeep(Next(q, events[0]), events[1..], q', disk);
    }
  }

  function Start(disk: map<Key, Data>, n: nat): Queued { Queued(Boot(disk, n), seq(n, _ => false), [], None) }

  lemma StartInv(disk: map<Key, Data>, n: nat)
    ensures QInv(Start(disk, n)) && DiskIsPlain(Direct(Start(disk, n)), disk)
  {
    BootHolds(disk, n);
    var q := Start(disk, n);
    assert Clean(q.s.cache.slots) == q.s.cache.slots;
    assert Handles(q) == q.s.handles;
    assert Direct(q) == Boot(disk, n);
    hide Inv;
  }

  /** In every run over the queued disk, a handle that is past bread and has not changed its buffer
      since it last wrote it sees the last bytes written to the block, as a plain map from blocks to
      bytes would hold them (the boot-time key (0, 0) excepted). */
  lemma QueuedBreadReturnsLastWritten(disk: map<Key, Data>, n: nat, events: seq<Event>, q: Queued, h: nat)
    requires Reaches(Start(disk, n), events, q)
    requires h < |q.inside| == |q.s.handles| && !q.inside[h] && q.s.handles[h].Using? && !q.s.handles[h].unsaved
    ensures var pc := q.s.handles[h];
      && pc.b < |q.s.cache.slots| == |q.s.data| && q.s.cache.slots[pc.b].key == pc.key && q.s.cache.slots[pc.b].valid
      && (!Shared(pc.key) ==>
            q.s.data[pc.b] == match LastWrite(q.s.writes, pc.key) case Some(d) => d case None => Read(disk, pc.key))
  {
    StartInv(disk, n);
    EventsKeep(Start(disk, n), events, q, disk);
    var d, pc := Direct(q), q.s.handles[h];
    assert d.handles[h] == pc;
    hide Reaches, Refs, Holders, Unique, Recency, Waits;
    OnlyHolderUnsaved(d, h, pc.b);
    assert d.cache.slots[pc.b] == q.s.cache.slots[pc.b].(dirty := false);
    assert Read(d.disk, pc.key) == match LastWrite(d.writes, pc.key) case Some(x) => x case None => Read(disk, pc.key);
  }

  /** No buffer is recycled while its block is being written: a dirty buffer is in the queue, and a
      buffer in the queue is referred to and locked. */
  lemma DirtyIsSafe(disk: map<Key, Data>, n: nat, events: seq<Event>, q: Queued, b: nat)
    requires Reaches(Start(disk, n), events, q) && b < NBUF && Shape(q)
    ensures q.s.cache.slots[b].dirty ==> b in q.queue
    ensures b in q.queue ==> q.s.cache.slots[b].refcnt > 0 && q.s.locked[b]
  {
    StartInv(disk, n);
    EventsKeep(Start(disk, n), events, q, disk);
    assert BufferOk(q, b);
    if b in q.queue { QueuedReferred(q, b); }
  }
}
