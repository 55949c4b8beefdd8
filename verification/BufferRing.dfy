/** The doubly linked ring of buffers of kernel/bio.c, changed in place: binit, the two scans of
    bget and the relinking of brelse. */
module BufferRing {
  import opened Options
  import opened BufferList

  class Buf {
    const id: nat
    var key: Key
    var valid: bool
    var dirty: bool
    var refcnt: nat
    var prev: Buf?
    var next: Buf?

    constructor (i: nat)
      ensures id == i && key == Key(0, 0) && !valid && !dirty && refcnt == 0 && prev == null && next == null
    {
      id := i;
      key, valid, dirty, refcnt, prev, next := Key(0, 0), false, false, 0, null, null;
    }
  }

  ghost function Payload(b: Buf): Slot
    reads b
  {
    Slot(b.key, b.valid, b.dirty, b.refcnt)
  }

  /** Every buffer of the array is on the ring, and nothing else but the head. */
  ghost predicate Listed(ring: seq<Buf>, buf: seq<Buf>, head: Buf)
  {
    && |buf| == NBUF && |ring| == NBUF + 2 && head.id == NBUF
    && (forall i :: 0 <= i < NBUF ==> buf[i].id == i && buf[i] in ring)
    && (forall i :: 1 <= i <= NBUF ==> ring[i].id < NBUF && buf[ring[i].id] == ring[i])
    && (forall i, j :: 0 <= i < j <= NBUF ==> ring[i] != ring[j]) && ring[0] == head && ring[NBUF + 1] == head
  }

  ghost function Ids(ring: seq<Buf>): (s: seq<nat>)
    requires |ring| >= 2
    ensures |s| == |ring| - 2 && forall i :: 0 <= i < |s| ==> s[i] == ring[i + 1].id
  {
    seq(|ring| - 2, i requires 0 <= i < |ring| - 2 => ring[i + 1].id)
  }

  lemma ListedOrder(ring: seq<Buf>, buf: seq<Buf>, head: Buf)
    requires Listed(ring, buf, head)
    ensures forall b :: 0 <= b < NBUF ==> b in Ids(ring)
    ensures forall i, j :: 0 <= i < j < NBUF ==> Ids(ring)[i] != Ids(ring)[j]
  {
    forall b | 0 <= b < NBUF ensures b in Ids(ring) {
      var i :| 0 <= i < |ring| && ring[i] == buf[b];
      assert 1 <= i <= NBUF && Ids(ring)[i - 1] == b;
    }
  }

  lemma InitialRing(ring: seq<Buf>, buf: seq<Buf>, head: Buf)
    requires |buf| == NBUF && |ring| == NBUF + 2 && head.id == NBUF && ring[0] == head && ring[NBUF + 1] == head
    requires forall i :: 0 <= i < NBUF ==> buf[i].id == i
    requires forall j :: 1 <= j <= NBUF ==> ring[j] == buf[NBUF - j]
    ensures Listed(ring, buf, head) && Ids(ring) == InitialOrder()
  {
    forall j | 0 <= j < NBUF ensures buf[j] in ring {
      assert ring[NBUF - j] == buf[j];
    }
  }

  /** Where the node at position `i` comes from when position q + 1 moves behind the head. */
  function RingFrom(q: nat, i: nat): nat { if i == 0 then 0 else 1 + Unmoved(q, i - 1) }

  lemma MovedAt(ring: seq<Buf>, q: nat, i: nat)
    requires 2 <= |ring| && q < |ring| - 2 && i < |ring|
    ensures ([ring[0], ring[q + 1]] + (ring[..q + 1] + ring[q + 2..])[1..])[i] == ring[RingFrom(q, i)]
  {
  }

  /** Moving position q + 1 of the ring behind the head moves position q of the order. */
  lemma MovedRing(ring: seq<Buf>, ring': seq<Buf>, buf: seq<Buf>, head: Buf, b: Buf, q: nat)
    requires Listed(ring, buf, head) && q < NBUF && ring[q + 1] == b
    requires ring' == [head, b] + (ring[..q + 1] + ring[q + 2..])[1..]
    ensures Listed(ring', buf, head) && Ids(ring') == MoveToFront(Ids(ring), q)
  {
    forall i | 0 <= i < NBUF + 2 ensures ring'[i] == ring[RingFrom(q, i)] {
      MovedAt(ring, q, i);
    }
    hide RingFrom, MoveToFront;
    MovedPointwise(ring, ring', buf, head, q);
  }

  lemma MovedPointwise(ring: seq<Buf>, ring': seq<Buf>, buf: seq<Buf>, head: Buf, q: nat)
    requires Listed(ring, buf, head) && q < NBUF && |ring'| == NBUF + 2
    requires forall i :: 0 <= i < NBUF + 2 ==> ring'[i] == ring[RingFrom(q, i)]
    ensures Listed(ring', buf, head) && Ids(ring') == MoveToFront(Ids(ring), q)
  {
    MovedListed(ring, ring', buf, head, q);
    hide Listed, MoveToFront;
    forall i | 0 <= i < NBUF ensures Ids(ring')[i] == MoveToFront(Ids(ring), q)[i] {
      MoveToFrontUnmoved(Ids(ring), q, i);
    }
    MoveToFrontUnmoved(Ids(ring), q, 0);
  }

  lemma MovedListed(ring: seq<Buf>, ring': seq<Buf>, buf: seq<Buf>, head: Buf, q: nat)
    requires Listed(ring, buf, head) && q < NBUF && |ring'| == NBUF + 2
    requires forall i :: 0 <= i < NBUF + 2 ==> ring'[i] == ring[RingFrom(q, i)]
    ensures Listed(ring', buf, head)
  {
    forall i | 0 <= i < NBUF ensures buf[i] in ring' {
      var j :| 0 <= j < |ring| && ring[j] == buf[i];
      var k := if j == q + 1 then 1 else if j <= q then j + 1 else j;
      assert RingFrom(q, k) == j;
      assert ring'[k] == buf[i];
    }
    forall i, j | 0 <= i < j <= NBUF ensures ring'[i] != ring'[j] {
      assert RingFrom(q, i) != RingFrom(q, j);
    }
  }

  lemma ListedAt(ring: seq<Buf>, buf: seq<Buf>, head: Buf, b: Buf, q: nat)
    requires Listed(ring, buf, head) && b in buf && q < NBUF && Ids(ring)[q] == b.id
    ensures ring[q + 1] == b && |ring| == NBUF + 2
  {
  }

  class Bcache {
    const head: Buf
    const buf: seq<Buf>
    /** The nodes met when following `next` from the head once around to the head. */
    ghost var ring: seq<Buf>

    /** The pointers agree with the ring, in both directions. */
    ghost predicate Linked()
      reads this, ring
    {
      && |ring| >= 2 && ring[0] == head && ring[|ring| - 1] == head
      && (forall i, j :: 0 <= i < j < |ring| - 1 ==> ring[i] != ring[j])
      && (forall i {:trigger ring[i].next} :: 0 <= i < |ring| - 1 ==> ring[i].next == ring[i + 1])
      && (forall i {:trigger ring[i].prev} :: 1 <= i < |ring| ==> ring[i].prev == ring[i - 1])
    }

    /** The ring is well formed and holds each of the buffers exactly once. */
    ghost predicate Valid()
      reads this, ring
    {
      Linked() && Listed(ring, buf, head)
    }

    ghost function Slots(): (s: seq<Slot>)
      reads buf
      ensures |s| == |buf| && forall i :: 0 <= i < |buf| ==> s[i] == Payload(buf[i])
    {
      seq(|buf|, i requires 0 <= i < |buf| reads buf => Payload(buf[i]))
    }

    /** The cache as a value. */
    ghost function Abs(): (c: Cache)
      reads this, ring, buf
      requires Valid()
      ensures c.Valid()
    {
      ListedOrder(ring, buf, head);
      Cache(Slots(), Ids(ring))
    }

    /** Insert `b` behind the head. */
    method InsertFront(b: Buf)
      requires Linked() && b !in ring
      modifies this`ring, ring`next, ring`prev, b`next, b`prev
      ensures Linked() && ring == [head, b] + old(ring)[1..]
    {
      assert ring[0].next == ring[1] && ring[1].prev == ring[0];
      b.next := head.next;
      b.prev := head;
      head.next.prev := b;
      head.next := b;
      ring := [head, b] + ring[1..];
    }

    /** Unlink `b`, which is at position `p` of the ring. */
    method Remove(b: Buf, ghost p: nat)
      requires Linked() && 1 <= p < |ring| - 1 && ring[p] == b
      modifies this`ring, ring`next, ring`prev
      ensures Linked() && ring == old(ring)[..p] + old(ring)[p + 1..] && b !in ring
    {
      assert ring[p].next == ring[p + 1] && ring[p].prev == ring[p - 1];
      b.next.prev := b.prev;
      b.prev.next := b.next;
      ring := ring[..p] + ring[p + 1..];
    }

    /** The loop of binit: every buffer goes behind the head. */
    method InsertAll()
      requires Linked() && ring == [head, head] && |buf| == NBUF && head !in buf
      requires forall i, j :: 0 <= i < j < NBUF ==> buf[i] != buf[j]
      modifies this`ring, head`next, head`prev, buf`next, buf`prev
      ensures Linked() && |ring| == NBUF + 2 && forall j :: 1 <= j <= NBUF ==> ring[j] == buf[NBUF - j]
    {
      var i := 0;
      while i < NBUF
        invariant 0 <= i <= NBUF && Linked() && |ring| == i + 2
        invariant forall j :: 1 <= j <= i ==> ring[j] == buf[i - j]
      {
        assert forall j :: 0 <= j < |ring| ==> ring[j] == head || ring[j] in buf;
        InsertFront(buf[i]);
        i := i + 1;
      }
    }

    /** binit. */
    constructor ()
      ensures Valid() && Abs() == Initial()
    {
      head := new Buf(NBUF);
      var bs := MakeBufs();
      buf := bs;
      ring := [];
      new;
      head.prev := head;
      head.next := head;
      ring := [head, head];
      InsertAll();
      InitialRing(ring, buf, head);
      assert Slots() == Initial().slots;
    }

    /** Look for the block from the most recently used end; null if it is not cached. */
    method FindCached(key: Key) returns (b: Buf?)
      requires Valid()
      ensures match Hit(Abs(), key, 0) case Some(i) => b == buf[i] case None => b == null
    {
      ghost var c := Abs();
      assert ring[0].next == ring[1];
      b := head.next;
      ghost var p := 1;
      while b != head
        invariant 1 <= p <= NBUF + 1 && b == ring[p] && Hit(c, key, 0) == Hit(c, key, p - 1)
        decreases NBUF + 1 - p
      {
        assert ring[p].next == ring[p + 1] && c.order[p - 1] == b.id && c.slots[b.id] == Payload(b);
        if b.key == key {
          return;
        }
        b := b.next;
        p := p + 1;
      }
      assert p == NBUF + 1;
      b := null;
    }

    /** Look for a clean unused buffer from the least recently used end; null if none. */
    method FindUnused() returns (b: Buf?)
      requires Valid()
      ensures match Victim(Abs(), NBUF) case Some(i) => b == buf[i] case None => b == null
    {
      ghost var c := Abs();
      assert ring[NBUF + 1].prev == ring[NBUF];
      b := head.prev;
      ghost var p := NBUF;
      while b != head
        invariant 0 <= p <= NBUF && b == ring[p] && Victim(c, NBUF) == Victim(c, p)
        decreases p
      {
        assert ring[p].prev == ring[p - 1] && c.order[p - 1] == b.id && c.slots[b.id] == Payload(b);
        if b.refcnt == 0 && !b.dirty {
          return;
        }
        b := b.prev;
        p := p - 1;
      }
      b := null;
    }

    /** Set the fields of one buffer that bcache.lock protects. */
    method Assign(b: Buf, key: Key, valid: bool, dirty: bool, refcnt: nat)
      requires Valid() && b in buf
      modifies b`key, b`valid, b`dirty, b`refcnt
      ensures Valid() && b.id < NBUF
        && Abs() == old(Abs()).(slots := old(Abs()).slots[b.id := Slot(key, valid, dirty, refcnt)])
    {
      ghost var c := Abs();
      assert buf[b.id] == b && b.id < NBUF;
      hide Listed, Ids;
      b.key, b.valid, b.dirty, b.refcnt := key, valid, dirty, refcnt;
      assert Linked() && Valid();
      assert Slots() == c.slots[b.id := Slot(key, valid, dirty, refcnt)];
    }

    /** bget up to the release of bcache.lock; null is its panic. */
    method Bget(key: Key) returns (b: Buf?)
      requires Valid()
      modifies buf`key, buf`valid, buf`dirty, buf`refcnt
      ensures Valid()
      ensures match BufferList.Bget(old(Abs()), key)
              case Got(c, i) => b == buf[i] && Abs() == c
              case NoBuffers => b == null && Abs() == old(Abs())
    {
      hide Hit, Victim;
      b := FindCached(key);
      if b != null {
        Assign(b, b.key, b.valid, b.dirty, b.refcnt + 1);
        return;
      }
      b := FindUnused();
      if b != null {
        Assign(b, key, false, false, 1);
      }
    }

    /** Unlink the node at position `k` of the ring and link it behind the head. */
    method Relink(b: Buf, ghost k: nat)
      requires Valid() && 0 < k < |ring| - 1 && ring[k] == b
      modifies this`ring, ring`next, ring`prev
      ensures Linked() && ring == [head, b] + (old(ring)[..k] + old(ring)[k + 1..])[1..] && Slots() == old(Slots())
    {
      hide Listed;
      Remove(b, k);
      InsertFront(b);
      assert Slots() == old(Slots());
    }

    /** Relink `b` behind the head. */
    method MoveFront(b: Buf)
      requires Valid() && b in buf
      modifies this`ring, ring`next, ring`prev
      ensures Valid() && b.id in old(Abs()).order
      ensures Abs() == old(Abs()).(order := MoveToFront(old(Abs()).order, Position(old(Abs()).order, b.id)))
    {
      ghost var c, ring0 := Abs(), ring;
      ghost var q := Position(c.order, b.id);
      hide Position, Listed, MoveToFront, Ids, Payload, Linked, Slots;
      ListedAt(ring, buf, head, b, q);
      Relink(b, q + 1);
      MovedRing(ring0, ring, buf, head, b, q);
    }

    /** brelse from the acquisition of bcache.lock on. */
    method Brelse(b: Buf)
      requires Valid() && b in buf && b.refcnt > 0
      modifies this`ring, ring`next, ring`prev, b`key, b`valid, b`dirty, b`refcnt
      ensures Valid() && b.id < NBUF && Abs() == BufferList.Brelse(old(Abs()), b.id)
    {
      hide Position, MoveToFront;
      Assign(b, b.key, b.valid, b.dirty, b.refcnt - 1);
      if b.refcnt == 0 {
        MoveFront(b);
      }
    }
  }

  /** The static array of buffers, all zero. */
  method MakeBufs() returns (bs: seq<Buf>)
    ensures |bs| == NBUF
    ensures forall i :: 0 <= i < NBUF ==>
      fresh(bs[i]) && bs[i].id == i && Payload(bs[i]) == Slot(Key(0, 0), false, false, 0)
    ensures forall i, j :: 0 <= i < j < NBUF ==> bs[i] != bs[j]
  {
    bs := [];
    while |bs| < NBUF
      invariant |bs| <= NBUF
      invariant forall i :: 0 <= i < |bs| ==>
        fresh(bs[i]) && bs[i].id == i && Payload(bs[i]) == Slot(Key(0, 0), false, false, 0)
    {
      var b := new Buf(|bs|);
      bs := bs + [b];
    }
  }
}
