/** The list operations of the buffer cache (kernel/bio.c) as functions on values: which
    buffer bget picks and where brelse puts it. */
module BufferList {
  import opened Options

  const NBUF: nat := 30

  datatype Key = Key(dev: nat, blockno: nat)

  /** What bcache.lock protects of one buffer. */
  datatype Slot = Slot(key: Key, valid: bool, dirty: bool, refcnt: nat)

  /** The buffers, and the list order from most to least recently used. */
  datatype Cache = Cache(slots: seq<Slot>, order: seq<nat>)
  {
    ghost predicate Valid() {
      && |slots| == |order| == NBUF
      && (forall i :: 0 <= i < NBUF ==> order[i] < NBUF)
      && (forall i, j :: 0 <= i < j < NBUF ==> order[i] != order[j])
      && (forall b :: 0 <= b < NBUF ==> b in order)
    }
  }

  function InitialOrder(): (o: seq<nat>)
    ensures |o| == NBUF && forall i :: 0 <= i < NBUF ==> o[i] == NBUF - 1 - i
  {
    seq(NBUF, i requires 0 <= i < NBUF => NBUF - 1 - i)
  }

  lemma InitialLists(b: nat)
    requires b < NBUF
    ensures b in InitialOrder()
  {
    assert InitialOrder()[NBUF - 1 - b] == b;
  }

  /** binit inserts every buffer at the head of the list. */
  function Initial(): (c: Cache)
    ensures c.Valid() && c.order == InitialOrder()
    ensures forall i :: 0 <= i < NBUF ==> c.slots[i] == Slot(Key(0, 0), false, false, 0)
  {
    assert forall b :: 0 <= b < NBUF ==> b in InitialOrder() by {
      forall b | 0 <= b < NBUF ensures b in InitialOrder() { InitialLists(b); }
    }
    Cache(seq(NBUF, _ => Slot(Key(0, 0), false, false, 0)), InitialOrder())
  }

  /** After binit two buffers, indeed all, answer to device 0, block 0. */
  lemma BootDuplicates(b: nat)
    requires b < NBUF
    ensures Initial().slots[b].key == Key(0, 0) && NBUF > 1
  {
  }

  predicate Recyclable(s: Slot) { s.refcnt == 0 && !s.dirty }

  /** Scan forward from list position `p` for a buffer holding `key`. */
  function Hit(c: Cache, key: Key, p: nat): (b: Option<nat>)
    requires c.Valid() && p <= NBUF
    ensures b.Some? ==> b.value < NBUF && c.slots[b.value].key == key
    ensures b.None? ==> forall i :: p <= i < NBUF ==> c.slots[c.order[i]].key != key
    decreases NBUF - p
  {
    if p == NBUF then None else if c.slots[c.order[p]].key == key then Some(c.order[p]) else Hit(c, key, p + 1)
  }

  /** Scan backward from below list position `p` for a buffer that may be recycled. */
  function Victim(c: Cache, p: nat): (b: Option<nat>)
    requires c.Valid() && p <= NBUF
    ensures b.Some? ==> b.value < NBUF && Recyclable(c.slots[b.value])
    ensures b.None? ==> forall i :: 0 <= i < p ==> !Recyclable(c.slots[c.order[i]])
    decreases p
  {
    if p == 0 then None else if Recyclable(c.slots[c.order[p - 1]]) then Some(c.order[p - 1]) else Victim(c, p - 1)
  }

  datatype Got = Got(cache: Cache, b: nat) | NoBuffers

  /** bget up to the release of bcache.lock. */
  function Bget(c: Cache, key: Key): (g: Got)
    requires c.Valid()
    ensures g.Got? ==> g.cache.Valid() && g.b < NBUF && g.cache.slots[g.b].key == key && g.cache.order == c.order
  {
    match Hit(c, key, 0)
    case Some(b) => Got(c.(slots := c.slots[b := c.slots[b].(refcnt := c.slots[b].refcnt + 1)]), b)
    case None =>
      match Victim(c, NBUF)
      case Some(b) => Got(c.(slots := c.slots[b := Slot(key, false, false, 1)]), b)
      case None => NoBuffers
  }

  /** The list with buffer `b` moved to its head. */
  function MoveToFront(order: seq<nat>, p: nat): seq<nat>
    requires p < |order|
  {
    [order[p]] + order[..p] + order[p + 1..]
  }

  function Position(order: seq<nat>, b: nat): (p: nat)
    requires b in order
    ensures p < |order| && order[p] == b
  {
    if order[0] == b then 0 else 1 + Position(order[1..], b)
  }

  /** brelse from the acquisition of bcache.lock on. */
  function Brelse(c: Cache, b: nat): (r: Cache)
    requires c.Valid() && b < NBUF && c.slots[b].refcnt > 0
  {
    var n := c.slots[b].refcnt - 1;
    var slots := c.slots[b := c.slots[b].(refcnt := n)];
    if n == 0 then Cache(slots, MoveToFront(c.order, Position(c.order, b))) else c.(slots := slots)
  }

  /** Where each list position goes when position `p` moves to the head. */
  function Moved(p: nat, q: nat): nat { if q == p then 0 else if q < p then q + 1 else q }

  lemma MoveToFrontAt(order: seq<nat>, p: nat, q: nat)
    requires p < |order| && q < |order|
    ensures |MoveToFront(order, p)| == |order| && MoveToFront(order, p)[Moved(p, q)] == order[q]
  {
  }

  lemma BrelseKeepsValid(c: Cache, b: nat)
    requires c.Valid() && b < NBUF && c.slots[b].refcnt > 0
    ensures Brelse(c, b).Valid()
  {
    hide Position;
    var p := Position(c.order, b);
    var o := MoveToFront(c.order, p);
    assert |o| == NBUF;
    forall i | 0 <= i < NBUF ensures o[i] == c.order[Unmoved(p, i)] { }
    hide MoveToFront;
    forall i, j | 0 <= i < j < NBUF ensures o[i] != o[j] {
      assert Unmoved(p, i) != Unmoved(p, j);
    }
    forall d | 0 <= d < NBUF ensures d in o {
      var q := Position(c.order, d);
      MoveToFrontAt(c.order, p, q);
    }
  }

  lemma MoveToFrontUnmoved(order: seq<nat>, p: nat, i: nat)
    requires p < |order| && i < |order|
    ensures |MoveToFront(order, p)| == |order| && MoveToFront(order, p)[i] == order[Unmoved(p, i)]
  {
  }

  function Unmoved(p: nat, i: nat): nat { if i == 0 then p else if i <= p then i - 1 else i }
}
