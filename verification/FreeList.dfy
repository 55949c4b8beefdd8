/** The free list of the K&R allocator (user/umalloc.c) as a value: blocks in address order,
    counted in header units, starting with the empty block at `base`. */
module FreeList {
  datatype Block = Block(at: nat, size: nat)

  function End(b: Block): nat { b.at + b.size }
  predicate Within(b: Block, u: nat) { b.at <= u < End(b) }

  /** Address order with a gap between neighbours: disjoint and fully coalesced. */
  ghost predicate Ordered(l: seq<Block>)
  {
    && (forall i, j :: 0 <= i < j < |l| ==> End(l[i]) < l[j].at)
    && (forall i :: 1 <= i < |l| ==> l[i].size > 0)
  }

  ghost predicate WellFormed(l: seq<Block>, base: nat)
  {
    |l| > 0 && l[0] == Block(base, 0) && Ordered(l)
  }

  ghost predicate Covers(l: seq<Block>, u: nat) { exists i :: 0 <= i < |l| && Within(l[i], u) }

  /** The block does not overlap any block of the list and is above the base. */
  ghost predicate Apart(l: seq<Block>, b: Block)
  {
    forall i :: 0 <= i < |l| ==> End(b) <= l[i].at || End(l[i]) <= b.at
  }

  /** `t` is the last block of the list below address `at`. */
  predicate Before(l: seq<Block>, at: nat, t: nat)
  {
    t < |l| && l[t].at < at && (t + 1 < |l| ==> at < l[t + 1].at)
  }

  /** What free does with block `b` found to lie behind block `t`: join it to its upper and
      lower neighbours where they touch. */
  function Insert(l: seq<Block>, t: nat, b: Block): seq<Block>
    requires t < |l|
  {
    var up := t + 1 < |l| && End(b) == l[t + 1].at;
    var m := if up then Block(b.at, b.size + l[t + 1].size) else b;
    var rest := if up then l[t + 2..] else l[t + 1..];
    if End(l[t]) == b.at then l[..t] + [Block(l[t].at, l[t].size + m.size)] + rest
    else l[..t + 1] + [m] + rest
  }

  /** Where position `i` of the new list comes from. */
  lemma InsertAt(l: seq<Block>, t: nat, b: Block, i: nat)
    requires t < |l| && i < |Insert(l, t, b)|
    ensures var up, down := t + 1 < |l| && End(b) == l[t + 1].at, End(l[t]) == b.at;
      var m := if up then b.size + l[t + 1].size else b.size;
      var c := Insert(l, t, b)[i];
      && |Insert(l, t, b)| == |l| + 1 - (if up then 1 else 0) - (if down then 1 else 0)
      && (i < t ==> c == l[i])
      && (i == t ==> c == if down then Block(l[t].at, l[t].size + m) else l[t])
      && (i == t + 1 && !down ==> c == Block(b.at, m))
      && (i > t && (down || i > t + 1) ==>
            var j := i - 1 + (if up then 1 else 0) + (if down then 1 else 0); j < |l| && c == l[j])
  {
  }

  lemma InsertPair(l: seq<Block>, t: nat, b: Block, i: nat, j: nat)
    requires Ordered(l) && b.size > 0 && Before(l, b.at, t) && Apart(l, b) && i < j < |Insert(l, t, b)|
    ensures End(Insert(l, t, b)[i]) < Insert(l, t, b)[j].at
  {
    hide Insert;
    InsertAt(l, t, b, i);
    InsertAt(l, t, b, j);
  }

  lemma InsertOrdered(l: seq<Block>, base: nat, t: nat, b: Block)
    requires WellFormed(l, base) && b.size > 0 && Before(l, b.at, t) && Apart(l, b)
    ensures WellFormed(Insert(l, t, b), base)
  {
    var n := Insert(l, t, b);
    InsertAt(l, t, b, 0);
    hide Insert;
    forall i, j | 0 <= i < j < |n| ensures End(n[i]) < n[j].at {
      InsertPair(l, t, b, i, j);
    }
    forall i | 1 <= i < |n| ensures n[i].size > 0 {
      InsertAt(l, t, b, i);
    }
  }

  /** Inserting a block adds exactly its units to the list. */
  lemma InsertCovers(l: seq<Block>, t: nat, b: Block, u: nat)
    requires t < |l| && (t + 1 < |l| ==> End(b) <= l[t + 1].at) && End(l[t]) <= b.at
    ensures Covers(Insert(l, t, b), u) <==> Covers(l, u) || Within(b, u)
  {
    var n := Insert(l, t, b);
    var up, down := t + 1 < |l| && End(b) == l[t + 1].at, End(l[t]) == b.at;
    var m := if up then Block(b.at, b.size + l[t + 1].size) else b;
    if Covers(n, u) {
      var i :| 0 <= i < |n| && Within(n[i], u);
      InsertAt(l, t, b, i);
      hide Insert;
      if i == t && down { assert Within(l[t], u) || Within(b, u) || (up && Within(l[t + 1], u)); }
      if i == t + 1 && !down { assert Within(b, u) || (up && Within(l[t + 1], u)); }
    }
    if Within(b, u) || (up && Within(l[t + 1], u)) || Within(l[t], u) {
      assert down ==> n[t] == Block(l[t].at, l[t].size + m.size);
      assert !down ==> n[t] == l[t] && n[t + 1] == m;
    } else if Covers(l, u) {
      var i :| 0 <= i < |l| && Within(l[i], u);
      assert i < t ==> n[i] == l[i];
      assert i > t ==> n[i + 1 - (if up then 1 else 0) - (if down then 1 else 0)] == l[i];
    }
  }

  /** What malloc does with block `k`: cut `n` units off its end, or take it whole. */
  function Take(l: seq<Block>, k: nat, n: nat): (r: seq<Block>)
    requires k < |l| && l[k].size >= n
    ensures |r| == if l[k].size == n then |l| - 1 else |l|
  {
    if l[k].size == n then l[..k] + l[k + 1..] else l[k := Block(l[k].at, l[k].size - n)]
  }

  function Taken(l: seq<Block>, k: nat, n: nat): Block
    requires k < |l| && l[k].size >= n
  {
    Block(End(l[k]) - n, n)
  }

  lemma TakeAt(l: seq<Block>, k: nat, n: nat, i: nat)
    requires k < |l| && l[k].size >= n && i < |Take(l, k, n)|
    ensures l[k].size == n ==> Take(l, k, n)[i] == if i < k then l[i] else l[i + 1]
    ensures l[k].size > n ==> Take(l, k, n)[i] == if i == k then Block(l[k].at, l[k].size - n) else l[i]
  {
  }

  lemma TakePair(l: seq<Block>, k: nat, n: nat, i: nat, j: nat)
    requires Ordered(l) && 1 <= k < |l| && l[k].size >= n > 0 && i < j < |Take(l, k, n)|
    ensures var m := Take(l, k, n); End(m[i]) < m[j].at && m[j].size > 0
  {
    hide Take;
    TakeAt(l, k, n, i);
    TakeAt(l, k, n, j);
  }

  lemma TakeOrdered(l: seq<Block>, base: nat, k: nat, n: nat)
    requires WellFormed(l, base) && 1 <= k < |l| && l[k].size >= n > 0
    ensures WellFormed(Take(l, k, n), base) && Apart(Take(l, k, n), Taken(l, k, n))
  {
    hide Take;
    var m := Take(l, k, n);
    TakeAt(l, k, n, 0);
    forall i, j | 0 <= i < j < |m| ensures End(m[i]) < m[j].at {
      TakePair(l, k, n, i, j);
    }
    forall i | 1 <= i < |m| ensures m[i].size > 0 {
      TakePair(l, k, n, i - 1, i);
    }
    forall i | 0 <= i < |m| ensures End(Taken(l, k, n)) <= m[i].at || End(m[i]) <= Taken(l, k, n).at {
      TakeAt(l, k, n, i);
    }
  }

  /** Taking removes exactly the taken units from the list. */
  lemma TakeCovers(l: seq<Block>, base: nat, k: nat, n: nat, u: nat)
    requires WellFormed(l, base) && 1 <= k < |l| && l[k].size >= n > 0
    ensures Covers(l, u) <==> Covers(Take(l, k, n), u) || Within(Taken(l, k, n), u)
    ensures !(Covers(Take(l, k, n), u) && Within(Taken(l, k, n), u))
  {
    var m := Take(l, k, n);
    assert forall i :: 0 <= i < k ==> m[i] == l[i];
    if l[k].size == n {
      assert forall i {:trigger m[i]} :: k <= i < |m| ==> m[i] == l[i + 1];
      assert forall i {:trigger l[i]} :: k < i < |l| ==> l[i] == m[i - 1];
    } else {
      assert forall i :: 0 <= i < |l| && i != k ==> m[i] == l[i];
      assert m[k] == Block(l[k].at, l[k].size - n);
    }
  }

  // ---- the list in memory

  datatype Header = Header(ptr: nat, size: nat)
  type Heap = map<nat, Header>

  function Next(l: seq<Block>, i: nat): nat
    requires i < |l|
  {
    if i + 1 < |l| then l[i + 1].at else l[0].at
  }

  /** The headers in memory form the circular list `l`. */
  ghost predicate Represents(h: Heap, l: seq<Block>)
  {
    forall i :: 0 <= i < |l| ==> HeaderAt(h, l, i)
  }

  predicate HeaderAt(h: Heap, l: seq<Block>, i: nat)
    requires i < |l|
  {
    l[i].at in h && h[l[i].at] == Header(Next(l, i), l[i].size)
  }

  /** The stores of free once it has found `p`. */
  function Linked(h: Heap, p: nat, bp: nat): Heap
    requires p in h && bp in h && h[p].ptr in h
  {
    var next := h[p].ptr;
    var h1 := if bp + h[bp].size == next then h[bp := Header(h[next].ptr, h[bp].size + h[next].size)]
              else h[bp := Header(next, h[bp].size)];
    if p + h1[p].size == bp then h1[p := Header(h1[bp].ptr, h1[p].size + h1[bp].size)]
    else h1[p := Header(bp, h1[p].size)]
  }

  /** The header left at each address. */
  lemma LinkedAt(h: Heap, p: nat, bp: nat, a: nat)
    requires p in h && bp in h && h[p].ptr in h && p != bp && a in h
    ensures var next := h[p].ptr;
      var up := bp + h[bp].size == next;
      var m := if up then Header(h[next].ptr, h[bp].size + h[next].size) else Header(next, h[bp].size);
      && a in Linked(h, p, bp)
      && Linked(h, p, bp)[a] ==
         if a == p then (if p + h[p].size == bp then Header(m.ptr, h[p].size + m.size) else Header(bp, h[p].size))
         else if a == bp then m else h[a]
  {
  }

  lemma LinkedIndex(h: Heap, l: seq<Block>, base: nat, t: nat, b: Block, i: nat)
    requires WellFormed(l, base) && Represents(h, l) && b.size > 0 && Before(l, b.at, t) && Apart(l, b)
    requires t < |l| && b.at in h && h[b.at].size == b.size && Next(l, t) in h && l[t].at in h
      && h[l[t].at].ptr == Next(l, t)
    requires i < |Insert(l, t, b)|
    ensures HeaderAt(Linked(h, l[t].at, b.at), Insert(l, t, b), i)
  {
    hide Insert, Linked, WellFormed, Ordered, Apart, Before, Represents;
    var n := Insert(l, t, b);
    var up, down := End(b) == Next(l, t), End(l[t]) == b.at;
    var j := if i <= t then i else i - 1 + (if up then 1 else 0) + (if down then 1 else 0);
    NodeFacts(h, l, base, t, b, if j < |l| then j else 0);
    NodeFacts(h, l, base, t, b, t);
    if t + 1 < |l| { NodeFacts(h, l, base, t, b, t + 1); }
    InsertAt(l, t, b, i);
    InsertAt(l, t, b, 0);
    if i + 1 < |n| { InsertAt(l, t, b, i + 1); }
    LinkedAt(h, l[t].at, b.at, n[i].at);
  }

  lemma NodeFacts(h: Heap, l: seq<Block>, base: nat, t: nat, b: Block, j: nat)
    requires WellFormed(l, base) && Represents(h, l) && b.size > 0 && Before(l, b.at, t) && Apart(l, b) && j < |l|
    ensures HeaderAt(h, l, j) && l[j].at != b.at && (j != t ==> l[j].at != l[t].at)
    ensures t < |l| && base < b.at && l[0].at == base && (t + 1 == |l| ==> End(b) != l[0].at)
  {
  }

  lemma LinkedRepresents(h: Heap, l: seq<Block>, base: nat, t: nat, b: Block)
    requires WellFormed(l, base) && Represents(h, l) && b.size > 0 && Before(l, b.at, t) && Apart(l, b)
    requires b.at in h && h[b.at].size == b.size
    ensures l[t].at in h && h[l[t].at].ptr == Next(l, t) && Next(l, t) in h
    ensures Represents(Linked(h, l[t].at, b.at), Insert(l, t, b))
    ensures forall a :: a in h && a != b.at && a != l[t].at ==>
      a in Linked(h, l[t].at, b.at) && Linked(h, l[t].at, b.at)[a] == h[a]
  {
    assert HeaderAt(h, l, t) && HeaderAt(h, l, 0);
    if t + 1 < |l| { assert HeaderAt(h, l, t + 1); }
    hide Insert;
    forall i | 0 <= i < |Insert(l, t, b)|
      ensures HeaderAt(Linked(h, l[t].at, b.at), Insert(l, t, b), i)
    {
      LinkedIndex(h, l, base, t, b, i);
    }
  }

  /** The stores of malloc once it has found block `k` behind block `prev`. */
  function Cut(h: Heap, prev: nat, p: nat, n: nat): Heap
    requires prev in h && p in h && h[p].size >= n
  {
    if h[p].size == n then h[prev := Header(h[p].ptr, h[prev].size)]
    else
      var rest := h[p].size - n;
      var h1 := h[p := Header(h[p].ptr, rest)];
      h1[p + rest := Header(if p + rest in h1 then h1[p + rest].ptr else 0, n)]
  }

  lemma CutAt(h: Heap, prev: nat, p: nat, n: nat, a: nat)
    requires prev in h && p in h && h[p].size >= n > 0 && prev != p && a in h
    ensures a in Cut(h, prev, p, n)
    ensures h[p].size == n ==> Cut(h, prev, p, n)[a] == if a == prev then Header(h[p].ptr, h[prev].size) else h[a]
    ensures h[p].size > n ==>
      Cut(h, prev, p, n)[a] == (if a == p then Header(h[p].ptr, h[p].size - n)
                                else if a == p + h[p].size - n then Header(h[a].ptr, n) else h[a])
  {
  }

  lemma CutIndex(h: Heap, l: seq<Block>, base: nat, k: nat, n: nat, i: nat)
    requires WellFormed(l, base) && Represents(h, l) && 1 <= k < |l| && l[k].size >= n > 0
    requires i < |Take(l, k, n)| && l[k - 1].at in h && l[k].at in h && h[l[k].at].size == l[k].size
    ensures HeaderAt(Cut(h, l[k - 1].at, l[k].at, n), Take(l, k, n), i)
  {
    hide Take, Cut, WellFormed, Ordered, Represents;
    var m := Take(l, k, n);
    TakeAt(l, k, n, i);
    TakeAt(l, k, n, 0);
    if i + 1 < |m| { TakeAt(l, k, n, i + 1); }
    CutFacts(h, l, base, k, i);
    CutFacts(h, l, base, k, k);
    CutFacts(h, l, base, k, k - 1);
    if i + 1 < |l| { CutFacts(h, l, base, k, i + 1); }
    CutAt(h, l[k - 1].at, l[k].at, n, m[i].at);
  }

  lemma CutFacts(h: Heap, l: seq<Block>, base: nat, k: nat, j: nat)
    requires WellFormed(l, base) && Represents(h, l) && 1 <= k < |l| && j < |l|
    ensures HeaderAt(h, l, j) && (j != k ==> !Within(l[k], l[j].at) && l[j].at != l[k].at)
    ensures j != k - 1 ==> l[j].at != l[k - 1].at
  {
  }

  lemma CutRepresents(h: Heap, l: seq<Block>, base: nat, k: nat, n: nat)
    requires WellFormed(l, base) && Represents(h, l) && 1 <= k < |l| && l[k].size >= n > 0
    ensures l[k - 1].at in h && l[k].at in h && h[l[k].at].size == l[k].size
    ensures Represents(Cut(h, l[k - 1].at, l[k].at, n), Take(l, k, n))
    ensures var h', a := Cut(h, l[k - 1].at, l[k].at, n), Taken(l, k, n).at; a in h' && h'[a].size == n
    ensures forall a :: a in h && a != l[k - 1].at && !Within(l[k], a) ==>
              a in Cut(h, l[k - 1].at, l[k].at, n) && Cut(h, l[k - 1].at, l[k].at, n)[a] == h[a]
  {
    assert HeaderAt(h, l, k - 1) && HeaderAt(h, l, k);
    hide Take;
    var h', m := Cut(h, l[k - 1].at, l[k].at, n), Take(l, k, n);
    forall i | 0 <= i < |m| ensures HeaderAt(h', m, i) {
      CutIndex(h, l, base, k, n, i);
    }
  }
}
