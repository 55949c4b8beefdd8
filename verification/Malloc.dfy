/** malloc, free and morecore of user/umalloc.c.  Addresses and sizes are in header units of 16
    bytes; a block is named by the address of its header. */
module Malloc {
  import opened Options
  import opened FreeList

  const UNIT: nat := 16
  const MIN_CORE: nat := 4096
  const INT_END: nat := 0x8000_0000
  const UINT_END: nat := 0x1_0000_0000

  /** The allocator's memory: headers, the free list they form, the blocks handed out (with
      their sizes) and every unit obtained from sbrk. */
  datatype Arena = Arena(base: nat, heap: Heap, free: seq<Block>, live: map<nat, nat>, core: set<nat>)

  predicate InLive(live: map<nat, nat>, u: nat) { exists a :: a in live && Within(Block(a, live[a]), u) }

  /** Live blocks keep their headers and overlap neither each other nor the free list. */
  ghost predicate LiveApart(m: Arena)
  {
    && (forall a :: a in m.live ==> m.live[a] > 0 && a > m.base && a in m.heap && m.heap[a].size == m.live[a])
    && (forall a :: a in m.live ==> Apart(m.free, Block(a, m.live[a])))
    && (forall a, c :: a in m.live && c in m.live && a < c ==> End(Block(a, m.live[a])) <= c)
  }

  /** Every unit obtained is in the free list or in a live block, and nothing else is. */
  ghost predicate Partitioned(m: Arena)
  {
    && (forall u :: u in m.core <==> Covers(m.free, u) || InLive(m.live, u))
    && (forall u :: u in m.core ==> u > m.base)
  }

  ghost predicate Ok(m: Arena)
  {
    WellFormed(m.free, m.base) && Represents(m.heap, m.free) && LiveApart(m) && Partitioned(m)
  }

  /** No unit is both free and live: free units and live units add up to the core. */
  lemma FreeXorLive(m: Arena, u: nat)
    requires Ok(m)
    ensures !(Covers(m.free, u) && InLive(m.live, u))
  {
    if InLive(m.live, u) {
      var a :| a in m.live && Within(Block(a, m.live[a]), u);
      assert Apart(m.free, Block(a, m.live[a]));
    }
  }

  // ---- free

  function Freed(m: Arena, t: nat, bp: nat): Arena
    requires t < |m.free| && bp in m.live && m.free[t].at in m.heap && bp in m.heap
      && m.heap[m.free[t].at].ptr in m.heap
  {
    m.(heap := Linked(m.heap, m.free[t].at, bp), free := Insert(m.free, t, Block(bp, m.live[bp])),
      live := m.live - {bp})
  }

  lemma FreeReady(m: Arena, t: nat, bp: nat)
    requires Ok(m) && bp in m.live && Before(m.free, bp, t)
    ensures m.free[t].at in m.heap && bp in m.heap && m.heap[m.free[t].at].ptr == Next(m.free, t)
      && Next(m.free, t) in m.heap
  {
    LinkedRepresents(m.heap, m.free, m.base, t, Block(bp, m.live[bp]));
  }

  /** free keeps the list ordered, coalesced and apart from live blocks, and moves exactly the
      units of the freed block from live to free. */
  lemma FreedKeeps(m: Arena, t: nat, bp: nat)
    requires Ok(m) && bp in m.live && Before(m.free, bp, t)
    requires m.free[t].at in m.heap && bp in m.heap && m.heap[m.free[t].at].ptr in m.heap
    ensures Ok(Freed(m, t, bp))
  {
    var b := Block(bp, m.live[bp]);
    var m' := Freed(m, t, bp);
    LinkedRepresents(m.heap, m.free, m.base, t, b);
    InsertOrdered(m.free, m.base, t, b);
    assert Apart(m.free, b);
    forall u ensures u in m'.core <==> Covers(m'.free, u) || InLive(m'.live, u) {
      FreedUnit(m, t, bp, u);
    }
    hide Linked, Insert, Represents, WellFormed;
    forall a | a in m'.live
      ensures a in m'.heap && m'.heap[a].size == m'.live[a]
      ensures Apart(m'.free, Block(a, m'.live[a]))
    {
      FreedApart(m, t, bp, a);
    }
  }

  lemma FreedUnit(m: Arena, t: nat, bp: nat, u: nat)
    requires Ok(m) && bp in m.live && Before(m.free, bp, t)
    ensures u in m.core <==> Covers(Insert(m.free, t, Block(bp, m.live[bp])), u) || InLive(m.live - {bp}, u)
  {
    var b := Block(bp, m.live[bp]);
    assert Apart(m.free, b);
    InsertCovers(m.free, t, b, u);
    hide Insert, Represents, WellFormed;
    if InLive(m.live, u) && !Within(b, u) {
      var a :| a in m.live && Within(Block(a, m.live[a]), u);
      assert a in m.live - {bp};
    }
    if InLive(m.live - {bp}, u) {
      var a :| a in m.live - {bp} && Within(Block(a, m.live[a]), u);
      assert InLive(m.live, u);
    }
  }

  lemma FreedApart(m: Arena, t: nat, bp: nat, a: nat)
    requires Ok(m) && bp in m.live && Before(m.free, bp, t) && a in m.live && a != bp
    ensures a != m.free[t].at
    ensures Apart(Insert(m.free, t, Block(bp, m.live[bp])), Block(a, m.live[a]))
  {
    var b, c, n := Block(bp, m.live[bp]), Block(a, m.live[a]), Insert(m.free, t, Block(bp, m.live[bp]));
    assert Apart(m.free, b) && Apart(m.free, c);
    hide Insert, Represents;
    forall i | 0 <= i < |n| ensures End(c) <= n[i].at || End(n[i]) <= c.at {
      InsertAt(m.free, t, b, i);
    }
  }

  // ---- malloc

  function Handed(m: Arena, k: nat, n: nat): Arena
    requires 1 <= k < |m.free| && m.free[k].size >= n && m.free[k - 1].at in m.heap && m.free[k].at in m.heap
    requires m.heap[m.free[k].at].size == m.free[k].size
  {
    m.(heap := Cut(m.heap, m.free[k - 1].at, m.free[k].at, n), free := Take(m.free, k, n),
       live := m.live[Taken(m.free, k, n).at := n])
  }

  lemma HandReady(m: Arena, k: nat, n: nat)
    requires Ok(m) && 1 <= k < |m.free| && m.free[k].size >= n > 0
    ensures m.free[k - 1].at in m.heap && m.free[k].at in m.heap && m.heap[m.free[k].at].size == m.free[k].size
    ensures Taken(m.free, k, n).at !in m.live && Taken(m.free, k, n).at > m.base
  {
    CutRepresents(m.heap, m.free, m.base, k, n);
    forall a | a in m.live ensures a != Taken(m.free, k, n).at {
      assert Apart(m.free, Block(a, m.live[a]));
    }
  }

  /** malloc keeps the list in order and moves exactly the units of the new block from free
      to live. */
  lemma HandedKeeps(m: Arena, k: nat, n: nat)
    requires Ok(m) && 1 <= k < |m.free| && m.free[k].size >= n > 0
    requires m.free[k - 1].at in m.heap && m.free[k].at in m.heap && m.heap[m.free[k].at].size == m.free[k].size
    ensures Ok(Handed(m, k, n))
  {
    hide Cut, Take, Represents, Covers, InLive, Apart, Ordered;
    var m', b := Handed(m, k, n), Taken(m.free, k, n);
    HandReady(m, k, n);
    CutRepresents(m.heap, m.free, m.base, k, n);
    TakeOrdered(m.free, m.base, k, n);
    forall u ensures u in m'.core <==> Covers(m'.free, u) || InLive(m'.live, u) {
      HandedUnit(m, k, n, u);
    }
    forall a | a in m'.live && a != b.at
      ensures a in m'.heap && m'.heap[a].size == m'.live[a] && Apart(m'.free, Block(a, m'.live[a]))
      ensures End(Block(a, m.live[a])) <= b.at || End(b) <= a
    {
      HandedApart(m, k, n, a);
    }
  }

  lemma HandedUnit(m: Arena, k: nat, n: nat, u: nat)
    requires Ok(m) && 1 <= k < |m.free| && m.free[k].size >= n > 0 && Taken(m.free, k, n).at !in m.live
    ensures u in m.core <==> Covers(Take(m.free, k, n), u) || InLive(m.live[Taken(m.free, k, n).at := n], u)
  {
    TakeCovers(m.free, m.base, k, n, u);
    hide Take, Represents, WellFormed;
    var b := Taken(m.free, k, n);
    var live' := m.live[b.at := n];
    if InLive(m.live, u) {
      var a :| a in m.live && Within(Block(a, m.live[a]), u);
      assert a in live' && live'[a] == m.live[a];
    }
    if Within(b, u) { assert b.at in live' && live'[b.at] == n; }
    if InLive(live', u) {
      var a :| a in live' && Within(Block(a, live'[a]), u);
      assert a != b.at ==> InLive(m.live, u);
    }
  }

  lemma HandedApart(m: Arena, k: nat, n: nat, a: nat)
    requires Ok(m) && 1 <= k < |m.free| && m.free[k].size >= n > 0 && a in m.live
    ensures a != m.free[k - 1].at && !Within(m.free[k], a)
    ensures Apart(Take(m.free, k, n), Block(a, m.live[a]))
    ensures var b := Taken(m.free, k, n); End(Block(a, m.live[a])) <= b.at || End(b) <= a
  {
    assert Apart(m.free, Block(a, m.live[a]));
    hide Represents;
    var c, l := Block(a, m.live[a]), Take(m.free, k, n);
    forall i | 0 <= i < |l| ensures End(c) <= l[i].at || End(l[i]) <= c.at {
      TakeAt(m.free, k, n, i);
    }
  }

  // ---- morecore

  /** The argument of sbrk is an int: the byte count wraps at 32 bits. */
  function SbrkBytes(units: nat): int
  {
    var bytes := units * UNIT % UINT_END;
    if bytes < INT_END then bytes else bytes - UINT_END
  }

  function CoreUnits(nunits: nat): nat { if nunits < MIN_CORE then MIN_CORE else nunits }

  /** Units asked of the free list for a request of `nbytes` bytes; the sum is 64-bit. */
  function NeededUnits(nbytes: nat): (n: nat)
    ensures n > 0 && (n - 1) * UNIT >= nbytes
  {
    (nbytes + UNIT - 1) / UNIT + 1
  }

  /** morecore asks sbrk for as much memory as it then claims, or the call fails, exactly for
      requests of at most 2^32 - 32 bytes; beyond, sbrk is asked for 0 or 16 bytes. */
  lemma CoreHonestIff(nbytes: nat)
    requires nbytes < UINT_END
    ensures var nu := CoreUnits(NeededUnits(nbytes));
      && (SbrkBytes(nu) < 0 || SbrkBytes(nu) == nu * UNIT <==> nbytes <= UINT_END - 2 * UNIT)
      && (nbytes > UINT_END - 2 * UNIT ==> SbrkBytes(nu) == if nbytes <= UINT_END - UNIT then 0 else UNIT)
  {
  }

  /** What malloc asks of sbrk when no block fits: 64 KB for a small request, the request rounded up
      to 16 bytes and one header for a larger one, and from 2 GB - 31 bytes on a negative number. */
  lemma CoreAsked(nbytes: nat)
    requires nbytes <= UINT_END - 2 * UNIT
    ensures var asked := SbrkBytes(CoreUnits(NeededUnits(nbytes)));
      && (nbytes <= 0xFFF0 ==> asked == 0x1_0000)
      && (0xFFF0 < nbytes <= 0x7FFF_FFE0 ==> asked == (nbytes + 15) / 16 * 16 + 16)
      && (asked < 0 <==> nbytes > 0x7FFF_FFE0)
  {
  }

  /** A request of 2^32 - 16 bytes: morecore asks sbrk for 0 bytes and then claims 4 GB. */
  lemma HugeRequest()
    ensures SbrkBytes(CoreUnits(NeededUnits(0xFFFF_FFF0))) == 0
      && CoreUnits(NeededUnits(0xFFFF_FFF0)) * UNIT == UINT_END
  {
  }

  /** New core at `g` is taken as one more live block before it is freed. */
  function Adopted(m: Arena, g: nat, nu: nat): Arena
  {
    m.(heap := m.heap[g := Header(if g in m.heap then m.heap[g].ptr else 0, nu)], live := m.live[g := nu],
       core := m.core + Units(g, nu))
  }

  function Units(g: nat, nu: nat): (s: set<nat>)
    ensures forall u :: u in s <==> Within(Block(g, nu), u)
  {
    set u: nat {:trigger Within(Block(g, nu), u)} | g <= u < g + nu && Within(Block(g, nu), u)
  }

  /** The memory sbrk returns lies above the base and everything obtained so far. */
  ghost predicate Fresh(m: Arena, g: nat) { g > m.base && forall u :: u in m.core ==> u < g }

  lemma FreshAbove(m: Arena, g: nat)
    requires Ok(m) && Fresh(m, g)
    ensures forall i :: 0 <= i < |m.free| ==> End(m.free[i]) <= g
    ensures forall a :: a in m.live ==> End(Block(a, m.live[a])) <= g
  {
    forall i | 0 <= i < |m.free| ensures End(m.free[i]) <= g {
      if i > 0 { assert Within(m.free[i], End(m.free[i]) - 1); assert Covers(m.free, End(m.free[i]) - 1); }
    }
    forall a | a in m.live ensures End(Block(a, m.live[a])) <= g {
      assert Within(Block(a, m.live[a]), a + m.live[a] - 1);
      assert InLive(m.live, a + m.live[a] - 1);
    }
  }

  lemma AdoptedKeeps(m: Arena, g: nat, nu: nat)
    requires Ok(m) && Fresh(m, g) && nu > 0
    ensures Ok(Adopted(m, g, nu)) && g !in m.live
  {
    hide Represents, LiveApart, Partitioned, Ordered;
    FreshAbove(m, g);
    AdoptedHeaders(m, g, Adopted(m, g, nu).heap);
    AdoptedLive(m, g, nu);
    AdoptedUnits(m, g, nu);
  }

  lemma AdoptedHeaders(m: Arena, g: nat, h: Heap)
    requires WellFormed(m.free, m.base) && Represents(m.heap, m.free) && g > m.base
    requires forall i :: 0 <= i < |m.free| ==> End(m.free[i]) <= g
    requires forall a :: a in m.heap && a != g ==> a in h && h[a] == m.heap[a]
    ensures Represents(h, m.free)
  {
    forall i | 0 <= i < |m.free| ensures HeaderAt(h, m.free, i) {
      assert HeaderAt(m.heap, m.free, i);
      assert End(m.free[i]) <= g;
    }
  }

  lemma AdoptedLive(m: Arena, g: nat, nu: nat)
    requires LiveApart(m) && g > m.base && nu > 0
    requires forall i :: 0 <= i < |m.free| ==> End(m.free[i]) <= g
    requires forall a :: a in m.live ==> End(Block(a, m.live[a])) <= g
    ensures LiveApart(Adopted(m, g, nu)) && g !in m.live
  {
    hide Apart;
    var m' := Adopted(m, g, nu);
    forall a | a in m'.live
      ensures m'.live[a] > 0 && a > m.base && a in m'.heap && m'.heap[a].size == m'.live[a]
      ensures a != g ==> End(Block(a, m.live[a])) <= g
    {
    }
    forall a | a in m'.live ensures Apart(m.free, Block(a, m'.live[a])) {
      if a == g { ApartAbove(m.free, Block(g, nu)); } else { assert Apart(m.free, Block(a, m.live[a])); }
    }
  }

  lemma ApartAbove(l: seq<Block>, b: Block)
    requires forall i :: 0 <= i < |l| ==> End(l[i]) <= b.at
    ensures Apart(l, b)
  {
  }

  lemma AdoptedUnits(m: Arena, g: nat, nu: nat)
    requires Partitioned(m) && g !in m.live && g > m.base
    ensures Partitioned(Adopted(m, g, nu))
  {
    var m' := Adopted(m, g, nu);
    forall u ensures u in m'.core <==> Covers(m'.free, u) || InLive(m'.live, u) {
      AdoptedUnit(m, g, nu, u);
    }
  }

  lemma AdoptedUnit(m: Arena, g: nat, nu: nat, u: nat)
    requires Partitioned(m) && g !in m.live
    ensures u in m.core + Units(g, nu) <==> Covers(m.free, u) || InLive(m.live[g := nu], u)
  {
    var live' := m.live[g := nu];
    if InLive(m.live, u) {
      var a :| a in m.live && Within(Block(a, m.live[a]), u);
      assert a in live' && live'[a] == m.live[a];
    }
    if Within(Block(g, nu), u) { assert g in live' && live'[g] == nu; }
    if InLive(live', u) {
      var a :| a in live' && Within(Block(a, live'[a]), u);
      assert a != g ==> InLive(m.live, u);
    }
  }

  // ---- the allocator

  ghost predicate InList(l: seq<Block>, a: nat) { exists i :: 0 <= i < |l| && l[i].at == a }

  /** The block a free block at `bp` belongs behind. */
  lemma PlaceExists(l: seq<Block>, base: nat, bp: nat) returns (t: nat)
    requires WellFormed(l, base) && bp > base && forall i :: 0 <= i < |l| ==> l[i].at != bp
    ensures Before(l, bp, t)
  {
    t := 0;
    while t + 1 < |l| && l[t + 1].at < bp
      invariant t < |l| && l[t].at < bp
    {
      t := t + 1;
    }
  }

  /** Hops from position `i` to position `t` of a circular list of `n` blocks. */
  function Hops(n: nat, i: nat, t: nat): nat
    requires i < n && t < n
  {
    if i <= t then t - i else n - i + t
  }

  /** One step of the search of free: it ends at the one right place. */
  lemma FreeStops(m: Arena, bp: nat, t: nat, i: nat)
    requires Ok(m) && bp in m.live && Before(m.free, bp, t) && i < |m.free|
    ensures m.free[i].at in m.heap && m.heap[m.free[i].at].ptr == Next(m.free, i)
    ensures var p, next := m.free[i].at, Next(m.free, i);
      (bp > p && bp < next) || (p >= next && (bp > p || bp < next)) <==> i == t
  {
    assert HeaderAt(m.heap, m.free, i);
  }

  /** A block of the old list that held `n` units, or the new block, is found in the new list. */
  lemma InsertFits(l: seq<Block>, t: nat, b: Block)
    requires t < |l|
    ensures exists k :: 0 <= k < |Insert(l, t, b)| && Insert(l, t, b)[k].size >= b.size
  {
    var down := End(l[t]) == b.at;
    InsertAt(l, t, b, if down then t else t + 1);
  }

  lemma InsertPlace(l: seq<Block>, t: nat, b: Block)
    requires t < |l|
    ensures InList(Insert(l, t, b), l[t].at)
  {
    InsertAt(l, t, b, t);
    assert Insert(l, t, b)[t].at == l[t].at;
  }

  /** The block next-fit chooses: the first that fits after the one at position `f`. */
  ghost predicate NextFit(l: seq<Block>, f: nat, k: nat, n: nat)
  {
    f < |l| && k < |l| && l[k].size >= n && Passed(l, f, k, n)
  }

  /** No block on the way from behind `f` to `k` fits. */
  ghost predicate Passed(l: seq<Block>, f: nat, k: nat, n: nat)
    requires f < |l| && k < |l|
  {
    forall j :: 0 <= j < |l| && Lap(|l|, f, j) < Lap(|l|, f, k) ==> l[j].size < n
  }

  lemma PassedOn(l: seq<Block>, f: nat, k: nat, n: nat)
    requires f < |l| && k < |l| && Passed(l, f, k, n) && l[k].size < n
    ensures k != f ==> Passed(l, f, After(|l|, k), n) && Lap(|l|, f, After(|l|, k)) == Lap(|l|, f, k) + 1
    ensures k == f ==> NoFit(l, n)
  {
  }

  ghost predicate NoFit(l: seq<Block>, n: nat) { forall j :: 0 <= j < |l| ==> l[j].size < n }

  /** The order in which a lap that starts behind position `f` visits the list; `f` comes last. */
  function Lap(n: nat, f: nat, j: nat): nat
    requires f < n && j < n
  {
    if j > f then j - f - 1 else n - f - 1 + j
  }

  function After(n: nat, i: nat): nat
    requires i < n
  {
    if i + 1 < n then i + 1 else 0
  }

  /** The block handed out is the tail of the first one that fits behind the rover, and its head
      stays in the list. */
  ghost predicate HandsNextFit(l: seq<Block>, rover: nat, n: nat, r: Option<nat>, l': seq<Block>)
  {
    exists f: nat, k: nat ::
      && NextFit(l, f, k, n) && k > 0 && l[f].at == rover && r == Some(l[k].at + l[k].size - n)
      && l' == if l[k].size == n then l[..k] + l[k + 1..] else l[k := Block(l[k].at, l[k].size - n)]
  }

  lemma HandedNext(l: seq<Block>, f: nat, k: nat, n: nat)
    requires NextFit(l, f, k, n) && k > 0
    ensures HandsNextFit(l, l[f].at, n, Some(Taken(l, k, n).at), Take(l, k, n))
  {
    hide Passed;
  }

  class Allocator {
    const base: nat
    var heap: Heap
    var freep: Option<nat>
    ghost var m: Arena

    ghost predicate Valid()
      reads this
    {
      && m.base == base && m.heap == heap
      && (freep.None? ==> m.live == map[] && m.core == {})
      && (freep.Some? ==> Ok(m) && InList(m.free, freep.value))
    }

    constructor (base: nat)
      ensures Valid() && this.base == base && m.live == map[] && m.core == {}
    {
      this.base := base;
      heap := map[];
      freep := None;
      m := Arena(base, map[], [], map[], {});
    }

    /** The search of free: from freep along the links to the place of `bp`. */
    method FindPlace(bp: nat) returns (p: nat, ghost t: nat)
      requires Valid() && freep.Some? && bp in m.live
      ensures Before(m.free, bp, t) && p == m.free[t].at
      ensures p in heap && p < bp && (bp < heap[p].ptr || heap[p].ptr <= p)
    {
      hide Ok, WellFormed;
      NotFree(m, bp);
      t := PlaceExists(m.free, base, bp);
      p := freep.value;
      ghost var i :| 0 <= i < |m.free| && m.free[i].at == p;
      FreeStops(m, bp, t, i);
      while !(bp > p && bp < heap[p].ptr)
        invariant 0 <= i < |m.free| && m.free[i].at == p && p in heap && heap[p].ptr == Next(m.free, i)
        invariant (bp > p && bp < heap[p].ptr) || (p >= heap[p].ptr && (bp > p || bp < heap[p].ptr)) <==> i == t
        decreases Hops(|m.free|, i, t)
      {
        if p >= heap[p].ptr && (bp > p || bp < heap[p].ptr) { break; }
        p := heap[p].ptr;
        i := After(|m.free|, i);
        FreeStops(m, bp, t, i);
      }
    }

    /** free: the block goes back to the list; the rest of the live blocks and the core stay. */
    method Free(bp: nat) returns (ghost t: nat)
      requires Valid() && freep.Some? && bp in m.live
      modifies this
      ensures Valid() && freep.Some? && m.live == old(m.live) - {bp} && m.core == old(m.core)
      ensures t < |old(m.free)| && m.free == Insert(old(m.free), t, Block(bp, old(m.live)[bp]))
      ensures Before(old(m.free), bp, t) && freep == Some(old(m.free)[t].at)
    {
      hide Ok, Insert;
      var p;
      p, t := FindPlace(bp);
      FreeReady(m, t, bp);
      FreedKeeps(m, t, bp);
      m := Freed(m, t, bp);
      InsertPlace(old(m.free), t, Block(bp, old(m.live)[bp]));
      var next := heap[p].ptr;
      if bp + heap[bp].size == next {
        heap := heap[bp := Header(heap[next].ptr, heap[bp].size + heap[next].size)];
      } else {
        heap := heap[bp := Header(next, heap[bp].size)];
      }
      if p + heap[p].size == bp {
        heap := heap[p := Header(heap[bp].ptr, heap[p].size + heap[bp].size)];
      } else {
        heap := heap[p := Header(bp, heap[p].size)];
      }
      freep := Some(p);
    }

    /** morecore: `grant` is what sbrk returns. */
    method MoreCore(nunits: nat, grant: Option<nat>) returns (ok: bool)
      requires Valid() && freep.Some? && nunits > 0
      requires grant.Some? ==> SbrkBytes(CoreUnits(nunits)) == CoreUnits(nunits) * UNIT && Fresh(m, grant.value)
      modifies this
      ensures Valid() && freep.Some? && m.live == old(m.live) && ok == grant.Some?
      ensures !ok ==> m == old(m) && freep == old(freep)
      ensures ok ==> m.core == old(m.core) + Units(grant.value, CoreUnits(nunits))
      ensures ok ==> exists k :: 0 <= k < |m.free| && m.free[k].size >= nunits
    {
      hide Ok, InList, Insert;
      var nu := nunits;
      if nu < MIN_CORE { nu := MIN_CORE; }
      if grant.None? { return false; }
      var hp := grant.value;
      AdoptedKeeps(m, hp, nu);
      m := Adopted(m, hp, nu);
      heap := heap[hp := Header(if hp in heap then heap[hp].ptr else 0, nu)];
      ghost var l := m.free;
      assert m.live - {hp} == old(m.live);
      ghost var t := Free(hp);
      InsertFits(l, t, Block(hp, nu));
      return true;
    }

    /** The search of malloc: one lap from behind freep. */
    method Search(nunits: nat) returns (hit: bool, prevp: nat, p: nat, ghost f: nat, ghost k: nat)
      requires Valid() && freep.Some? && nunits > 0
      ensures f < |m.free| && m.free[f].at == freep.value
      ensures hit ==> NextFit(m.free, f, k, nunits) && k > 0 && prevp == m.free[k - 1].at && p == m.free[k].at
      ensures !hit ==> NoFit(m.free, nunits)
    {
      hide Ok, Passed, NoFit, Lap;
      prevp := freep.value;
      f :| 0 <= f < |m.free| && m.free[f].at == prevp;
      ListStep(m, f);
      p := heap[prevp].ptr;
      k := After(|m.free|, f);
      LapStart(m.free, f, nunits);
      ghost var i := f;
      while true
        invariant 0 <= i < |m.free| && 0 <= k < |m.free| && k == After(|m.free|, i)
        invariant prevp == m.free[i].at && p == m.free[k].at
        invariant Passed(m.free, f, k, nunits)
        decreases |m.free| - Lap(|m.free|, f, k)
      {
        ListStep(m, k);
        if heap[p].size >= nunits {
          return true, prevp, p, f, k;
        }
        PassedOn(m.free, f, k, nunits);
        if p == freep.value {
          AtUnique(m, f, k);
          return false, prevp, p, f, k;
        }
        prevp, p := p, heap[p].ptr;
        i, k := k, After(|m.free|, k);
      }
    }

    /** malloc: a block of enough units, disjoint from every live block, or null exactly when no
        free block fits and sbrk fails.  A grant is memory of the size that morecore claims. */
    method Malloc(nbytes: nat, grant: Option<nat>) returns (r: Option<nat>)
      requires Valid() && nbytes < UINT_END
      requires grant.Some? ==> grant.value > base && forall u :: u in m.core ==> u < grant.value
      requires grant.Some? ==> nbytes <= UINT_END - 2 * UNIT && SbrkBytes(CoreUnits(NeededUnits(nbytes))) >= 0
      modifies this
      ensures Valid()
      ensures var n := NeededUnits(nbytes);
        && (r.None? ==> grant.None? && m.live == old(m.live) && m.core == old(m.core) && NoFit(m.free, n))
        && (r.Some? ==> m.live == old(m.live)[r.value := n] && r.value !in old(m.live))
        && (m.core == old(m.core) || (grant.Some? && m.core == old(m.core) + Units(grant.value, CoreUnits(n))))
      ensures old(freep).Some? ==>
        HandsNextFit(old(m.free), old(freep).value, NeededUnits(nbytes), r, m.free)
          || NoFit(old(m.free), NeededUnits(nbytes))
      ensures r.Some? && old(freep).Some? && m.core != old(m.core) ==> NoFit(old(m.free), NeededUnits(nbytes))
    {
      hide Ok, InList, Passed, SbrkBytes, Take, Taken, Insert, HandsNextFit;
      var nunits := (nbytes + UNIT - 1) / UNIT + 1;
      CoreHonestIff(nbytes);
      if freep.None? {
        heap := heap[base := Header(base, 0)];
        freep := Some(base);
        m := Arena(base, heap, [Block(base, 0)], map[], {});
        StartOk(m);
      }
      assert freep.Some? && m.live == old(m.live) && m.core == old(m.core);
      ghost var f, k;
      var hit, prevp, p;
      hit, prevp, p, f, k := Search(nunits);
      if !hit {
        var ok := MoreCore(nunits, grant);
        if !ok { return None; }
        hit, prevp, p, f, k := Search(nunits);
      } else {
        HandedNext(m.free, f, k, nunits);
      }
      p := HandOut(prevp, p, nunits, k);
      return Some(p);
    }

    /** The block found is taken whole, or its tail is. */
    method HandOut(prevp: nat, found: nat, nunits: nat, ghost k: nat) returns (p: nat)
      requires Valid() && freep.Some? && 1 <= k < |m.free| && m.free[k].size >= nunits > 0
      requires prevp == m.free[k - 1].at && found == m.free[k].at
      modifies this
      ensures Valid() && freep.Some? && p == Taken(old(m.free), k, nunits).at && p !in old(m.live)
      ensures m.live == old(m.live)[p := nunits] && m.core == old(m.core) && m.free == Take(old(m.free), k, nunits)
      ensures freep == Some(prevp)
    {
      hide Ok, InList;
      HandReady(m, k, nunits);
      HandedKeeps(m, k, nunits);
      HandedPrev(m.free, k, nunits);
      p := found;
      m := Handed(m, k, nunits);
      if heap[p].size == nunits {
        heap := heap[prevp := Header(heap[p].ptr, heap[prevp].size)];
      } else {
        heap := heap[p := Header(heap[p].ptr, heap[p].size - nunits)];
        p := p + heap[p].size;
        heap := heap[p := Header(if p in heap then heap[p].ptr else 0, nunits)];
      }
      freep := Some(prevp);
    }
  }

  lemma HandedPrev(l: seq<Block>, k: nat, n: nat)
    requires 1 <= k < |l| && l[k].size >= n
    ensures InList(Take(l, k, n), l[k - 1].at)
  {
    TakeAt(l, k, n, k - 1);
    assert Take(l, k, n)[k - 1].at == l[k - 1].at;
  }

  lemma LapStart(l: seq<Block>, f: nat, n: nat)
    requires f < |l|
    ensures Passed(l, f, After(|l|, f), n) && forall j :: 0 <= j < |l| ==> Lap(|l|, f, j) < |l|
  {
  }

  lemma NotFree(m: Arena, bp: nat)
    requires Ok(m) && bp in m.live
    ensures WellFormed(m.free, m.base) && bp > m.base && forall i :: 0 <= i < |m.free| ==> m.free[i].at != bp
  {
    assert Apart(m.free, Block(bp, m.live[bp]));
  }

  lemma ListStep(m: Arena, i: nat)
    requires Ok(m) && i < |m.free|
    ensures m.free[i].at in m.heap && m.heap[m.free[i].at] == Header(Next(m.free, i), m.free[i].size)
    ensures Next(m.free, i) == m.free[After(|m.free|, i)].at && m.free[0].size == 0
  {
    assert HeaderAt(m.heap, m.free, i);
  }

  lemma AtUnique(m: Arena, i: nat, j: nat)
    requires Ok(m) && i < |m.free| && j < |m.free| && m.free[i].at == m.free[j].at
    ensures i == j
  {
  }

  lemma StartOk(m: Arena)
    requires m == Arena(m.base, m.heap, [Block(m.base, 0)], map[], {}) && m.base in m.heap
      && m.heap[m.base] == Header(m.base, 0)
    ensures Ok(m) && InList(m.free, m.base)
  {
    assert HeaderAt(m.heap, m.free, 0);
    assert m.free[0].at == m.base;
  }

  // ---- the free list is determined by the live blocks

  lemma SameStart(l: seq<Block>, k: seq<Block>, base: nat, i: nat)
    requires WellFormed(l, base) && WellFormed(k, base) && forall u :: Covers(l, u) ==> Covers(k, u)
    requires 1 <= i < |l| && i <= |k| && l[..i] == k[..i]
    ensures i < |k| && k[i].at <= l[i].at
  {
    var u := l[i].at;
    assert Within(l[i], u);
    assert Covers(l, u);
    forall j | 0 <= j < i ensures !Within(k[j], u) {
      assert k[j] == k[..i][j] == l[..i][j] == l[j];
    }
  }

  lemma SameEnd(l: seq<Block>, k: seq<Block>, base: nat, i: nat)
    requires WellFormed(l, base) && WellFormed(k, base) && forall u :: Covers(k, u) ==> Covers(l, u)
    requires 1 <= i < |l| && i < |k| && l[i].at == k[i].at
    ensures End(k[i]) <= End(l[i])
  {
    var u := End(l[i]);
    assert !Covers(l, u);
    assert !Within(k[i], u);
  }

  /** Two well-formed lists over the same units are the same list: what is free is a function of
      the core and the live blocks, whatever the order of mallocs and frees. */
  lemma {:induction false} Canonical(l: seq<Block>, k: seq<Block>, base: nat, i: nat)
    requires WellFormed(l, base) && WellFormed(k, base) && forall u :: Covers(l, u) <==> Covers(k, u)
    requires 1 <= i <= |l| && i <= |k| && l[..i] == k[..i]
    ensures l == k
    decreases |l| - i
  {
    if i < |l| {
      SameStart(l, k, base, i);
      SameStart(k, l, base, i);
      SameEnd(l, k, base, i);
      SameEnd(k, l, base, i);
      Canonical(l, k, base, i + 1);
    } else if i < |k| {
      SameStart(k, l, base, i);
    }
  }

  lemma FreeDetermined(m: Arena, m': Arena)
    requires Ok(m) && Ok(m') && m.base == m'.base && m.live == m'.live && m.core == m'.core
    ensures m.free == m'.free
  {
    forall u ensures Covers(m.free, u) <==> Covers(m'.free, u) {
      FreeXorLive(m, u);
      FreeXorLive(m', u);
    }
    assert m.free[..1] == [Block(m.base, 0)] == m'.free[..1];
    Canonical(m.free, m'.free, m.base, 1);
  }
}
