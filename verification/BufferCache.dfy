/** The buffer cache under every interleaving (kernel/bio.c:61-142, kernel/sleeplock.c).  A handle
    is one use of a buffer, from bread to brelse; a process may have several.  Each action is
    one critical section: what runs between taking and releasing a lock. */
module BufferCache {
  import opened Options
  import opened BufferList

  type Data = seq<int>

  datatype Pc =
    | Idle
    | Waiting(b: nat, key: Key)                  // bget picked b; its sleep lock is not held yet
    | Locked(b: nat, key: Key)                   // sleep lock held, contents not checked yet
    | Using(b: nat, key: Key, unsaved: bool)     // bread has returned
    | Releasing(b: nat, key: Key)                // sleep lock given back, reference not yet

  datatype Action = Bget(key: Key) | AcquireSleep | Check | Modify(data: Data) | Bwrite | ReleaseSleep | Drop

  /** `writes` lists every bwrite so far; `stamp` is when each buffer last became unused. */
  datatype Sys = Sys(cache: Cache, data: seq<Data>, locked: seq<bool>, disk: map<Key, Data>, handles: seq<Pc>,
                     writes: seq<(Key, Data)>, stamp: seq<nat>, clock: nat)

  predicate On(pc: Pc, b: nat) { !pc.Idle? && pc.b == b }
  predicate Holds(pc: Pc, b: nat) { (pc.Locked? || pc.Using?) && pc.b == b }

  function Refs(hs: seq<Pc>, b: nat): nat
  {
    if hs == [] then 0 else Refs(hs[..|hs| - 1], b) + (if On(hs[|hs| - 1], b) then 1 else 0)
  }

  function Holders(hs: seq<Pc>, b: nat): nat
  {
    if hs == [] then 0 else Holders(hs[..|hs| - 1], b) + (if Holds(hs[|hs| - 1], b) then 1 else 0)
  }

  lemma {:induction false} CountsUpdate(hs: seq<Pc>, h: nat, pc: Pc, b: nat)
    requires h < |hs|
    ensures Refs(hs[h := pc], b) == Refs(hs, b) - (if On(hs[h], b) then 1 else 0) + (if On(pc, b) then 1 else 0)
    ensures Holders(hs[h := pc], b)
      == Holders(hs, b) - (if Holds(hs[h], b) then 1 else 0) + (if Holds(pc, b) then 1 else 0)
    decreases |hs|
  {
    var n := |hs| - 1;
    if h == n {
      assert hs[h := pc][..n] == hs[..n];
    } else {
      assert hs[h := pc][..n] == hs[..n][h := pc];
      CountsUpdate(hs[..n], h, pc, b);
    }
  }

  lemma {:induction false} CountsAtLeast(hs: seq<Pc>, h: nat, b: nat)
    requires h < |hs|
    ensures On(hs[h], b) ==> Refs(hs, b) >= 1
    ensures Holds(hs[h], b) ==> Holders(hs, b) >= 1
    decreases |hs|
  {
    if h < |hs| - 1 {
      CountsAtLeast(hs[..|hs| - 1], h, b);
    }
  }

  lemma OneHolder(hs: seq<Pc>, g: nat, h: nat, b: nat)
    requires g < |hs| && h < |hs| && g != h && Holds(hs[g], b) && Holds(hs[h], b)
    ensures Holders(hs, b) >= 2
  {
    CountsUpdate(hs, g, Idle, b);
    CountsAtLeast(hs[g := Idle], h, b);
  }

  function Read(disk: map<Key, Data>, key: Key): Data { if key in disk then disk[key] else [] }

  /** One action of handle `h`; None when it is not enabled or the kernel panics. */
  function Step(s: Sys, h: nat, a: Action): Option<Sys>
    requires Sized(s)
  {
    if h >= |s.handles| then None
    else match (a, s.handles[h])
      case (Bget(key), Idle) =>
        var g := BufferList.Bget(s.cache, key);
        if g.NoBuffers? then None
        else Some(s.(cache := g.cache, handles := s.handles[h := Waiting(g.b, key)]))
      case (AcquireSleep, Waiting(b, key)) =>
        if b >= NBUF || s.locked[b] then None
        else Some(s.(locked := s.locked[b := true], handles := s.handles[h := Locked(b, key)]))
      case (Check, Locked(b, key)) =>
        if b >= NBUF then None
        else if s.cache.slots[b].valid then Some(s.(handles := s.handles[h := Using(b, key, false)]))
        else Some(s.(cache := s.cache.(slots := s.cache.slots[b := s.cache.slots[b].(valid := true, dirty := false)]),
                     data := s.data[b := Read(s.disk, s.cache.slots[b].key)],
                     handles := s.handles[h := Using(b, key, false)]))
      case (Modify(d), Using(b, key, _)) =>
        if b >= NBUF then None
        else Some(s.(data := s.data[b := d], handles := s.handles[h := Using(b, key, true)]))
      case (Bwrite, Using(b, key, _)) =>
        if b >= NBUF || !s.locked[b] then None
        else Some(s.(cache := s.cache.(slots := s.cache.slots[b := s.cache.slots[b].(valid := true, dirty := false)]),
                     disk := s.disk[s.cache.slots[b].key := s.data[b]],
                     writes := s.writes + [(s.cache.slots[b].key, s.data[b])],
                     handles := s.handles[h := Using(b, key, false)]))
      case (ReleaseSleep, Using(b, key, unsaved)) =>
        if b >= NBUF || unsaved || !s.locked[b] then None
        else Some(s.(locked := s.locked[b := false], handles := s.handles[h := Releasing(b, key)]))
      case (Drop, Releasing(b, key)) =>
        if b >= NBUF || s.cache.slots[b].refcnt == 0 then None
        else
          var last := s.cache.slots[b].refcnt == 1;
          Some(s.(cache := Brelse(s.cache, b), handles := s.handles[h := Idle],
                  stamp := if last then s.stamp[b := s.clock] else s.stamp,
                  clock := if last then s.clock + 1 else s.clock))
      case _ => None
  }

  ghost predicate Sized(s: Sys)
  {
    s.cache.Valid() && |s.data| == |s.locked| == |s.stamp| == NBUF
  }

  predicate Shared(key: Key) { key == Key(0, 0) }

  ghost predicate Unsaved(s: Sys, b: nat)
  {
    exists h :: 0 <= h < |s.handles| && s.handles[h].Using? && s.handles[h].b == b && s.handles[h].unsaved
  }

  /** Reference counts and sleep locks agree with the handles, and a handle's buffer still
      holds the block it was taken for. */
  ghost predicate Counted(s: Sys)
  {
    && Sized(s)
    && (forall b :: 0 <= b < NBUF ==> s.cache.slots[b].refcnt == Refs(s.handles, b))
    && (forall b :: 0 <= b < NBUF ==> Holders(s.handles, b) == if s.locked[b] then 1 else 0)
    && (forall h :: 0 <= h < |s.handles| && !s.handles[h].Idle? ==>
          s.handles[h].b < NBUF && s.cache.slots[s.handles[h].b].key == s.handles[h].key)
  }

  /** One buffer per block; the boot-time key (0, 0) is the exception. */
  ghost predicate Unique(s: Sys)
    requires Sized(s)
  {
    forall b, c :: 0 <= b < c < NBUF && s.cache.slots[b].key == s.cache.slots[c].key ==> Shared(s.cache.slots[b].key)
  }

  /** A valid buffer without unwritten changes equals its disk block. */
  ghost predicate Coherent(s: Sys)
    requires Sized(s)
  {
    && (forall b :: 0 <= b < NBUF ==> !s.cache.slots[b].dirty)
    && forall b :: 0 <= b < NBUF && s.cache.slots[b].valid && !Shared(s.cache.slots[b].key) && !Unsaved(s, b) ==>
         s.data[b] == Read(s.disk, s.cache.slots[b].key)
  }

  /** A handle past bread has a valid buffer. */
  ghost predicate Loaded(s: Sys)
    requires Sized(s)
  {
    forall h :: 0 <= h < |s.handles| && s.handles[h].Using? && s.handles[h].b < NBUF
      ==> s.cache.slots[s.handles[h].b].valid
  }

  /** The list is ordered by when buffers last became unused, latest first. */
  ghost predicate Recency(s: Sys)
    requires Sized(s)
  {
    && (forall i, j :: 0 <= i < j < NBUF ==> s.stamp[s.cache.order[i]] > s.stamp[s.cache.order[j]])
    && (forall b :: 0 <= b < NBUF ==> s.stamp[b] < s.clock)
  }

  ghost predicate Inv(s: Sys)
  {
    Counted(s) && Unique(s) && Coherent(s) && Loaded(s) && Recency(s)
  }

  // ---- every action keeps the invariant

  lemma StepSized(s: Sys, h: nat, a: Action)
    requires Sized(s) && Step(s, h, a).Some?
    ensures Sized(Step(s, h, a).value)
  {
    hide BufferList.Bget, Brelse;
    if a.Drop? && h < |s.handles| && s.handles[h].Releasing? && s.handles[h].b < NBUF
      && s.cache.slots[s.handles[h].b].refcnt > 0 {
      BrelseKeepsValid(s.cache, s.handles[h].b);
    }
  }

  function Bit(p: bool): int { if p then 1 else 0 }

  /** How one action of handle `h` moves reference counts, locks and keys. */
  ghost predicate Effect(s: Sys, s': Sys, h: nat)
    requires Sized(s) && Sized(s')
  {
    && h < |s.handles| == |s'.handles| && s'.handles == s.handles[h := s'.handles[h]]
    && (forall b :: 0 <= b < NBUF ==>
          s'.cache.slots[b].refcnt == s.cache.slots[b].refcnt - Bit(On(s.handles[h], b)) + Bit(On(s'.handles[h], b)))
    && (forall b :: 0 <= b < NBUF ==>
          Bit(s'.locked[b]) == Bit(s.locked[b]) - Bit(Holds(s.handles[h], b)) + Bit(Holds(s'.handles[h], b)))
    && (forall b :: 0 <= b < NBUF && s.cache.slots[b].refcnt > 0 ==>
          s'.cache.slots[b].key == s.cache.slots[b].key && (s.cache.slots[b].valid ==> s'.cache.slots[b].valid))
    && (!s'.handles[h].Idle? ==> s'.handles[h].b < NBUF)
    && (s'.handles[h].Using? && !s.handles[h].Using? ==> s'.cache.slots[s'.handles[h].b].valid)
    && (s.handles[h].Idle? && !s'.handles[h].Idle? ==> s'.cache.slots[s'.handles[h].b].key == s'.handles[h].key)
    && (!s.handles[h].Idle? && !s'.handles[h].Idle?
       ==> s'.handles[h].b == s.handles[h].b && s'.handles[h].key == s.handles[h].key)
  }

  lemma StepEffect(s: Sys, h: nat, a: Action)
    requires Sized(s) && Step(s, h, a).Some? && Sized(Step(s, h, a).value)
    ensures Effect(s, Step(s, h, a).value, h)
  {
    hide Position, MoveToFront, Hit, Victim;
  }

  lemma StepKeepsCounted(s: Sys, h: nat, a: Action)
    requires Counted(s) && Step(s, h, a).Some?
    ensures Counted(Step(s, h, a).value)
  {
    var s' := Step(s, h, a).value;
    StepSized(s, h, a);
    StepEffect(s, h, a);
    EffectKeepsCounted(s, s', h);
  }

  lemma EffectKeepsCounted(s: Sys, s': Sys, h: nat)
    requires Counted(s) && Sized(s') && Effect(s, s', h)
    ensures Counted(s')
  {
    hide Refs, Holders;
    forall b | 0 <= b < NBUF
      ensures s'.cache.slots[b].refcnt == Refs(s'.handles, b)
      ensures Holders(s'.handles, b) == if s'.locked[b] then 1 else 0
    {
      CountsUpdate(s.handles, h, s'.handles[h], b);
    }
    forall g | 0 <= g < |s'.handles| && !s'.handles[g].Idle?
      ensures s'.handles[g].b < NBUF && s'.cache.slots[s'.handles[g].b].key == s'.handles[g].key
    {
      if !s.handles[g].Idle? {
        CountsAtLeast(s.handles, g, s.handles[g].b);
      }
    }
  }

  /** A buffer keeps its block for as long as anyone refers to it. */
  lemma IdentityFixed(s: Sys, h: nat, a: Action, b: nat)
    requires Inv(s) && Step(s, h, a).Some? && b < NBUF && s.cache.slots[b].refcnt > 0
    ensures Sized(Step(s, h, a).value) && Step(s, h, a).value.cache.slots[b].key == s.cache.slots[b].key
  {
    StepSized(s, h, a);
    StepEffect(s, h, a);
    hide Step;
  }

  lemma StepKeepsUnique(s: Sys, h: nat, a: Action)
    requires Inv(s) && Step(s, h, a).Some?
    ensures Sized(Step(s, h, a).value) && Unique(Step(s, h, a).value)
  {
    StepSized(s, h, a);
    KeyEffect(s, h, a);
    hide Step, Counted, Coherent, Loaded, Recency;
  }

  /** At most buffer `x` gets another key, and then one that no buffer had. */
  ghost predicate KeyChange(s: Sys, s': Sys, x: nat)
    requires Sized(s) && Sized(s')
  {
    && x < NBUF
    && (forall b :: 0 <= b < NBUF && b != x ==> s'.cache.slots[b].key == s.cache.slots[b].key)
    && (s'.cache.slots[x].key == s.cache.slots[x].key
        || forall b :: 0 <= b < NBUF ==> s.cache.slots[b].key != s'.cache.slots[x].key)
  }

  lemma KeyEffect(s: Sys, h: nat, a: Action)
    requires Sized(s) && Step(s, h, a).Some? && Sized(Step(s, h, a).value)
    ensures exists x: nat :: KeyChange(s, Step(s, h, a).value, x)
  {
    hide Position, MoveToFront, Hit, Victim;
    var s' := Step(s, h, a).value;
    if a.Bget? {
      BgetKeys(s.cache, a.key);
      hide BufferList.Bget;
      assert KeyChange(s, s', BufferList.Bget(s.cache, a.key).b);
    } else {
      assert KeyChange(s, s', 0);
    }
  }

  /** bget leaves every other key alone, and gives a buffer a new key only when no buffer
      has that key. */
  lemma BgetKeys(c: Cache, key: Key)
    requires c.Valid() && BufferList.Bget(c, key).Got?
    ensures var g := BufferList.Bget(c, key);
      && (forall b :: 0 <= b < NBUF && b != g.b ==> g.cache.slots[b] == c.slots[b])
      && (c.slots[g.b].key != key ==> forall b :: 0 <= b < NBUF ==> c.slots[b].key != key)
  {
    if Hit(c, key, 0).None? {
      forall b | 0 <= b < NBUF ensures c.slots[b].key != key {
        var p := Position(c.order, b);
      }
    }
  }

  lemma StepKeepsLoaded(s: Sys, h: nat, a: Action)
    requires Inv(s) && Step(s, h, a).Some?
    ensures Sized(Step(s, h, a).value) && Loaded(Step(s, h, a).value)
  {
    var s' := Step(s, h, a).value;
    StepSized(s, h, a);
    StepEffect(s, h, a);
    hide Step, Refs, Holders, Coherent, Unique, Recency;
    forall g | 0 <= g < |s'.handles| && s'.handles[g].Using? && s'.handles[g].b < NBUF
      ensures s'.cache.slots[s'.handles[g].b].valid
    {
      CountsAtLeast(s.handles, g, s'.handles[g].b);
    }
  }

  /** At most one handle uses a buffer, so only the holder can have unsaved changes. */
  lemma OnlyHolderUnsaved(s: Sys, h: nat, b: nat)
    requires Counted(s) && h < |s.handles| && b < NBUF && Holds(s.handles[h], b)
    ensures Unsaved(s, b) <==> s.handles[h].Using? && s.handles[h].unsaved
    ensures s.locked[b]
  {
    hide Refs, Holders;
    CountsAtLeast(s.handles, h, b);
    if Unsaved(s, b) {
      var g :| 0 <= g < |s.handles| && s.handles[g].Using? && s.handles[g].b == b && s.handles[g].unsaved;
      if g != h {
        OneHolder(s.handles, g, h, b);
      }
    }
  }

  lemma UnsavedElsewhere(s: Sys, s': Sys, h: nat, b: nat)
    requires Sized(s) && Sized(s') && Effect(s, s', h) && b < NBUF
    requires !(s.handles[h].Using? && s.handles[h].b == b && s.handles[h].unsaved)
    requires !(s'.handles[h].Using? && s'.handles[h].b == b && s'.handles[h].unsaved)
    ensures Unsaved(s', b) == Unsaved(s, b)
  {
    if Unsaved(s', b) {
      var g :| 0 <= g < |s'.handles| && s'.handles[g].Using? && s'.handles[g].b == b && s'.handles[g].unsaved;
      assert s.handles[g] == s'.handles[g];
    }
    if Unsaved(s, b) {
      var g :| 0 <= g < |s.handles| && s.handles[g].Using? && s.handles[g].b == b && s.handles[g].unsaved;
      assert s.handles[g] == s'.handles[g];
    }
  }

  /** What one action does to contents: buffer `b`, seen from a handle not using it afterwards,
      is untouched unless it is recycled; the disk changes only at the user's own block. */
  lemma OtherContents(s: Sys, h: nat, a: Action, b: nat)
    requires Sized(s) && Step(s, h, a).Some? && b < NBUF && Sized(Step(s, h, a).value)
    requires var pc := Step(s, h, a).value.handles[h]; !(pc.Using? && pc.b == b)
    ensures var s' := Step(s, h, a).value;
      && (!s.cache.slots[b].dirty ==> !s'.cache.slots[b].dirty)
      && (s'.cache.slots[b].valid
         ==> s.cache.slots[b] == s'.cache.slots[b].(refcnt := s.cache.slots[b].refcnt) && s'.data[b] == s.data[b])
      && (s'.disk == s.disk || (s.handles[h].Using? && s.handles[h].b < NBUF && s.handles[h].b != b &&
            s'.disk == s.disk[s.cache.slots[s.handles[h].b].key := s.data[s.handles[h].b]]))
      && !(s.handles[h].Using? && s.handles[h].b == b && s.handles[h].unsaved)
  {
    hide Position, MoveToFront, Hit, Victim;
  }

  /** What the action leaves in the buffer its handle uses afterwards. */
  lemma OwnContents(s: Sys, h: nat, a: Action)
    requires Sized(s) && Step(s, h, a).Some? && Sized(Step(s, h, a).value)
    requires Step(s, h, a).value.handles[h].Using?
    ensures var s', b := Step(s, h, a).value, Step(s, h, a).value.handles[h].b;
      && b < NBUF && s'.cache.slots[b].key == s.cache.slots[b].key
         && (!s.cache.slots[b].dirty ==> !s'.cache.slots[b].dirty)
      && (s'.handles[h].unsaved || s'.data[b] == Read(s'.disk, s.cache.slots[b].key)
          || (s.handles[h] == Locked(b, s.handles[h].key) && s.cache.slots[b].valid && s'.data[b] == s.data[b]
             && s'.disk == s.disk))
  {
  }

  lemma StepKeepsCoherent(s: Sys, h: nat, a: Action)
    requires Inv(s) && Step(s, h, a).Some?
    ensures Sized(Step(s, h, a).value) && Coherent(Step(s, h, a).value)
  {
    var s' := Step(s, h, a).value;
    StepSized(s, h, a);
    StepEffect(s, h, a);
    hide Step, Refs, Holders, Recency, Loaded;
    forall b | 0 <= b < NBUF
      ensures !s'.cache.slots[b].dirty
      ensures s'.cache.slots[b].valid && !Shared(s'.cache.slots[b].key) && !Unsaved(s', b) ==>
                s'.data[b] == Read(s'.disk, s'.cache.slots[b].key)
    {
      if s'.handles[h].Using? && s'.handles[h].b == b {
        OwnContents(s, h, a);
        assert s'.handles[h].unsaved ==> Unsaved(s', b);
        if Holds(s.handles[h], b) {
          OnlyHolderUnsaved(s, h, b);
        }
      } else {
        OtherContents(s, h, a, b);
        UnsavedElsewhere(s, s', h, b);
      }
    }
  }

  /** Stamping a buffer with the clock and moving it to the front keeps the order. */
  lemma MovedRecency(s: Sys, s': Sys, b: nat)
    requires Sized(s) && Sized(s') && Recency(s) && b < NBUF && s'.stamp == s.stamp[b := s.clock]
      && s'.clock == s.clock + 1
    requires s'.cache.order == MoveToFront(s.cache.order, Position(s.cache.order, b))
    ensures Recency(s')
  {
    var p := Position(s.cache.order, b);
    hide Position, MoveToFront;
    forall i | 0 <= i < NBUF ensures s'.cache.order[i] == s.cache.order[Unmoved(p, i)] {
      MoveToFrontUnmoved(s.cache.order, p, i);
    }
    forall i, j | 0 <= i < j < NBUF ensures s'.stamp[s'.cache.order[i]] > s'.stamp[s'.cache.order[j]] {
      assert s.cache.order[Unmoved(p, j)] != b;
    }
  }

  lemma StepKeepsRecency(s: Sys, h: nat, a: Action)
    requires Inv(s) && Step(s, h, a).Some?
    ensures Sized(Step(s, h, a).value) && Recency(Step(s, h, a).value)
  {
    StepSized(s, h, a);
    OrderEffect(s, h, a);
    hide Step, Position, MoveToFront, Counted, Coherent, Unique, Loaded;
    var s' := Step(s, h, a).value;
    if s'.clock != s.clock { MovedRecency(s, s', s.handles[h].b); }
  }

  /** Only the last brelse of a buffer changes the order of the list. */
  lemma OrderEffect(s: Sys, h: nat, a: Action)
    requires Sized(s) && Step(s, h, a).Some?
    ensures var s' := Step(s, h, a).value;
      || (s'.cache.order == s.cache.order && s'.stamp == s.stamp && s'.clock == s.clock)
      || (h < |s.handles| && s.handles[h].Releasing? && s.handles[h].b < NBUF && s'.clock == s.clock + 1
          && s'.stamp == s.stamp[s.handles[h].b := s.clock]
          && s'.cache.order == MoveToFront(s.cache.order, Position(s.cache.order, s.handles[h].b)))
  {
    hide BufferList.Bget, Position, MoveToFront;
  }

  /** Every action keeps the whole invariant. */
  lemma StepKeeps(s: Sys, h: nat, a: Action)
    requires Inv(s) && Step(s, h, a).Some?
    ensures Inv(Step(s, h, a).value)
  {
    StepKeepsCounted(s, h, a);
    StepKeepsUnique(s, h, a);
    StepKeepsCoherent(s, h, a);
    StepKeepsLoaded(s, h, a);
    StepKeepsRecency(s, h, a);
    hide Step;
  }

  // ---- whole runs

  /** The cache after binit, with `n` idle handles. */
  function Boot(disk: map<Key, Data>, n: nat): Sys
  {
    Sys(Initial(), seq(NBUF, _ => []), seq(NBUF, _ => false), disk, seq(n, _ => Idle), [],
      seq(NBUF, i requires 0 <= i < NBUF => i), NBUF)
  }

  lemma {:induction false} NoneOn(hs: seq<Pc>, b: nat)
    requires forall h :: 0 <= h < |hs| ==> hs[h].Idle?
    ensures Refs(hs, b) == 0 && Holders(hs, b) == 0
    decreases |hs|
  {
    if hs != [] {
      NoneOn(hs[..|hs| - 1], b);
    }
  }

  lemma BootHolds(disk: map<Key, Data>, n: nat)
    ensures Inv(Boot(disk, n))
  {
    forall b: nat { NoneOn(Boot(disk, n).handles, b); }
    hide Refs, Holders, Initial;
  }

  datatype Move = Move(h: nat, a: Action)

  /** `s'` is reached from `s` by the moves, in that order. */
  ghost predicate Runs(s: Sys, moves: seq<Move>, s': Sys)
    decreases |moves|
  {
    if moves == [] then s' == s
    else
      && Sized(s) && Step(s, moves[0].h, moves[0].a).Some?
      && Runs(Step(s, moves[0].h, moves[0].a).value, moves[1..], s')
  }

  /** The last bytes a list of writes gives a block. */
  function LastWrite(writes: seq<(Key, Data)>, key: Key): Option<Data>
  {
    if writes == [] then None
    else if writes[|writes| - 1].0 == key then Some(writes[|writes| - 1].1)
    else LastWrite(writes[..|writes| - 1], key)
  }

  /** The disk holds, for every block, the last bytes written to it or what it held first. */
  ghost predicate DiskIsPlain(s: Sys, disk: map<Key, Data>)
  {
    forall key :: Read(s.disk, key) == match LastWrite(s.writes, key) case Some(d) => d case None => Read(disk, key)
  }

  /** Only bwrite changes the disk, and the list of writes says how. */
  lemma WritesLogged(s: Sys, h: nat, a: Action)
    requires Sized(s) && Step(s, h, a).Some?
    ensures var s' := Step(s, h, a).value;
      || (s'.disk == s.disk && s'.writes == s.writes)
      || exists key, d :: s'.disk == s.disk[key := d] && s'.writes == s.writes + [(key, d)]
  {
    hide BufferList.Bget, Brelse;
    if a.Bwrite? {
      var b := s.handles[h].b;
      assert Step(s, h, a).value.writes == s.writes + [(s.cache.slots[b].key, s.data[b])];
    }
  }

  lemma {:induction false} WriteStaysPlain(s: Sys, s': Sys, disk: map<Key, Data>, key: Key, d: Data)
    requires DiskIsPlain(s, disk) && s'.disk == s.disk[key := d] && s'.writes == s.writes + [(key, d)]
    ensures DiskIsPlain(s', disk)
  {
    assert s'.writes[..|s'.writes| - 1] == s.writes;
  }

  lemma StepKeepsPlain(s: Sys, h: nat, a: Action, disk: map<Key, Data>)
    requires Sized(s) && Step(s, h, a).Some? && DiskIsPlain(s, disk)
    ensures DiskIsPlain(Step(s, h, a).value, disk)
  {
    hide Step;
    var s' := Step(s, h, a).value;
    WritesLogged(s, h, a);
    if !(s'.disk == s.disk && s'.writes == s.writes) {
      var key, d :| s'.disk == s.disk[key := d] && s'.writes == s.writes + [(key, d)];
      WriteStaysPlain(s, s', disk, key, d);
    }
  }

  lemma {:induction false} RunKeeps(s: Sys, moves: seq<Move>, s': Sys, disk: map<Key, Data>)
    requires Inv(s) && DiskIsPlain(s, disk) && Runs(s, moves, s')
    ensures Inv(s') && DiskIsPlain(s', disk)
    decreases |moves|
  {
    hide Inv, DiskIsPlain, Step;
    if moves != [] {
      InvSized(s);
      StepKeeps(s, moves[0].h, moves[0].a);
      StepKeepsPlain(s, moves[0].h, moves[0].a, disk);
      RunKeeps(Step(s, moves[0].h, moves[0].a).value, moves[1..], s', disk);
    }
  }

  lemma InvSized(s: Sys)
    requires Inv(s)
    ensures Sized(s)
  {
  }

  /** In every run, from boot on, bread returns the last bytes written to the block, as a
      plain map from blocks to bytes would (the boot-time key (0, 0) excepted). */
  lemma BreadReturnsLastWritten(disk: map<Key, Data>, n: nat, moves: seq<Move>, s: Sys, h: nat)
    requires Runs(Boot(disk, n), moves, s) && Sized(s) && Step(s, h, Check).Some?
    ensures var s', pc := Step(s, h, Check).value, Step(s, h, Check).value.handles[h];
      && pc.Using? && !pc.unsaved && pc.b < NBUF && Sized(s') && s'.cache.slots[pc.b].key == pc.key
      && (!Shared(pc.key)
         ==> s'.data[pc.b] == match LastWrite(s'.writes, pc.key) case Some(d) => d case None => Read(disk, pc.key))
  {
    BootHolds(disk, n);
    assert DiskIsPlain(Boot(disk, n), disk);
    RunKeeps(Boot(disk, n), moves, s, disk);
    StepKeeps(s, h, Check);
    StepKeepsPlain(s, h, Check, disk);
    CheckUses(s, h);
    hide Step, Boot, Refs, Holders;
    var s', pc := Step(s, h, Check).value, Step(s, h, Check).value.handles[h];
    OnlyHolderUnsaved(s', h, pc.b);
  }

  lemma CheckUses(s: Sys, h: nat)
    requires Sized(s) && Step(s, h, Check).Some?
    ensures var s' := Step(s, h, Check).value;
      h < |s'.handles| && s'.handles[h].Using? && !s'.handles[h].unsaved && s'.handles[h].b < NBUF
  {
  }

  // ---- what a handle can do

  /** Every handle can go on, except that it waits for the sleep lock while another one has it, and
      may not release what it has changed without bwrite. */
  lemma HandleGoesOn(s: Sys, h: nat)
    requires Inv(s) && Sized(s) && h < |s.handles|
    ensures match s.handles[h]
      case Idle => true
      case Waiting(b, _) => b < NBUF && (Step(s, h, AcquireSleep).Some? <==> !s.locked[b])
      case Locked(_, _) => Step(s, h, Check).Some?
      case Using(_, _, unsaved) =>
        && (forall d :: Step(s, h, Modify(d)).Some?) && Step(s, h, Bwrite).Some?
        && (Step(s, h, ReleaseSleep).Some? <==> !unsaved)
      case Releasing(_, _) => Step(s, h, Drop).Some?
  {
    CountsAtLeast(s.handles, h, if s.handles[h].Idle? then 0 else s.handles[h].b);
    hide Refs, Holders;
  }

  /** What a holder stores in its buffer is what bwrite puts on the disk, under the handle's key. */
  lemma SavesModified(s: Sys, h: nat, d: Data)
    requires Inv(s) && Sized(s) && h < |s.handles| && s.handles[h].Using?
    ensures Step(s, h, Modify(d)).Some?
    ensures var m, key := Step(s, h, Modify(d)).value, s.handles[h].key;
      && Sized(m) && m.disk == s.disk && m.writes == s.writes && Step(m, h, Bwrite).Some?
      && Step(m, h, Bwrite).value.disk == s.disk[key := d]
      && Step(m, h, Bwrite).value.writes == s.writes + [(key, d)]
      && forall b :: 0 <= b < NBUF ==> m.data[b] == if b == s.handles[h].b then d else s.data[b]
  {
    CountsAtLeast(s.handles, h, s.handles[h].b);
    hide Refs, Holders;
  }

  /** bget recycles the clean, unreferenced buffer that has been unused the longest, and
      panics exactly when no buffer is clean and unreferenced. */
  lemma VictimIsLeastRecent(s: Sys, key: Key)
    requires Inv(s) && Hit(s.cache, key, 0).None?
    ensures var g := BufferList.Bget(s.cache, key);
      && (g.NoBuffers? <==> forall b :: 0 <= b < NBUF ==> !Recyclable(s.cache.slots[b]))
      && (g.Got? ==> Recyclable(s.cache.slots[g.b]))
      && (g.Got? ==> forall b :: 0 <= b < NBUF && Recyclable(s.cache.slots[b]) ==> s.stamp[g.b] <= s.stamp[b])
  {
    hide Refs, Holders, Coherent, Unique, Loaded, Hit;
    if Victim(s.cache, NBUF).Some? {
      VictimLast(s.cache, NBUF);
      var p := Position(s.cache.order, Victim(s.cache, NBUF).value);
      hide Victim, Position;
      forall b | 0 <= b < NBUF && Recyclable(s.cache.slots[b])
        ensures s.stamp[Victim(s.cache, NBUF).value] <= s.stamp[b]
      {
        var q := Position(s.cache.order, b);
      }
    } else {
      forall b | 0 <= b < NBUF ensures !Recyclable(s.cache.slots[b]) {
        var q := Position(s.cache.order, b);
      }
    }
  }

  lemma {:induction false} VictimLast(c: Cache, p: nat)
    requires c.Valid() && p <= NBUF && Victim(c, p).Some?
    ensures exists i ::
      && 0 <= i < p && c.order[i] == Victim(c, p).value
      && forall j :: i < j < p ==> !Recyclable(c.slots[c.order[j]])
    decreases p
  {
    if Recyclable(c.slots[c.order[p - 1]]) {
      assert c.order[p - 1] == Victim(c, p).value;
    } else {
      VictimLast(c, p - 1);
    }
  }
}
