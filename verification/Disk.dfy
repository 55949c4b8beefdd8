/** The disk drivers.  kernel/memide.c answers a request at once; kernel/ide.c queues requests,
    starts the drive and completes them in its interrupt handler.  The second refines the first. */
module DiskSpec {
  type Data = seq<bv8>

  /** Drive (bit 0 of the device number) and block number. */
  datatype Place = Place(drive: nat, block: nat)

  datatype Buffer = Buffer(dev: nat, blockno: nat, valid: bool, dirty: bool, data: Data)

  type Disk = map<Place, Data>

  function Where(b: Buffer): Place { Place(b.dev % 2, b.blockno) }

  /** Two buffers are for the same place exactly if their drives and their block numbers agree. */
  lemma SamePlace(b: Buffer, c: Buffer)
    ensures Where(b) == Where(c) <==> b.dev % 2 == c.dev % 2 && b.blockno == c.blockno
  {
  }

  predicate OnDisk(disk: Disk, b: Buffer) { Where(b) in disk }

  /** iderw has nothing to do for a buffer that is valid and clean. */
  predicate Synced(b: Buffer) { b.valid && !b.dirty }

  datatype Result = Result(disk: Disk, buf: Buffer)

  /** The request carried out at once: a dirty buffer is written, any other is read. */
  function Sync(disk: Disk, b: Buffer): (r: Result)
    requires OnDisk(disk, b)
    ensures Synced(r.buf) && r.disk.Keys == disk.Keys && r.disk[Where(b)] == r.buf.data && Where(r.buf) == Where(b)
    ensures r.buf.data == if b.dirty then b.data else disk[Where(b)]
    ensures forall p :: p in disk && p != Where(b) ==> r.disk[p] == disk[p]
  {
    if b.dirty then Result(disk[Where(b) := b.data], b.(valid := true, dirty := false))
    else Result(disk, b.(valid := true, data := disk[Where(b)]))
  }

  /** A buffer in memory, with the link of the disk queue. */
  class Buf {
    var dev: nat
    var blockno: nat
    var valid: bool
    var dirty: bool
    var data: Data
    var qnext: Buf?

    function V(): Buffer
      reads this
    {
      Buffer(dev, blockno, valid, dirty, data)
    }
  }
}

module MemIde {
  import opened DiskSpec

  class MemDisk {
    var disk: Disk

    method IdeRw(b: Buf)
      requires OnDisk(disk, b.V()) && !Synced(b.V())
      modifies this, b`valid, b`dirty, b`data
      ensures Result(disk, b.V()) == Sync(old(disk), old(b.V()))
      ensures old(b.dirty) ==> disk == old(disk)[Place(b.dev % 2, b.blockno) := old(b.data)] && b.data == old(b.data)
      ensures !old(b.dirty) ==> disk == old(disk) && b.data == old(disk)[Place(b.dev % 2, b.blockno)]
    {
      var p := Place(b.dev % 2, b.blockno);
      if b.dirty {
        b.dirty := false;
        disk := disk[p := b.data];
      } else {
        b.data := disk[p];
      }
      b.valid := true;
    }
  }
}

module Ide {
  import opened Options
  import opened DiskSpec

  const FSSIZE: nat := 100000

  /** What idestart programs into the drive: the address, and the data of a write. */
  datatype Command = Read(at: Place) | Write(at: Place, data: Data)

  function Start(b: Buffer): Command
  {
    if b.dirty then Write(Where(b), b.data) else Read(Where(b))
  }

  /** What idestart writes to the four address ports: three bytes of the sector number, then the
      drive bit and the last four bits of the sector number in one byte. */
  function Ports(dev: nat, sector: nat): seq<nat>
  {
    [sector % 0x100, sector / 0x100 % 0x100, sector / 0x1_0000 % 0x100,
     0xe0 + 0x10 * (dev % 2) + sector / 0x100_0000 % 0x10]
  }

  /** The drive and the sector that a drive reads out of its ports. */
  function Selected(p: seq<nat>): Place
    requires |p| == 4
  {
    Place(p[3] / 0x10 % 2, p[0] + 0x100 * p[1] + 0x1_0000 * p[2] + 0x100_0000 * (p[3] % 0x10))
  }

  lemma PortsExact(dev: nat, sector: nat)
    requires sector < FSSIZE
    ensures Selected(Ports(dev, sector)) == Place(dev % 2, sector)
  {
    var q := 0xe0 + 0x10 * (dev % 2) + sector / 0x100_0000 % 0x10;
    assert q / 0x10 == 0xe + dev % 2 && q % 0x10 == sector / 0x100_0000 % 0x10;
  }

  /** The command acts on the place in the ports, it writes exactly for a dirty buffer, and two
      buffers put the same values into the ports exactly if they are for the same block of the
      same drive. */
  lemma StartSelects(b: Buffer, c: Buffer)
    requires b.blockno < FSSIZE && c.blockno < FSSIZE
    ensures var at := Selected(Ports(b.dev, b.blockno));
      Start(b) == if b.dirty then Write(at, b.data) else Read(at)
    ensures Ports(b.dev, b.blockno) == Ports(c.dev, c.blockno) <==> b.dev % 2 == c.dev % 2 && b.blockno == c.blockno
  {
    PortsExact(b.dev, b.blockno);
    PortsExact(c.dev, c.blockno);
  }

  /** What the drive holds once it has carried out the command. */
  function Completed(disk: Disk, c: Command): Disk
  {
    match c case Write(at, data) => disk[at := data] case Read(_) => disk
  }

  /** What ideintr makes of the disk and of the buffer at the head of the queue.  A drive that has
      failed has carried out nothing; the handler looks at its error bits only before it copies the
      data of a read, and marks the buffer valid and clean in any case. */
  function Finished(disk: Disk, c: Command, b: Buffer, failed: bool): Result
    requires c.at in disk
  {
    if failed then Result(disk, Stale(b))
    else
      var d := Completed(disk, c);
      Result(d, b.(valid := true, dirty := false, data := if b.dirty then b.data else d[c.at]))
  }

  function Stale(b: Buffer): Buffer { b.(valid := true, dirty := false) }

  /** For the command that idestart made of the buffer, that is the synchronous driver's answer
      exactly if the drive has not failed, or the buffer and the block were equal before. */
  lemma FinishedIsSync(disk: Disk, b: Buffer, failed: bool)
    requires OnDisk(disk, b)
    ensures Finished(disk, Start(b), b, failed) == Sync(disk, b) <==> !failed || b.data == disk[Where(b)]
  {
    if failed && b.data == disk[Where(b)] {
      assert b.dirty ==> disk[Where(b) := b.data] == disk;
    }
    if failed && Stale(b) == Sync(disk, b).buf && disk == Sync(disk, b).disk {
      assert disk[Where(b)] == b.data;
    }
  }

  // ---- the queue in memory

  /** Each buffer of `l` links to the next one, the last to none. */
  ghost predicate Chained(head: Buf?, l: seq<Buf>)
    reads l
  {
    && head == (if l == [] then null else l[0])
    && forall i {:trigger l[i].qnext} :: 0 <= i < |l| ==> l[i].qnext == if i + 1 < |l| then l[i + 1] else null
  }

  ghost predicate Distinct(l: seq<Buf>) { forall i, j :: 0 <= i < j < |l| ==> l[i] != l[j] }

  lemma TailChained(head: Buf?, l: seq<Buf>)
    requires Chained(head, l) && Distinct(l) && l != []
    ensures Chained(l[0].qnext, l[1..]) && Distinct(l[1..]) && l[0] !in l[1..]
  {
    assert forall i :: 0 <= i < |l| - 1 ==> l[1..][i] == l[i + 1];
  }

  class Driver {
    var disk: Disk
    var active: Option<Command>
    var idequeue: Buf?
    ghost var q: seq<Buf>

    ghost predicate Valid()
      reads this, q
    {
      && Chained(idequeue, q) && Distinct(q)
      && (active.Some? <==> q != [])
      && (q != [] ==> active == Some(Start(q[0].V())))
      && forall b :: b in q ==> OnDisk(disk, b.V()) && !Synced(b.V())
    }

    /** iderw up to the wait: append the buffer, and start the drive if it was idle. */
    method Enqueue(b: Buf)
      requires Valid() && b !in q && OnDisk(disk, b.V()) && !Synced(b.V())
      modifies this`active, this`idequeue, this`q, q, b
      ensures Valid() && q == old(q) + [b] && forall c :: c in q ==> c.V() == old(c.V())
    {
      ghost var l := q;
      b.qnext := null;
      assert Chained(idequeue, l);
      if idequeue == null {
        idequeue := b;
      } else {
        var p: Buf := idequeue;
        ghost var k := 0;
        while p.qnext != null
          invariant 0 <= k < |q| && p == q[k] && Chained(idequeue, q) && b !in q
          decreases |q| - k
        {
          p := p.qnext;
          k := k + 1;
        }
        p.qnext := b;
      }
      q := l + [b];
      forall i | 0 <= i < |q| ensures q[i].qnext == if i + 1 < |q| then q[i + 1] else null {
        if i < |l| { assert q[i] == l[i]; }
      }
      if idequeue == b {
        active := Some(Start(b.V()));
      }
    }

    /** The completion of the active command for its buffer. */
    method Complete(b: Buf, failed: bool)
      requires active.Some? && active.value.at in disk
      modifies this`disk, b`data, b`valid, b`dirty
      ensures Result(disk, b.V()) == Finished(old(disk), active.value, old(b.V()), failed)
      ensures disk.Keys == old(disk).Keys
    {
      if !failed { disk := Completed(disk, active.value); }
      if !b.dirty && !failed { b.data := disk[active.value.at]; }
      b.valid := true;
      b.dirty := false;
    }

    /** ideintr: the head of the queue is done, exactly as the synchronous driver would do it
        unless the drive has failed, and the drive starts on the next buffer. */
    method Interrupt(failed: bool)
      requires Valid()
      modifies this`active, this`idequeue, this`q, this`disk, if q == [] then {} else {q[0]}
      ensures old(q) == [] ==> q == [] && disk == old(disk)
      ensures old(q) != [] ==> q == old(q)[1..] && old(active).Some? && old(active).value.at in old(disk)
      ensures old(q) != [] ==>
        Result(disk, old(q)[0].V()) == Finished(old(disk), old(active).value, old(q[0].V()), failed)
      ensures old(q) != [] && !failed ==> Result(disk, old(q)[0].V()) == Sync(old(disk), old(q[0].V()))
      ensures Valid()
    {
      if idequeue == null { return; }
      ghost var l := q;
      TailChained(idequeue, l);
      var b: Buf := idequeue;
      FinishedIsSync(disk, b.V(), failed);
      idequeue := b.qnext;
      Complete(b, failed);
      hide Finished, Sync;
      q := l[1..];
      if idequeue != null {
        active := Some(Start(idequeue.V()));
      } else {
        active := None;
      }
    }
  }
}
