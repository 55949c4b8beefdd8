/** Files as extents on per-container slices of the disk (kernel/fs.c).  The buffer cache acts as a
    plain map from block numbers to blocks, so bread and bwrite are reads and writes of `disk`. */
module ExtentSpec {
  const BSIZE: nat := 512
  const UDISKSIZE: nat := 1000
  const DINODE: nat := 64
  const U32: nat := 0x1_0000_0000

  newtype Byte = x: int | 0 <= x < 256
  type Block = b: seq<Byte> | |b| == BSIZE witness Zeroes(BSIZE)

  function Zeroes(n: nat): (r: seq<Byte>)
    ensures |r| == n
  {
    seq(n, _ => 0)
  }

  type Disk = seq<Block>

  function Bytes(d: Disk): nat { |d| * BSIZE }

  /** The disk as one flat array of bytes. */
  function At(d: Disk, a: nat): Byte
    requires a < Bytes(d)
  {
    d[a / BSIZE][a % BSIZE]
  }

  function ReadBytes(d: Disk, a: nat, n: nat): (r: seq<Byte>)
    requires a + n <= Bytes(d)
    ensures |r| == n && forall k :: 0 <= k < n ==> r[k] == At(d, a + k)
  {
    seq(n, k requires 0 <= k < n => At(d, a + k))
  }

  /** `d'` is `d` with `src` stored at flat address `a`. */
  ghost predicate Patched(d: Disk, a: nat, src: seq<Byte>, d': Disk)
  {
    && |d'| == |d| && a + |src| <= Bytes(d)
    && forall x {:trigger At(d', x)} :: 0 <= x < Bytes(d) ==>
       At(d', x) == if a <= x < a + |src| then src[x - a] else At(d, x)
  }

  lemma StoreNothing(d: Disk, a: nat)
    requires a <= Bytes(d)
    ensures Patched(d, a, [], d)
  {
  }

  lemma Split(b: nat, o: nat)
    requires o < BSIZE
    ensures (b * BSIZE + o) / BSIZE == b && (b * BSIZE + o) % BSIZE == o
  {
  }

  lemma AtInside(d: Disk, x: nat)
    requires x < Bytes(d)
    ensures x / BSIZE < |d| && x == (x / BSIZE) * BSIZE + x % BSIZE
  {
  }

  /** memmove into one block. */
  function Moved(b: Block, o: nat, s: seq<Byte>): (r: Block)
    requires o + |s| <= BSIZE
  {
    b[..o] + s + b[o + |s|..]
  }

  lemma BlockPatched(d: Disk, b: nat, o: nat, s: seq<Byte>)
    requires b < |d| && o + |s| <= BSIZE
    ensures Patched(d, b * BSIZE + o, s, d[b := Moved(d[b], o, s)])
  {
    var d' := d[b := Moved(d[b], o, s)];
    var a := b * BSIZE + o;
    forall x | 0 <= x < Bytes(d) ensures At(d', x) == if a <= x < a + |s| then s[x - a] else At(d, x) {
      AtInside(d, x);
    }
  }

  /** Storing two adjacent pieces one after the other stores their concatenation. */
  lemma PatchedTwice(d: Disk, a: nat, s: seq<Byte>, d1: Disk, t: seq<Byte>, d2: Disk)
    requires Patched(d, a, s, d1) && Patched(d1, a + |s|, t, d2)
    ensures Patched(d, a, s + t, d2)
  {
    forall x | 0 <= x < Bytes(d)
      ensures At(d2, x) == if a <= x < a + |s + t| then (s + t)[x - a] else At(d, x)
    {
      assert At(d1, x) == if a <= x < a + |s| then s[x - a] else At(d, x);
    }
  }

  /** The disk after storing `src` at flat address `a`. */
  function Store(d: Disk, a: nat, src: seq<Byte>): (r: Disk)
    ensures |r| == |d|
  {
    seq(|d|, b requires 0 <= b < |d| =>
      seq(BSIZE, k requires 0 <= k < BSIZE =>
        if a <= b * BSIZE + k < a + |src| then src[b * BSIZE + k - a] else d[b][k]))
  }

  lemma StorePatches(d: Disk, a: nat, src: seq<Byte>)
    requires a + |src| <= Bytes(d)
    ensures Patched(d, a, src, Store(d, a, src))
  {
    forall x | 0 <= x < Bytes(d)
      ensures At(Store(d, a, src), x) == if a <= x < a + |src| then src[x - a] else At(d, x)
    {
      AtInside(d, x);
    }
  }

  lemma PatchedIsStore(d: Disk, a: nat, src: seq<Byte>, d': Disk)
    requires Patched(d, a, src, d')
    ensures d' == Store(d, a, src)
  {
    forall b | 0 <= b < |d| ensures d'[b] == Store(d, a, src)[b] {
      forall k | 0 <= k < BSIZE ensures d'[b][k] == Store(d, a, src)[b][k] {
        Split(b, k);
        assert At(d', b * BSIZE + k) == d'[b][k] && At(d, b * BSIZE + k) == d[b][k];
      }
    }
  }

  // ---- files

  datatype File = File(inum: nat, kind: nat, size: nat, start: nat, nblocks: nat)

  /** Flat address of byte 0 of the file in a container's slice. */
  function Base(f: File, cid: nat): nat { (f.start + (cid + 1) * UDISKSIZE) * BSIZE }

  /** The extent lies in its slice and the slice on the disk. */
  predicate Placed(f: File, cid: nat, d: Disk)
  {
    f.start + f.nblocks <= UDISKSIZE && (cid + 2) * UDISKSIZE <= |d|
  }

  predicate ExtentsApart(f: File, g: File) { f.start + f.nblocks <= g.start || g.start + g.nblocks <= f.start }

  lemma InSlice(f: File, cid: nat, d: Disk, off: nat)
    requires Placed(f, cid, d) && off <= f.nblocks * BSIZE
    ensures Base(f, cid) + off <= Bytes(d)
    ensures (cid + 1) * UDISKSIZE * BSIZE <= Base(f, cid) + off <= (cid + 2) * UDISKSIZE * BSIZE
  {
  }

  // ---- inode records

  function Le2(v: nat): seq<Byte> { [(v % 0x100) as Byte, (v / 0x100 % 0x100) as Byte] }

  function Le4(v: nat): seq<Byte>
  {
    var (w, x, y) := (v / 0x100, v / 0x100 / 0x100, v / 0x100 / 0x100 / 0x100);
    [(v % 0x100) as Byte, (w % 0x100) as Byte, (x % 0x100) as Byte, (y % 0x100) as Byte]
  }

  function Un2(s: seq<Byte>): nat
    requires |s| == 2
  {
    s[0] as nat + 0x100 * s[1] as nat
  }

  function Un4(s: seq<Byte>): nat
    requires |s| == 4
  {
    s[0] as nat + 0x100 * s[1] as nat + 0x1_0000 * s[2] as nat + 0x100_0000 * s[3] as nat
  }

  /** The record updateInodeFile writes; it leaves the device number and the padding unset. */
  function Record(f: File, unset: seq<Byte>): (r: seq<Byte>)
    requires |unset| == 50
    ensures |r| == DINODE
  {
    Le2(f.kind) + unset[..2] + Le4(f.size) + Le4(f.start) + Le4(f.nblocks) + unset[2..]
  }

  /** The fields read_dinode finds in a record. */
  function Parsed(inum: nat, r: seq<Byte>): File
    requires |r| == DINODE
  {
    File(inum, Un2(r[0..2]), Un4(r[4..8]), Un4(r[8..12]), Un4(r[12..16]))
  }

  lemma Le4RoundTrip(v: nat)
    requires v < U32
    ensures Un4(Le4(v)) == v
  {
  }

  lemma RecordRoundTrip(f: File, unset: seq<Byte>)
    requires |unset| == 50 && f.kind < 0x1_0000 && f.size < U32 && f.start < U32 && f.nblocks < U32
    ensures Parsed(f.inum, Record(f, unset)) == f
  {
    var r := Record(f, unset);
    assert r[0..2] == Le2(f.kind) && r[4..8] == Le4(f.size) && r[8..12] == Le4(f.start) && r[12..16] == Le4(f.nblocks);
    Le4RoundTrip(f.size);
    Le4RoundTrip(f.start);
    Le4RoundTrip(f.nblocks);
  }
}

module ExtentFiles {
  import opened Options
  import opened ExtentSpec

  datatype Patch = Patch(at: nat, src: seq<Byte>)

  function Apply(d: Disk, ps: seq<Patch>): (r: Disk)
    ensures |r| == |d|
    decreases |ps|
  {
    if ps == [] then d else Apply(Store(d, ps[0].at, ps[0].src), ps[1..])
  }

  lemma ApplyCons(d: Disk, p: Patch)
    ensures Apply(d, [p]) == Store(d, p.at, p.src)
    ensures forall ps :: Apply(d, [p] + ps) == Apply(Store(d, p.at, p.src), ps)
  {
    forall ps ensures Apply(d, [p] + ps) == Apply(Store(d, p.at, p.src), ps) { assert ([p] + ps)[1..] == ps; }
  }

  /** What a write to the inode file stores: the bytes, and its own record if it grew. */
  function InodeFilePatches(inodes: File, cid: nat, src: seq<Byte>, off: nat, unset: seq<Byte>): seq<Patch>
    requires |unset| == 50
  {
    [Patch(Base(inodes, cid) + off, src)] +
    (if off + |src| > inodes.size && off != 0
     then [Patch(Base(inodes, cid), Record(inodes.(size := off + |src|), unset))] else [])
  }

  /** The inode file's size after a write to it; its own record makes it at least one record long. */
  function GrownSize(size: nat, off: nat, n: nat): nat
  {
    if off + n <= size then size else if off != 0 && off + n < DINODE then DINODE else off + n
  }

  /** What a write to any other file stores: the bytes, and if the file grew its record. */
  function FilePatches(f: File, inodes: File, cid: nat, src: seq<Byte>, off: nat, unset: seq<Byte>): seq<Patch>
    requires |unset| == 50
  {
    [Patch(Base(f, cid) + off, src)] +
    (if off + |src| > f.size && (f.inum != 0 || off != 0) then
       InodeFilePatches(inodes, cid, Record(f.(size := off + |src|), unset), DINODE * f.inum, unset)
     else [])
  }

  class Inode {
    const inum: nat
    const kind: nat
    const start: nat
    const nblocks: nat
    var size: nat

    function F(): File
      reads this
    {
      File(inum, kind, size, start, nblocks)
    }
  }

  class FileSystem {
    var disk: Disk
    const inodefile: Inode

    constructor (disk: Disk, inodefile: Inode)
      ensures this.disk == disk && this.inodefile == inodefile
    {
      this.disk := disk;
      this.inodefile := inodefile;
    }

    /** readi on a file: -1 for an offset past the end or a range that wraps at 32 bits, else the
        bytes of the range cut at the end of the file. */
    method ReadI(ip: Inode, cid: nat, off: nat, n: nat) returns (r: Option<seq<Byte>>)
      requires off < U32 && n < U32 && Base(ip.F(), cid) + ip.size <= Bytes(disk)
      ensures r.None? <==> off > ip.size || off + n >= U32
      ensures r.Some? ==>
        var m := if off + n > ip.size then ip.size - off else n;
        Base(ip.F(), cid) + off + m <= Bytes(disk) && r.value == ReadBytes(disk, Base(ip.F(), cid) + off, m)
    {
      hide Base, At, ReadBytes;
      if off > ip.size || (off + n) % U32 < off { return None; }
      var count := if off + n > ip.size then ip.size - off else n;
      var dst := CopyBlocks(ip, cid, off, count);
      return Some(dst);
    }

    /** The block loop of readi. */
    method CopyBlocks(ip: Inode, cid: nat, off: nat, n: nat) returns (dst: seq<Byte>)
      requires Base(ip.F(), cid) + off + n <= Bytes(disk)
      ensures dst == ReadBytes(disk, Base(ip.F(), cid) + off, n)
    {
      hide Base, At, ReadBytes, Bytes;
      ReadJoin(disk, Base(ip.F(), cid) + off, 0, 0);
      var tot, o := 0, off;
      dst := [];
      while tot < n
        invariant 0 <= tot <= n && o == off + tot && dst == ReadBytes(disk, Base(ip.F(), cid) + off, tot)
      {
        var b := ip.start + (cid + 1) * UDISKSIZE + o / BSIZE;
        var m := if n - tot < BSIZE - o % BSIZE then n - tot else BSIZE - o % BSIZE;
        BlockOf(ip.F(), cid, o);
        ReadChunk(disk, Base(ip.F(), cid) + o, m);
        ReadJoin(disk, Base(ip.F(), cid) + off, tot, m);
        dst := dst + disk[b][o % BSIZE..o % BSIZE + m];
        tot, o := tot + m, o + m;
      }
    }

    /** writei on a file, with the update of the inode file it calls and that may call it again. */
    method WriteI(ip: Inode, cid: nat, src: seq<Byte>, off: nat, unset: seq<Byte>) returns (written: nat)
      requires inodefile.inum == 0 && |unset| == 50
      requires off + |src| < U32 && Base(ip.F(), cid) + off + |src| <= Bytes(disk)
      requires DINODE * (ip.inum + 1) < U32 && Base(inodefile.F(), cid) + DINODE * (ip.inum + 1) <= Bytes(disk)
      modifies this`disk, ip`size, inodefile`size
      ensures written == |src|
      ensures ip == inodefile ==> disk == Apply(old(disk), InodeFilePatches(old(ip.F()), cid, src, off, unset))
      ensures ip != inodefile
        ==> disk == Apply(old(disk), FilePatches(old(ip.F()), old(inodefile.F()), cid, src, off, unset))
      ensures ip != inodefile ==> ip.size == if off + |src| > old(ip.size) then off + |src| else old(ip.size)
      ensures inodefile.size ==
        if ip == inodefile then GrownSize(old(ip.size), off, |src|)
        else if off + |src| > old(ip.size) && (ip.inum != 0 || off != 0)
        then GrownSize(old(inodefile.size), DINODE * ip.inum, DINODE)
        else old(inodefile.size)
      decreases if ip != inodefile then 2 else if off != 0 then 1 else 0, 0
    {
      hide Apply, Store, Record;
      ghost var p := Patch(Base(ip.F(), cid) + off, src);
      ApplyCons(disk, p);
      assert [p] + [] == [p];
      written := StoreBlocks(ip, cid, src, off);
      if off + written > ip.size {
        ip.size := off + written;
        if ip.inum != 0 || off != 0 {
          ghost var own := [Patch(Base(inodefile.F(), cid), Record(inodefile.F(), unset))];
          assert own + [] == own;
          UpdateInodeFile(ip, cid, unset);
        }
      }
    }

    method UpdateInodeFile(ip: Inode, cid: nat, unset: seq<Byte>)
      requires inodefile.inum == 0 && |unset| == 50
      requires DINODE * (ip.inum + 1) < U32 && Base(inodefile.F(), cid) + DINODE * (ip.inum + 1) <= Bytes(disk)
      modifies this`disk, inodefile`size
      ensures disk == Apply(old(disk),
        InodeFilePatches(old(inodefile.F()), cid, Record(old(ip.F()), unset), DINODE * ip.inum, unset))
      ensures ip != inodefile ==> ip.size == old(ip.size)
      ensures inodefile.size == GrownSize(old(inodefile.size), DINODE * ip.inum, DINODE)
      decreases if ip != inodefile then 1 else 0, 1
    {
      var w := WriteI(inodefile, cid, Record(ip.F(), unset), DINODE * ip.inum, unset);
    }

    /** The block loop of writei. */
    method StoreBlocks(ip: Inode, cid: nat, src: seq<Byte>, off: nat) returns (write: nat)
      requires Base(ip.F(), cid) + off + |src| <= Bytes(disk)
      modifies this`disk
      ensures write == |src| && disk == Store(old(disk), Base(ip.F(), cid) + off, src)
    {
      hide Patched, Store, Base;
      StoreNothing(disk, Base(ip.F(), cid) + off);
      ghost var a := Base(ip.F(), cid) + off;
      write := 0;
      var n, o := |src|, off;
      while n > 0
        invariant 0 <= write <= |src| && n == |src| - write && o == off + write
        invariant |disk| == |old(disk)| && Patched(old(disk), a, src[..write], disk)
      {
        var b := ip.start + (cid + 1) * UDISKSIZE + o / BSIZE;
        var boff := o % BSIZE;
        var bn := BSIZE - boff;
        if n < bn { bn := n; }
        n := n - bn;
        BlockOf(ip.F(), cid, o);
        BlockPatched(disk, b, boff, src[write..write + bn]);
        PatchedTwice(old(disk), a, src[..write], disk, src[write..write + bn],
          disk[b := Moved(disk[b], boff, src[write..write + bn])]);
        assert src[..write] + src[write..write + bn] == src[..write + bn];
        disk := disk[b := Moved(disk[b], boff, src[write..write + bn])];
        o := o + bn;
        write := write + bn;
      }
      assert src[..write] == src;
      PatchedIsStore(old(disk), a, src, disk);
    }

    /** udiskcopy: the destination slice becomes the source slice; nothing else changes. */
    method UdiskCopy(from: nat, to: nat)
      requires from != to && (from + 2) * UDISKSIZE <= |disk| && (to + 2) * UDISKSIZE <= |disk|
      modifies this`disk
      ensures SliceCopied(old(disk), (from + 1) * UDISKSIZE, (to + 1) * UDISKSIZE, UDISKSIZE, disk)
    {
      var i := 0;
      while i < UDISKSIZE
        invariant 0 <= i <= UDISKSIZE && SliceCopied(old(disk), (from + 1) * UDISKSIZE, (to + 1) * UDISKSIZE, i, disk)
      {
        disk := disk[(to + 1) * UDISKSIZE + i := disk[(from + 1) * UDISKSIZE + i]];
        i := i + 1;
      }
    }
  }

  /** `d'` is `d` with `n` blocks at `t` replaced by those at `s`. */
  ghost predicate SliceCopied(d: Disk, s: nat, t: nat, n: nat, d': Disk)
  {
    && |d'| == |d| && s + n <= |d| && t + n <= |d|
    && forall b {:trigger d'[b]} :: 0 <= b < |d| ==> d'[b] == if t <= b < t + n then d[b - t + s] else d[b]
  }

  /** Where the loops find byte `o` of a file. */
  lemma BlockOf(f: File, cid: nat, o: nat)
    ensures (Base(f, cid) + o) / BSIZE == f.start + (cid + 1) * UDISKSIZE + o / BSIZE
    ensures (Base(f, cid) + o) % BSIZE == o % BSIZE
  {
    Split(f.start + (cid + 1) * UDISKSIZE + o / BSIZE, o % BSIZE);
  }

  lemma ReadJoin(d: Disk, a: nat, n: nat, m: nat)
    requires a + n + m <= Bytes(d)
    ensures ReadBytes(d, a, 0) == [] && ReadBytes(d, a, n) + ReadBytes(d, a + n, m) == ReadBytes(d, a, n + m)
  {
  }

  lemma ReadChunk(d: Disk, a: nat, m: nat)
    requires a + m <= Bytes(d) && a % BSIZE + m <= BSIZE && m > 0
    ensures a / BSIZE < |d| && d[a / BSIZE][a % BSIZE..a % BSIZE + m] == ReadBytes(d, a, m)
  {
    forall k | 0 <= k < m ensures ReadBytes(d, a, m)[k] == d[a / BSIZE][a % BSIZE + k] {
      Split(a / BSIZE, a % BSIZE + k);
    }
  }

  // ---- a flat byte array per file and container

  predicate Touches(p: Patch, x: nat) { p.at <= x < p.at + |p.src| }

  ghost predicate Fit(ps: seq<Patch>, d: Disk) { forall i :: 0 <= i < |ps| ==> ps[i].at + |ps[i].src| <= Bytes(d) }

  /** A byte no patch touches is unchanged; one that only the first patch touches has its value. */
  lemma {:induction false} ApplyAt(d: Disk, ps: seq<Patch>, x: nat)
    requires Fit(ps, d) && x < Bytes(d) && forall i :: 1 <= i < |ps| ==> !Touches(ps[i], x)
    ensures At(Apply(d, ps), x) == if ps != [] && Touches(ps[0], x) then ps[0].src[x - ps[0].at] else At(d, x)
    decreases |ps|
  {
    if ps != [] {
      var d1 := Store(d, ps[0].at, ps[0].src);
      StorePatches(d, ps[0].at, ps[0].src);
      assert At(d1, x) == if Touches(ps[0], x) then ps[0].src[x - ps[0].at] else At(d, x);
      if |ps| > 1 { assert !Touches(ps[1..][0], x); }
      ApplyAt(d1, ps[1..], x);
    }
  }

  /** A write the source promises to handle: in range, for a file whose record is in range. */
  predicate Writable(f: File, inodes: File, cid: nat, n: nat, off: nat, d: Disk)
  {
    && Placed(f, cid, d) && Placed(inodes, cid, d) && ExtentsApart(f, inodes)
    && off + n <= f.nblocks * BSIZE && DINODE * (f.inum + 1) <= inodes.nblocks * BSIZE
  }

  /** The patches behind the first one lie in the inode file's extent. */
  lemma RecordPatches(f: File, inodes: File, cid: nat, src: seq<Byte>, off: nat, unset: seq<Byte>, d: Disk)
    requires Writable(f, inodes, cid, |src|, off, d) && |unset| == 50
    ensures var ps := FilePatches(f, inodes, cid, src, off, unset);
      && Fit(ps, d) && ps != [] && ps[0] == Patch(Base(f, cid) + off, src)
      && forall i :: 1 <= i < |ps| ==>
           Base(inodes, cid) <= ps[i].at && ps[i].at + |ps[i].src| <= Base(inodes, cid) + inodes.nblocks * BSIZE
  {
    hide Record;
    InSlice(f, cid, d, off + |src|);
    InSlice(inodes, cid, d, inodes.nblocks * BSIZE);
  }

  /** Bytes written are read back, byte for byte. */
  lemma WriteThenRead(f: File, inodes: File, cid: nat, src: seq<Byte>, off: nat, unset: seq<Byte>, d: Disk)
    requires Writable(f, inodes, cid, |src|, off, d) && |unset| == 50
    ensures Base(f, cid) + off + |src| <= Bytes(d)
    ensures ReadBytes(Apply(d, FilePatches(f, inodes, cid, src, off, unset)), Base(f, cid) + off, |src|) == src
  {
    hide FilePatches, Apply, Base;
    RecordPatches(f, inodes, cid, src, off, unset, d);
    InSlice(f, cid, d, off + |src|);
    var ps := FilePatches(f, inodes, cid, src, off, unset);
    var a := Base(f, cid) + off;
    forall k | 0 <= k < |src| ensures ReadBytes(Apply(d, ps), a, |src|)[k] == src[k] {
      ClearOfExtent(inodes, cid, f, cid, off + k, d);
      ApplyAt(d, ps, a + k);
    }
  }

  /** A byte of one file is outside the extent of another, or of any in another container. */
  lemma ClearOfExtent(f: File, cid: nat, g: File, cid': nat, y: nat, d: Disk)
    requires Placed(f, cid, d) && Placed(g, cid', d) && y < g.nblocks * BSIZE && (cid' != cid || ExtentsApart(g, f))
    ensures Base(g, cid') + y < Base(f, cid) || Base(f, cid) + f.nblocks * BSIZE <= Base(g, cid') + y
  {
    if cid < cid' { assert (cid + 2) * UDISKSIZE <= (cid' + 1) * UDISKSIZE; }
    if cid' < cid { assert (cid' + 2) * UDISKSIZE <= (cid + 1) * UDISKSIZE; }
  }

  /** Every other byte stays: of the file itself, of files with disjoint extents, and of all files
      in other containers. */
  lemma WriteLeaves(f: File, inodes: File, cid: nat, src: seq<Byte>, off: nat, unset: seq<Byte>, d: Disk,
    g: File, cid': nat, y: nat)
    requires Writable(f, inodes, cid, |src|, off, d) && |unset| == 50
    requires Placed(g, cid', d) && y < g.nblocks * BSIZE && (cid' != cid || ExtentsApart(g, inodes))
    requires cid' != cid || ExtentsApart(g, f) || (g == f && !(off <= y < off + |src|))
    ensures Base(g, cid') + y < Bytes(d)
    ensures At(Apply(d, FilePatches(f, inodes, cid, src, off, unset)), Base(g, cid') + y) == At(d, Base(g, cid') + y)
  {
    hide FilePatches, Apply, Base;
    var ps := FilePatches(f, inodes, cid, src, off, unset);
    InSlice(g, cid', d, y + 1);
    RecordPatches(f, inodes, cid, src, off, unset, d);
    ClearOfWrite(f, cid, off, |src|, g, cid', y, d);
    ClearOfExtent(inodes, cid, g, cid', y, d);
    ApplyAt(d, ps, Base(g, cid') + y);
  }

  lemma ClearOfWrite(f: File, cid: nat, off: nat, n: nat, g: File, cid': nat, y: nat, d: Disk)
    requires Placed(f, cid, d) && off + n <= f.nblocks * BSIZE && Placed(g, cid', d) && y < g.nblocks * BSIZE
    requires cid' != cid || ExtentsApart(g, f) || (g == f && !(off <= y < off + n))
    ensures !(Base(f, cid) + off <= Base(g, cid') + y < Base(f, cid) + off + n)
  {
    if cid' != cid || ExtentsApart(g, f) { hide Base; ClearOfExtent(f, cid, g, cid', y, d); }
  }

  lemma GrowthPatches(f: File, inodes: File, cid: nat, src: seq<Byte>, off: nat, unset: seq<Byte>)
    requires |unset| == 50 && (f.inum != 0 || off != 0) && off + |src| > f.size
    ensures var ps := FilePatches(f, inodes, cid, src, off, unset);
      && 2 <= |ps| <= 3 && ps[1] == Patch(Base(inodes, cid) + DINODE * f.inum, Record(f.(size := off + |src|), unset))
      && (|ps| == 3 ==> ps[2].at + |ps[2].src| <= Base(inodes, cid) + DINODE * f.inum)
  {
    hide Record;
  }

  /** After a file has grown, its record on disk holds its new size and its extent.  Only growth of
      file 0 from its start is not recorded. */
  lemma GrowthRecorded(f: File, inodes: File, cid: nat, src: seq<Byte>, off: nat, unset: seq<Byte>, d: Disk)
    requires Writable(f, inodes, cid, |src|, off, d) && |unset| == 50
    requires (f.inum != 0 || off != 0) && off + |src| > f.size && f.kind < 0x1_0000
    ensures Base(inodes, cid) + DINODE * f.inum + DINODE <= Bytes(d)
    ensures var after := Apply(d, FilePatches(f, inodes, cid, src, off, unset));
      Parsed(f.inum, ReadBytes(after, Base(inodes, cid) + DINODE * f.inum, DINODE)) == f.(size := off + |src|)
  {
    hide FilePatches, Record, Base, Parsed, Bytes, Apply, Store, At;
    var f', a := f.(size := off + |src|), Base(inodes, cid) + DINODE * f.inum;
    var ps := FilePatches(f, inodes, cid, src, off, unset);
    RecordPatches(f, inodes, cid, src, off, unset, d);
    GrowthPatches(f, inodes, cid, src, off, unset);
    InSlice(inodes, cid, d, DINODE * (f.inum + 1));
    RecordRoundTrip(f', unset);
    ReadSecond(d, ps, a);
  }

  lemma ReadSecond(d: Disk, ps: seq<Patch>, a: nat)
    requires Fit(ps, d) && 2 <= |ps| <= 3 && ps[1].at == a && (|ps| == 3 ==> ps[2].at + |ps[2].src| <= a)
    ensures ReadBytes(Apply(d, ps), a, |ps[1].src|) == ps[1].src
  {
    var rest, d1 := ps[1..], Store(d, ps[0].at, ps[0].src);
    forall k | 0 <= k < |ps[1].src| ensures ReadBytes(Apply(d, ps), a, |ps[1].src|)[k] == ps[1].src[k] {
      ApplyAt(d1, rest, a + k);
    }
  }

  /** Nothing is stored over the last patch. */
  lemma {:induction false} ReadLast(d: Disk, ps: seq<Patch>)
    requires Fit(ps, d) && ps != []
    ensures var p := ps[|ps| - 1]; ReadBytes(Apply(d, ps), p.at, |p.src|) == p.src
    decreases |ps|
  {
    hide At, Store, Bytes;
    SameBytes(d, Apply(d, ps));
    if |ps| == 1 {
      var p := ps[0];
      forall k | 0 <= k < |p.src| ensures ReadBytes(Apply(d, ps), p.at, |p.src|)[k] == p.src[k] {
        ApplyAt(d, ps, p.at + k);
      }
    } else {
      var d1 := Store(d, ps[0].at, ps[0].src);
      assert forall i :: 0 <= i < |ps| - 1 ==> ps[1..][i] == ps[i + 1];
      SameBytes(d, d1);
      ReadLast(d1, ps[1..]);
    }
  }

  lemma SameBytes(d: Disk, d': Disk)
    requires |d| == |d'|
    ensures Bytes(d) == Bytes(d')
  {
  }

  /** A range that no patch touches keeps its bytes. */
  lemma RangeKept(d: Disk, ps: seq<Patch>, a: nat, n: nat)
    requires Fit(ps, d) && a + n <= Bytes(d)
    requires forall i :: 0 <= i < |ps| ==> ps[i].at + |ps[i].src| <= a || a + n <= ps[i].at
    ensures ReadBytes(Apply(d, ps), a, n) == ReadBytes(d, a, n)
  {
    hide At, Apply, Bytes;
    SameBytes(d, Apply(d, ps));
    forall k | 0 <= k < n ensures ReadBytes(Apply(d, ps), a, n)[k] == ReadBytes(d, a, n)[k] {
      ApplyAt(d, ps, a + k);
    }
  }

  /** After a write behind its start has made the inode file grow, its own record holds its new end
      and its extent; the size kept in memory is that end exactly if it is at least one record. */
  lemma InodeFileRecorded(inodes: File, cid: nat, src: seq<Byte>, off: nat, unset: seq<Byte>, d: Disk)
    requires Placed(inodes, cid, d) && off + |src| <= inodes.nblocks * BSIZE && DINODE <= inodes.nblocks * BSIZE
    requires |unset| == 50 && inodes.kind < 0x1_0000 && off + |src| > inodes.size && off != 0
    ensures Base(inodes, cid) + DINODE <= Bytes(d)
    ensures var after := Apply(d, InodeFilePatches(inodes, cid, src, off, unset));
      Parsed(inodes.inum, ReadBytes(after, Base(inodes, cid), DINODE)) == inodes.(size := off + |src|)
    ensures GrownSize(inodes.size, off, |src|) == off + |src| <==> off + |src| >= DINODE
  {
    hide Record, Base, Parsed, Bytes, Apply, Store, At;
    InSlice(inodes, cid, d, off + |src|);
    InSlice(inodes, cid, d, DINODE);
    var f' := inodes.(size := off + |src|);
    RecordRoundTrip(f', unset);
    var ps := InodeFilePatches(inodes, cid, src, off, unset);
    assert ps == [Patch(Base(inodes, cid) + off, src), Patch(Base(inodes, cid), Record(f', unset))];
    ReadLast(d, ps);
  }

  /** The same through the growth of another file, whose record lies past the end of the inode file. */
  lemma GrowthOfInodeFile(f: File, inodes: File, cid: nat, src: seq<Byte>, off: nat, unset: seq<Byte>, d: Disk)
    requires Writable(f, inodes, cid, |src|, off, d) && |unset| == 50
    requires f.inum != 0 && off + |src| > f.size && inodes.kind < 0x1_0000 && DINODE * (f.inum + 1) > inodes.size
    ensures Base(inodes, cid) + DINODE <= Bytes(d)
    ensures var after := Apply(d, FilePatches(f, inodes, cid, src, off, unset));
      Parsed(inodes.inum, ReadBytes(after, Base(inodes, cid), DINODE)) == inodes.(size := DINODE * (f.inum + 1))
  {
    hide Record, Base, Parsed, Bytes, Apply, Store, At;
    RecordPatches(f, inodes, cid, src, off, unset, d);
    InSlice(inodes, cid, d, DINODE);
    var ps, f' := FilePatches(f, inodes, cid, src, off, unset), inodes.(size := DINODE * (f.inum + 1));
    RecordRoundTrip(f', unset);
    assert |ps| == 3 && ps[2] == Patch(Base(inodes, cid), Record(f', unset));
    ReadLast(d, ps);
  }

  /** Every other record stays as it was, so does the inode file's own if it has not grown, and so
      does that of a file that has not grown. */
  lemma RecordsKept(f: File, inodes: File, cid: nat, src: seq<Byte>, off: nat, unset: seq<Byte>, d: Disk, other: nat)
    requires Writable(f, inodes, cid, |src|, off, d) && |unset| == 50
    requires other != f.inum || (f.inum == 0 && off == 0) || off + |src| <= f.size
    requires other != 0 || f.inum == 0 || off + |src| <= f.size || DINODE * (f.inum + 1) <= inodes.size
    requires DINODE * (other + 1) <= inodes.nblocks * BSIZE
    ensures Base(inodes, cid) + DINODE * (other + 1) <= Bytes(d)
    ensures var after, a := Apply(d, FilePatches(f, inodes, cid, src, off, unset)), Base(inodes, cid) + DINODE * other;
      ReadBytes(after, a, DINODE) == ReadBytes(d, a, DINODE)
  {
    hide Record, Parsed, Bytes, Apply, Store, At;
    RecordPatches(f, inodes, cid, src, off, unset, d);
    InSlice(inodes, cid, d, DINODE * (other + 1));
    var ps, a := FilePatches(f, inodes, cid, src, off, unset), Base(inodes, cid) + DINODE * other;
    RangeKept(d, ps, a, DINODE);
  }

  /** The inode file's size in memory never shrinks and covers the write.  It is the larger of its
      size and the end of the write, unless the write lies inside the first record behind its start:
      then its own record makes it longer. */
  lemma GrownSizeIs(size: nat, off: nat, n: nat)
    ensures var s := GrownSize(size, off, n);
      && s >= size && s >= off + n
      && (s == (if off + n > size then off + n else size) <==> off + n <= size || off == 0 || off + n >= DINODE)
      && (off != 0 && size < off + n < DINODE ==> s == DINODE)
  {
  }
}
