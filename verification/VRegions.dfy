/** Region descriptors kept in a chunked linked list (kernel/vspace.c:10-19, 64-91, 339-367)
    and the heap grown by sys_sbrk (kernel/sysproc.c:42-62). */
module VRegions {
  import opened Options
  import opened Mmu
  import opened Kalloc
  import opened VSpace

  const VPIPPAGE: nat := 169
  const KERNBASE: nat := 0xffff_ffff_8000_0000
  const INT_END: nat := 0x8000_0000
  const UINT_END: nat := 0x1_0000_0000

  /** va2vpi_idx on virtual page numbers, for a page-aligned base. */
  function PageIndex(dir: Dir, base: nat, vpn: nat): int
  {
    if dir.Up? then vpn - base / PGSIZE else base / PGSIZE - 1 - vpn
  }

  /** The addresses a region of this base and direction may hold. */
  predicate InReach(dir: Dir, base: nat, va: nat)
  {
    if dir.Up? then base <= va else va < base
  }

  lemma IndexOfPage(dir: Dir, base: nat, va: nat)
    requires base % PGSIZE == 0 && InReach(dir, base, va)
    ensures VpiIndex(dir, base, va) == PageIndex(dir, base, va / PGSIZE) >= 0
  {
    var b := base / PGSIZE;
    assert base == b * PGSIZE;
    assert va == va / PGSIZE * PGSIZE + va % PGSIZE;
    if dir.Up? {
      assert va - base == (va / PGSIZE - b) * PGSIZE + va % PGSIZE;
    } else {
      assert base - 1 - va == (b - 1 - va / PGSIZE) * PGSIZE + (PGSIZE - 1 - va % PGSIZE);
    }
  }

  /** Two addresses of a region share a descriptor if and only if they share a page, in
      both directions of growth. */
  lemma SharedRecordIff(dir: Dir, base: nat, va: nat, vb: nat)
    requires base % PGSIZE == 0 && InReach(dir, base, va) && InReach(dir, base, vb)
    ensures VpiIndex(dir, base, va) == VpiIndex(dir, base, vb) <==> va / PGSIZE == vb / PGSIZE
  {
    IndexOfPage(dir, base, va);
    IndexOfPage(dir, base, vb);
  }

  class VpiPage {
    var infos: seq<Vpi>
    var next: VpiPage?

    constructor ()
      ensures infos == seq(VPIPPAGE, _ => EMPTY_VPI) && next == null
    {
      infos := seq(VPIPPAGE, _ => EMPTY_VPI);
      next := null;
    }
  }

  datatype RecordRef = RecordAt(page: VpiPage, slot: nat) | OutOfMemory

  /** Frames already allocated are untouched. */
  ghost predicate OnlyAllocates(before: Phys, after: Phys)
  {
    && before.Valid() && after.Valid() && |before.core| == |after.core| && before.kend == after.kend
    && forall f :: 0 <= f < |before.core| && !before.core[f].available ==>
         after.core[f] == before.core[f] && after.mem[f] == before.mem[f]
  }

  class VRegion {
    var dir: Dir
    var base: nat
    var size: nat
    var pages: VpiPage?
    ghost var chunks: seq<VpiPage>

    ghost predicate Valid()
      reads this, chunks
    {
      && (pages == null <==> chunks == []) && (chunks != [] ==> pages == chunks[0])
      && (forall i :: 0 <= i < |chunks| ==> |chunks[i].infos| == VPIPPAGE)
      && (forall i {:trigger chunks[i].next} :: 0 <= i < |chunks| ==>
            chunks[i].next == if i + 1 < |chunks| then chunks[i + 1] else null)
      && (forall i, j :: 0 <= i < j < |chunks| ==> chunks[i] != chunks[j])
    }

    /** The list read as one flat array, zero beyond its last chunk. */
    ghost function Record(i: nat): Vpi
      requires Valid()
      reads this, chunks
    {
      if i / VPIPPAGE < |chunks| then chunks[i / VPIPPAGE].infos[i % VPIPPAGE] else EMPTY_VPI
    }

    ghost function Records(): imap<nat, Vpi>
      requires Valid()
      reads this, chunks
    {
      imap i: nat | true :: Record(i)
    }

    /** The region as a value, with the records of all its chunks. */
    ghost function Value(): Region
      requires Valid()
      reads this, chunks
    {
      Region(dir, base, size,
        seq(|chunks| * VPIPPAGE, i requires 0 <= i reads this, chunks requires Valid() => Record(i)))
    }

    constructor (d: Dir, b: nat)
      ensures Valid() && chunks == [] && dir == d && base == b && size == 0
    {
      dir, base, size := d, b, 0;
      pages := null;
      chunks := [];
    }

    /** Read the records out, chunk by chunk. */
    method ReadOut() returns (v: Region)
      requires Valid()
      ensures v == Value()
    {
      var infos: seq<Vpi> := [];
      var p := pages;
      ghost var c := 0;
      while p != null
        invariant 0 <= c <= |chunks| && p == (if c < |chunks| then chunks[c] else null)
        invariant |infos| == c * VPIPPAGE && forall i :: 0 <= i < |infos| ==> infos[i] == Record(i)
        decreases |chunks| - c
      {
        assert chunks[c].next == if c + 1 < |chunks| then chunks[c + 1] else null;
        ghost var n := |infos|;
        infos := infos + p.infos;
        forall i | 0 <= i < |infos| ensures infos[i] == Record(i) {
          if i >= n { ChunkOf(c, i - n); }
        }
        p := p.next;
        c := c + 1;
      }
      v := Region(dir, base, size, infos);
      assert v.infos == Value().infos;
    }

    /** Every record reads as before, and old chunks stay where they were. */
    twostate predicate SameRecords()
      reads this, chunks
    {
      && old(Valid()) && Valid() && dir == old(dir) && base == old(base) && size == old(size)
      && |old(chunks)| <= |chunks| && chunks[..|old(chunks)|] == old(chunks)
      && (forall c :: c in chunks && c !in old(chunks) ==> fresh(c))
      && forall i: nat :: Record(i) == old(Record(i))
    }

    /** Hang a zeroed chunk behind the last one (or start the list). */
    method Append(last: VpiPage?)
      requires Valid() && (last == null <==> chunks == []) && (last != null ==> last == chunks[|chunks| - 1])
      modifies this, if last == null then {} else {last}
      ensures SameRecords() && |chunks| == |old(chunks)| + 1
    {
      var p := new VpiPage();
      if last == null {
        pages := p;
      } else {
        last.next := p;
      }
      chunks := chunks + [p];
      assert forall i :: 0 <= i < |old(chunks)| ==> chunks[i].infos == old(chunks[i].infos);
    }

    /** Step to the chunk after chunk `c`, appending it if it is missing; null when no frame
        is left. */
    method Advance(m: Machine, info: VpiPage?, ghost c: int) returns (next: VpiPage?)
      requires Valid() && m.State().Valid() && -1 <= c < |chunks|
      requires if c == -1 then info == null else info == chunks[c]
      modifies m, this, if info == null then {} else {info}
      ensures SameRecords() && OnlyAllocates(old(m.State()), m.State())
      ensures next != null ==> c + 1 < |chunks| && next == chunks[c + 1]
      ensures next == null ==> NoneAvailable(m.State())
      ensures c + 1 < |old(chunks)| ==> next != null && m.State() == old(m.State()) && chunks == old(chunks)
    {
      assert c >= 0 ==> chunks[c].next == if c + 1 < |chunks| then chunks[c + 1] else null;
      next := if info == null then pages else info.next;
      if next == null {
        assert c == |chunks| - 1;
        var k := m.Kalloc();
        if k.None? {
          return;
        }
        Append(info);
        assert c >= 0 ==> chunks[c].next == chunks[c + 1];
        next := if info == null then pages else info.next;
      }
    }

    /** va2vpage_info after the index is known: walk to the chunk, appending zeroed chunks
        as needed.  No record changes. */
    method Find(m: Machine, index: nat) returns (r: RecordRef)
      requires Valid() && m.State().Valid()
      modifies m, this, chunks
      ensures SameRecords()
      ensures OnlyAllocates(old(m.State()), m.State())
      ensures r.RecordAt?
        ==> index / VPIPPAGE < |chunks| && r.page == chunks[index / VPIPPAGE] && r.slot == index % VPIPPAGE
      ensures r.OutOfMemory? ==> NoneAvailable(m.State())
      // A record of a chunk that is there is found without allocation.
      ensures index / VPIPPAGE < |old(chunks)| ==> r.RecordAt? && m.State() == old(m.State())
    {
      var info := Advance(m, null, -1);
      if info == null {
        return OutOfMemory;
      }
      var idx := index;
      ghost var c := 0;
      while idx >= VPIPPAGE
        invariant SameRecords() && 0 <= idx && 0 <= c < |chunks| && info == chunks[c]
        invariant index == c * VPIPPAGE + idx
        invariant c < |old(chunks)| ==> m.State() == old(m.State()) && |chunks| == |old(chunks)|
        invariant m.State().Valid() && OnlyAllocates(old(m.State()), m.State())
      {
        assert info in chunks;
        info := Advance(m, info, c);
        if info == null {
          return OutOfMemory;
        }
        idx := idx - VPIPPAGE;
        c := c + 1;
      }
      assert index / VPIPPAGE == c;
      r := RecordAt(info, idx);
    }

    /** Overwrite one record in place. */
    method Store(page: VpiPage, slot: nat, index: nat, v: Vpi)
      requires Valid() && index / VPIPPAGE < |chunks| && page == chunks[index / VPIPPAGE] && slot == index % VPIPPAGE
      modifies page
      ensures Valid() && forall i: nat :: Record(i) == if i == index then v else old(Record(i))
    {
      page.infos := page.infos[slot := v];
      assert forall i :: 0 <= i < |chunks| ==> chunks[i].next == old(chunks[i].next);
      assert forall i: nat :: i == i / VPIPPAGE * VPIPPAGE + i % VPIPPAGE;
    }

    /** The list may have grown by new chunks; the region's bounds are as before. */
    twostate predicate SameShape()
      reads this, chunks
    {
      && Valid() && dir == old(dir) && base == old(base) && size == old(size)
      && forall c :: c in chunks && c !in old(chunks) ==> fresh(c)
    }

    /** kalloc and memset. */
    static method ZeroedFrame(m: Machine) returns (f: Option<nat>)
      requires m.State().Valid()
      modifies m
      ensures m.State().Valid() && OnlyAllocates(old(m.State()), m.State())
      ensures f.None? ==> NoneAvailable(old(m.State())) && NoneAvailable(m.State())
      ensures f.Some? ==> f.value < |old(m.core)| && old(m.core)[f.value].available && Backed(m.State(), f.value)
    {
      f := m.Kalloc();
      if f.Some? { m.mem := m.mem[f.value := Filled(0)]; }
    }

    /** One round of vregionaddmap: a zeroed frame for the page at `a`. */
    method AddPage(m: Machine, a: nat, present: bool, writable: bool) returns (f: Option<nat>)
      requires Valid() && m.State().Valid() && base % PGSIZE == 0 && InReach(dir, base, a)
      modifies m, this, chunks
      ensures SameShape() && OnlyAllocates(old(m.State()), m.State()) && m.State().Valid()
      ensures f.None? ==> forall i: nat :: Record(i) == old(Record(i))
      ensures f.None? ==> NoneAvailable(m.State())
      ensures f.None? && 0 <= VpiIndex(dir, base, a) < |old(chunks)| * VPIPPAGE ==> NoneAvailable(old(m.State()))
      ensures f.Some? ==>
        forall i: nat :: Record(i) ==
          if i == VpiIndex(dir, base, a) then Vpi(true, f.value, present, writable, old(Record(i)).cow)
                                      else old(Record(i))
      ensures f.Some? ==> f.value < |old(m.core)| && old(m.core)[f.value].available && Backed(m.State(), f.value)
    {
      IndexOfPage(dir, base, a);
      var index := VpiIndex(dir, base, a);
      var vpi := Find(m, index);
      if vpi.OutOfMemory? {
        return None;
      }
      f := ZeroedFrame(m);
      if f.None? {
        return;
      }
      assert vpi.page in chunks;
      var info := vpi.page.infos[vpi.slot];
      Store(vpi.page, vpi.slot, index, info.(used := true, present := present, writable := writable, ppn := f.value));
    }

    /** A frame is free and the chunk of record `i` is there. */
    ghost predicate Ready(ph: Phys, i: int)
      reads this
    {
      !NoneAvailable(ph) && i < |chunks| * VPIPPAGE
    }

    /** vregionaddmap: frames for the pages of [from, from + sz) that start in the range.
        The sum wraps at 64 bits and the result is cut to an int as in the source, so that a size
        from 2 GB on does not come back as itself; `ok` says whether all pages were added. */
    method AddMap(m: Machine, from: nat, sz: nat, present: bool, writable: bool)
      returns (r: int, ghost ok: bool, ghost frames: seq<nat>)
      requires Valid() && m.State().Valid() && base % PGSIZE == 0 && from < WORD_END - PGSIZE && sz < WORD_END
      requires forall va :: PageRoundUp(from) <= va < (from + sz) % WORD_END ==> InReach(dir, base, va)
      modifies m, this, chunks
      ensures SameShape() && OnlyAllocates(old(m.State()), m.State())
      ensures r == if ok then AsInt(sz) else -1
      ensures (from + sz) % WORD_END >= KERNBASE ==> !ok && forall i: nat :: Record(i) == old(Record(i))
      ensures !ok && (from + sz) % WORD_END < KERNBASE
        ==> NoneAvailable(m.State()) && PageRoundUp(from) < (from + sz) % WORD_END
      ensures ok ==> |frames| == if sz == 0 then 0 else PagesFrom(from, (from + sz) % WORD_END)
      // Also a failed call has given frames to a first part of the pages.
      ensures FramesFor(old(m.State()), m.State(), frames)
      ensures PageRoundUp(from) < (from + sz) % WORD_END < KERNBASE && sz != 0
        ==> frames != [] || !old(Ready(m.State(), VpiIndex(dir, base, PageRoundUp(from))))
      ensures forall i: nat ::
        Record(i) == Covered(old(Record(i)), PageOfIndex(dir, base, i) - PageRoundUp(from) / PGSIZE,
          frames, present, writable)
    {
      hide OnlyAllocates, FramesFor, Backed, VpiIndex, PageOfIndex, Covered, NoneAvailable;
      frames, ok := [], false;
      NoFrames(m.State());
      forall i: nat {
        NoneCovered(Record(i), PageOfIndex(dir, base, i) - PageRoundUp(from) / PGSIZE, present, writable);
      }
      var end := (from + sz) % WORD_END;
      if end >= KERNBASE {
        return -1, false, frames;
      }
      if sz == 0 {
        return 0, true, frames;
      }
      ghost var lo := PageRoundUp(from) / PGSIZE;
      var a := PageRoundUp(from);
      while a < end
        invariant a == (lo + |frames|) * PGSIZE && SameShape() && m.State().Valid()
        invariant OnlyAllocates(old(m.State()), m.State()) && FramesFor(old(m.State()), m.State(), frames)
        invariant a < end + PGSIZE || frames == []
        invariant frames == [] ==> m.State() == old(m.State()) && chunks == old(chunks)
        invariant forall i: nat ::
          Record(i) == Covered(old(Record(i)), PageOfIndex(dir, base, i) - lo, frames, present, writable)
      {
        ghost var before := m.State();
        assert forall i :: 0 <= i < |chunks| ==> chunks[i] in chunks;
        IndexOfPage(dir, base, a);
        var f := AddPage(m, a, present, writable);
        OnlyAllocatesTransitive(old(m.State()), before, m.State());
        if f.None? {
          FramesStay(old(m.State()), before, m.State(), frames);
          return -1, false, frames;
        }
        FramesGrow(old(m.State()), before, m.State(), frames, f.value);
        forall i: nat
          ensures Record(i)
            == Covered(old(Record(i)), PageOfIndex(dir, base, i) - lo, frames + [f.value], present, writable)
        {
          IndexVersusPage(dir, base, i, a);
          CoveredStep(old(Record(i)), PageOfIndex(dir, base, i) - lo, frames, f.value, present, writable);
        }
        frames := frames + [f.value];
        a := a + PGSIZE;
      }
      r, ok := AsInt(sz), true;
    }

    /** The used descriptors are exactly the first `top`, on distinct allocated frames, and reach
        at least over [base, base + size). */
    ghost predicate HeapHeld(ph: Phys, top: nat)
      reads this, chunks
    {
      Valid() && dir.Up? && base % PGSIZE == 0 && Held(Records(), top, ph) && CeilPages(size) <= top
    }

    /** The used descriptors are exactly those of the pages covering [base, base + size). */
    ghost predicate HeapCovered(ph: Phys)
      reads this, chunks
    {
      HeapHeld(ph, CeilPages(size))
    }

    /** The call of vregionaddmap made by sys_sbrk on a heap that ends below 2 GB. */
    method AddLow(m: Machine, n: nat, ghost top: nat) returns (added: int, ghost top': nat)
      requires m.State().Valid() && HeapHeld(m.State(), top) && base + size < INT_END && n < INT_END
      modifies m, this, chunks
      ensures SameShape() && OnlyAllocates(old(m.State()), m.State())
      ensures added == -1 || added == n
      ensures added == -1 ==> NoneAvailable(m.State())
      ensures Held(Records(), top', m.State()) && NewFrames(old(Records()), Records(), old(m.State()))
      ensures top <= top' && (added == n ==> top' == Max(top, CeilPages(size + n)))
      ensures forall i: nat :: HeapPage(i, size) ==> Record(i) == old(Record(i))
      ensures old(Ready(m.State(), CeilPages(size))) && CeilPages(size) < CeilPages(size + n) ==> CeilPages(size) < top'
    {
      hide FramesFor, OnlyAllocates, Held, HeapPage, Covered, PagesFrom, CeilPages, NoneAvailable, NewFrames, AsInt;
      ghost var before, rec, at := m.State(), Records(), CeilPages(size);
      ghost var frames, ok;
      SbrkRange(base + size, n);
      SbrkPages(base, size, n);
      SmallInt(n);
      added, ok, frames := AddMap(m, base + size, n, true, true);
      top' := Max(top, at + |frames|);
      HeldGrows(rec, Records(), before, m.State(), top, at, frames);
      forall i: nat | HeapPage(i, size) ensures Record(i) == old(Record(i)) {
        BeforeFrames(old(Record(i)), i, size, frames);
      }
    }

    /** The same call on a heap that reaches 2 GB. */
    method AddHigh(m: Machine, n: nat) returns (added: int)
      requires Valid() && dir.Up? && base % PGSIZE == 0 && m.State().Valid()
      requires INT_END <= base + size < UINT_END - PGSIZE && n < INT_END
      modifies m, this, chunks
      ensures SameShape() && OnlyAllocates(old(m.State()), m.State())
      ensures added == -1 || added == n
      ensures added == n <==> base + size + n >= UINT_END
      ensures forall i: nat :: Record(i) == old(Record(i))
    {
      hide FramesFor, OnlyAllocates, AsInt, AsWord, Covered, PagesFrom, NoneAvailable;
      ghost var frames, ok;
      SbrkRange(base + size, n);
      SmallInt(n);
      added, ok, frames := AddMap(m, AsWord(AsInt(base + size)), n, true, true);
      if ok {
        assert frames == [];
        forall i: nat ensures Record(i) == old(Record(i)) {
          NoneCovered(old(Record(i)), PageOfIndex(dir, base, i) - PageRoundUp(AsWord(AsInt(base + size))) / PGSIZE,
            true, true);
        }
      }
    }

    /** The call of vregionaddmap made by sys_sbrk. */
    method AddHeap(m: Machine, addr: int, n: nat, ghost top: nat) returns (added: int, ghost top': nat)
      requires m.State().Valid() && HeapHeld(m.State(), top) && base + size < UINT_END - PGSIZE && n < INT_END
      requires addr == AsInt(base + size)
      modifies m, this, chunks
      ensures SameShape() && OnlyAllocates(old(m.State()), m.State()) && m.State().Valid()
      ensures added == -1 || added == n
      ensures added == -1 && base + size < INT_END ==> NoneAvailable(m.State())
      ensures Held(Records(), top', m.State()) && NewFrames(old(Records()), Records(), old(m.State())) && top <= top'
      ensures added == n && base + size < INT_END ==> top' == Max(top, CeilPages(size + n))
      ensures forall i: nat :: HeapPage(i, size) ==> Record(i) == old(Record(i))
      ensures base + size >= INT_END ==> (added == n <==> base + size + n >= UINT_END)
      ensures base + size >= INT_END ==> forall i: nat :: Record(i) == old(Record(i))
      ensures base + size < INT_END && CeilPages(size) < CeilPages(size + n)
        ==> CeilPages(size) < top' || !old(Ready(m.State(), CeilPages(size)))
    {
      hide FramesFor, OnlyAllocates, Held, HeapPage, AsInt, AsWord, NoneAvailable, NewFrames, CeilPages, Max;
      SbrkRange(base + size, n);
      ghost var before, rec := m.State(), Records();
      if AsWord(addr) == base + size {
        added, top' := AddLow(m, n, top);
      } else {
        added := AddHigh(m, n);
        top' := top;
        SameRecordsHeld(rec, Records(), top, before, m.State());
      }
      OnlyAllocatesValid(before, m.State());
    }

    method Commit(n: nat)
      requires Valid()
      modifies this
      ensures SameRecordsButSize(n)
    {
      ghost var rec := Records();
      size := size + n;
      assert forall i: nat :: Record(i) == rec[i];
    }

    twostate predicate SameRecordsButSize(n: nat)
      reads this, chunks
    {
      && old(Valid()) && Valid() && dir == old(dir) && base == old(base) && size == old(size) + n
      && chunks == old(chunks) && Records() == old(Records()) && forall i: nat :: Record(i) == old(Record(i))
    }

    /** sys_sbrk. */
    method Sbrk(m: Machine, n: int, ghost top: nat) returns (r: int, ghost top': nat)
      requires m.State().Valid() && HeapHeld(m.State(), top) && base + size < UINT_END - PGSIZE && n < INT_END
      modifies m, this, chunks
      ensures m.State().Valid() && Valid() && OnlyAllocates(old(m.State()), m.State())
      ensures size == old(size) + (if r == -1 then 0 else n) && base == old(base) && dir == old(dir)
      ensures forall c :: c in chunks && c !in old(chunks) ==> fresh(c)
      ensures r == -1 || r == AsInt(base + old(size))
      // A failed call on a low heap means that memory ran out.
      ensures 0 <= n && base + old(size) < INT_END && r == -1 ==> NoneAvailable(m.State())
      // The used descriptors stay a first part of all, on distinct frames, and frames newly
      // named were free before.
      ensures r == -1 || base + old(size) < INT_END ==> HeapHeld(m.State(), top') && top <= top'
      ensures NewFrames(old(Records()), Records(), old(m.State()))
      // A successful call on a low heap adds exactly the pages that are missing; it leaves exactly
      // the pages of the heap unless an earlier failed call went beyond the new end.
      ensures r != -1 && base + old(size) < INT_END ==> top' == Max(top, CeilPages(size))
      ensures r != -1 && base + old(size) < INT_END ==> (HeapCovered(m.State()) <==> top <= CeilPages(size))
      // No call touches the pages of the heap as it was.
      ensures forall i: nat :: HeapPage(i, old(size)) ==> Record(i) == old(Record(i))
      // A call on a heap that reaches 2 GB fails, or succeeds without adding a page.
      ensures 0 <= n && base + old(size) >= INT_END ==> (r != -1 <==> base + old(size) + n >= UINT_END)
      ensures base + old(size) >= INT_END ==> forall i: nat :: Record(i) == old(Record(i))
      // A call gives at least one page while a frame is free and the page's chunk is there.
      ensures 0 <= n && base + old(size) < INT_END && CeilPages(old(size)) < CeilPages(old(size) + n)
        ==> CeilPages(old(size)) < top' || !old(Ready(m.State(), CeilPages(size)))
    {
      hide FramesFor, OnlyAllocates, Held, HeapPage, AsInt, AsWord, NoneAvailable, NewFrames, CeilPages;
      NoFrames(m.State());
      SameFrames(Records(), m.State());
      top' := top;
      if n < 0 {
        return -1, top;
      }
      var addr := AsInt(base + size);
      var added;
      SbrkRange(base + size, n);
      added, top' := AddHeap(m, addr, n, top);
      if added < 0 {
        return -1, top';
      }
      CeilGrows(size, n);
      Commit(n);
      HeldExactly(Records(), m.State(), top', CeilPages(size));
      r := addr;
    }
  }

  function Max(a: nat, b: nat): nat { if a >= b then a else b }

  /** Records of which exactly the first `top` are used, on distinct allocated frames. */
  ghost predicate Held(rec: imap<nat, Vpi>, top: nat, ph: Phys)
  {
    && (forall i: nat :: i in rec)
    && (forall i: nat :: rec[i].used <==> i < top)
    && (forall i: nat :: rec[i].used ==> rec[i].ppn < |ph.core| && !ph.core[rec[i].ppn].available)
    && (forall i: nat, j: nat :: rec[i].used && rec[j].used && rec[i].ppn == rec[j].ppn ==> i == j)
  }

  /** A record has changed only by naming a frame that was free. */
  ghost predicate NewFrames(rec: imap<nat, Vpi>, rec': imap<nat, Vpi>, before: Phys)
  {
    forall i: nat :: i in rec && i in rec' && (rec'[i] == rec[i] || (rec'[i].used && WasFree(before, rec'[i].ppn)))
  }

  predicate WasFree(ph: Phys, f: nat) { f < |ph.core| && ph.core[f].available }

  lemma SameFrames(rec: imap<nat, Vpi>, ph: Phys)
    requires forall i: nat :: i in rec
    ensures NewFrames(rec, rec, ph)
  {
  }

  lemma SameRecordsHeld(rec: imap<nat, Vpi>, rec': imap<nat, Vpi>, top: nat, before: Phys, after: Phys)
    requires Held(rec, top, before) && OnlyAllocates(before, after)
    requires forall i: nat :: i in rec' && rec'[i] == rec[i]
    ensures Held(rec', top, after) && NewFrames(rec, rec', before)
  {
  }

  lemma HeldExactly(rec: imap<nat, Vpi>, ph: Phys, top: nat, want: nat)
    requires Held(rec, top, ph) && forall i: nat :: i in rec
    ensures Held(rec, want, ph) <==> want == top
  {
    if Held(rec, want, ph) {
      assert rec[top].used <==> top < top;
      assert rec[want].used <==> want < want;
    }
  }

  lemma SmallInt(n: nat)
    ensures n < INT_END ==> AsInt(n) == n
  {
  }

  lemma CeilGrows(size: nat, n: nat)
    ensures CeilPages(size) <= CeilPages(size + n)
  {
  }

  /** The failing case: one frame is free and a new heap with its first chunk is asked for two
      pages.  The call fails and leaves a used record, and its frame, behind the end of the heap. */
  method LeftoverRecord(m: Machine, heap: VRegion, ghost f: nat) returns (r: int)
    requires m.State().Valid() && heap.HeapHeld(m.State(), 0) && heap.size == 0 && |heap.chunks| == 1
    requires heap.base < INT_END && WasFree(m.State(), f)
    requires forall g: nat :: WasFree(m.State(), g) ==> g == f
    modifies m, heap, heap.chunks
    ensures r == -1 && heap.Valid() && heap.size == 0
    ensures heap.Record(0).used && !heap.HeapCovered(m.State())
  {
    ghost var s0, rec := m.State(), heap.Records();
    assert CeilPages(0) == 0 && CeilPages(2 * PGSIZE) == 2;
    assert heap.Ready(s0, 0);
    hide AsInt, AsWord, OnlyAllocates, CeilPages, Held, NewFrames, HeapPage, NoneAvailable, WasFree;
    ghost var top;
    r, top := heap.Sbrk(m, 2 * PGSIZE, 0);
    if r != -1 { TwoFrames(rec, heap.Records(), s0, m.State(), f); }
    FirstUsed(heap.Records(), top, m.State());
    HeldExactly(heap.Records(), m.State(), top, 0);
  }

  lemma FirstUsed(rec: imap<nat, Vpi>, top: nat, ph: Phys)
    requires Held(rec, top, ph) && top > 0
    ensures rec[0].used
  {
  }

  /** Two new pages take two free frames. */
  lemma TwoFrames(rec: imap<nat, Vpi>, rec': imap<nat, Vpi>, before: Phys, after: Phys, f: nat)
    requires Held(rec, 0, before) && Held(rec', 2, after) && NewFrames(rec, rec', before)
    ensures exists g: nat :: WasFree(before, g) && g != f
  {
    assert rec'[0].used && rec'[1].used && !rec[0].used && !rec[1].used;
    assert WasFree(before, rec'[0].ppn) && WasFree(before, rec'[1].ppn);
  }

  lemma ChunkOf(c: nat, k: nat)
    requires k < VPIPPAGE
    ensures (c * VPIPPAGE + k) / VPIPPAGE == c && (c * VPIPPAGE + k) % VPIPPAGE == k
  {
  }

  lemma BeforeFrames(v: Vpi, i: nat, size: nat, frames: seq<nat>)
    requires HeapPage(i, size)
    ensures Covered(v, i - CeilPages(size), frames, true, true) == v
  {
    CeilOf(i, size);
  }

  /** An empty heap is covered by no pages. */
  lemma NewHeapCovered(heap: VRegion, ph: Phys)
    requires heap.Valid() && heap.chunks == [] && heap.dir.Up? && heap.base % PGSIZE == 0 && heap.size == 0
    ensures heap.HeapCovered(ph)
  {
  }

  /** Frames for the pages from `at` on, inside or right behind the first `top`, leave a first part
      of all used. */
  lemma HeldGrows(rec: imap<nat, Vpi>, rec': imap<nat, Vpi>, before: Phys, after: Phys, top: nat,
    at: nat, frames: seq<nat>)
    requires Held(rec, top, before) && OnlyAllocates(before, after) && FramesFor(before, after, frames) && at <= top
    requires forall i: nat :: i in rec' && rec'[i] == Covered(rec[i], i - at, frames, true, true)
    ensures Held(rec', Max(top, at + |frames|), after) && NewFrames(rec, rec', before)
  {
    hide OnlyAllocates, FramesFor, Covered;
    forall i: nat
      ensures rec'[i].used <==> i < Max(top, at + |frames|)
      ensures rec'[i].used ==> rec'[i].ppn < |after.core| && !after.core[rec'[i].ppn].available
      ensures rec'[i] == rec[i] || (rec'[i].used && WasFree(before, rec'[i].ppn))
    {
      CoverOne(before, after, rec[i], i, top, at, frames);
    }
    hide Max;
    HeldApart(rec, rec', before, after, top, at, frames);
  }

  lemma HeldApart(rec: imap<nat, Vpi>, rec': imap<nat, Vpi>, before: Phys, after: Phys, top: nat,
    at: nat, frames: seq<nat>)
    requires Held(rec, top, before) && OnlyAllocates(before, after) && FramesFor(before, after, frames)
    requires forall i: nat :: i in rec' && rec'[i] == Covered(rec[i], i - at, frames, true, true)
    ensures forall i: nat, j: nat :: rec'[i].used && rec'[j].used && rec'[i].ppn == rec'[j].ppn ==> i == j
  {
    hide OnlyAllocates, FramesFor, Covered;
    forall i: nat, j: nat | rec'[i].used && rec'[j].used && rec'[i].ppn == rec'[j].ppn
      ensures i == j
    {
      FramesApart(before, after, rec[i], rec[j], i - at, j - at, frames);
    }
  }

  lemma CoverOne(before: Phys, after: Phys, v: Vpi, i: nat, top: nat, at: nat, frames: seq<nat>)
    requires OnlyAllocates(before, after) && FramesFor(before, after, frames) && at <= top
    requires v.used <==> i < top
    requires v.used ==> v.ppn < |before.core| && !before.core[v.ppn].available
    ensures var w := Covered(v, i - at, frames, true, true);
      && (w.used <==> i < Max(top, at + |frames|))
      && (w.used ==> w.ppn < |after.core| && !after.core[w.ppn].available)
      && (w == v || (w.used && WasFree(before, w.ppn)))
  {
    FrameHeld(before, after, v, i - at, frames);
  }

  predicate HeapPage(i: nat, size: nat) { i * PGSIZE < size }

  function CeilPages(n: nat): nat { PageRoundUp(n) / PGSIZE }

  lemma CeilOf(i: nat, size: nat)
    ensures HeapPage(i, size) <==> i < CeilPages(size)
  {
  }

  lemma CeilShift(base: nat, size: nat)
    requires base % PGSIZE == 0
    ensures CeilPages(base + size) == base / PGSIZE + CeilPages(size)
  {
    var b := base / PGSIZE;
    assert base == b * PGSIZE;
    assert base + size + PGSIZE - 1 == b * PGSIZE + (size + PGSIZE - 1);
  }

  /** The range sys_sbrk hands to vregionaddmap: the heap's own end while that fits an int;
      beyond, a kernel address that is refused unless the sum wraps to an empty range. */
  lemma SbrkRange(top: nat, n: nat)
    requires top < UINT_END - PGSIZE && n < INT_END
    ensures -0x8000_0000 <= AsInt(top) < 0x8000_0000 && AsInt(top) != -1
    ensures top < INT_END ==> AsWord(AsInt(top)) == top && (top + n) % WORD_END == top + n < KERNBASE
    ensures top >= INT_END ==> KERNBASE <= AsWord(AsInt(top)) < WORD_END - PGSIZE
    ensures top >= INT_END ==>
      var end := (AsWord(AsInt(top)) + n) % WORD_END;
      if top + n < UINT_END then end >= KERNBASE
      else end == top + n - UINT_END < INT_END && PagesFrom(AsWord(AsInt(top)), end) == 0
  {
  }

  lemma SbrkPages(base: nat, size: nat, n: nat)
    requires base % PGSIZE == 0
    ensures (if n == 0 then 0 else PagesFrom(base + size, base + size + n)) == CeilPages(size + n) - CeilPages(size)
    ensures PageRoundUp(base + size) / PGSIZE == base / PGSIZE + CeilPages(size)
  {
    CeilShift(base, size);
    CeilShift(base, size + n);
  }

  /** A heap that ends at 2 GB: its end, passed on as an int, is in the kernel's half. */
  lemma HeapEndAt2G()
    ensures AsInt(0x8000_0000) == -0x8000_0000 && AsWord(AsInt(0x8000_0000)) >= KERNBASE
  {
  }

  /** Conversion of an unsigned long to int, and of an int to unsigned long. */
  function AsInt(x: nat): (r: int)
    ensures -0x8000_0000 <= r < 0x8000_0000
  {
    var t := x % UINT_END;
    if t < INT_END then t else t - UINT_END
  }

  function AsWord(x: int): nat
    requires -0x8000_0000 <= x < 0x8000_0000
  {
    if x >= 0 then x else x + WORD_END
  }

  /** The record of the k-th page of a range backed by `frames`, or the old record. */
  function Covered(v: Vpi, k: int, frames: seq<nat>, present: bool, writable: bool): Vpi
  {
    if 0 <= k < |frames| then Vpi(true, frames[k], present, writable, v.cow) else v
  }

  function PageOfIndex(dir: Dir, base: nat, i: nat): int
  {
    if dir.Up? then base / PGSIZE + i else base / PGSIZE - 1 - i
  }

  lemma IndexVersusPage(dir: Dir, base: nat, i: nat, a: nat)
    requires base % PGSIZE == 0 && InReach(dir, base, a)
    ensures i == VpiIndex(dir, base, a) <==> PageOfIndex(dir, base, i) == a / PGSIZE
  {
    IndexOfPage(dir, base, a);
  }

  lemma NoneCovered(v: Vpi, k: int, present: bool, writable: bool)
    ensures Covered(v, k, [], present, writable) == v
  {
  }

  lemma CoveredStep(v: Vpi, k: int, frames: seq<nat>, f: nat, present: bool, writable: bool)
    ensures Covered(v, k, frames + [f], present, writable)
         == if k == |frames| then Vpi(true, f, present, writable, Covered(v, k, frames, present, writable).cow)
            else Covered(v, k, frames, present, writable)
  {
  }

  lemma FrameHeld(before: Phys, after: Phys, v: Vpi, k: int, frames: seq<nat>)
    requires OnlyAllocates(before, after) && FramesFor(before, after, frames)
    requires v.used ==> v.ppn < |before.core| && !before.core[v.ppn].available
    ensures var w := Covered(v, k, frames, true, true);
            w.used ==> w.ppn < |after.core| && !after.core[w.ppn].available
  {
  }

  lemma FramesApart(before: Phys, after: Phys, v: Vpi, w: Vpi, j: int, k: int, frames: seq<nat>)
    requires OnlyAllocates(before, after) && FramesFor(before, after, frames)
    requires v.used ==> v.ppn < |before.core| && !before.core[v.ppn].available
    requires w.used ==> w.ppn < |before.core| && !before.core[w.ppn].available
    requires v.used && w.used && v.ppn == w.ppn ==> j == k
    ensures var v', w' := Covered(v, j, frames, true, true), Covered(w, k, frames, true, true);
            v'.used && w'.used && v'.ppn == w'.ppn ==> j == k
  {
  }

  /** Number of pages that start in [PageRoundUp(from), end). */
  function PagesFrom(from: nat, end: nat): nat
  {
    var lo, hi := PageRoundUp(from) / PGSIZE, PageRoundUp(end) / PGSIZE;
    if lo < hi then hi - lo else 0
  }

  /** Distinct frames, free before, each now allocated once and zeroed. */
  ghost predicate FramesFor(before: Phys, after: Phys, frames: seq<nat>)
  {
    && (forall k :: 0 <= k < |frames| ==>
       frames[k] < |before.core| && before.core[frames[k]].available && Backed(after, frames[k]))
    && (forall j, k :: 0 <= j < k < |frames| ==> frames[j] != frames[k])
  }

  lemma NoFrames(ph: Phys)
    requires ph.Valid()
    ensures OnlyAllocates(ph, ph) && FramesFor(ph, ph, [])
  {
  }

  lemma OnlyAllocatesValid(s0: Phys, s1: Phys)
    requires OnlyAllocates(s0, s1)
    ensures s1.Valid()
  {
  }

  lemma OnlyAllocatesTransitive(s0: Phys, s1: Phys, s2: Phys)
    requires OnlyAllocates(s0, s1) && OnlyAllocates(s1, s2)
    ensures OnlyAllocates(s0, s2)
  {
  }

  lemma FramesStay(before: Phys, mid: Phys, after: Phys, frames: seq<nat>)
    requires FramesFor(before, mid, frames) && OnlyAllocates(mid, after)
    ensures FramesFor(before, after, frames)
  {
  }

  lemma FramesGrow(s0: Phys, s1: Phys, s2: Phys, frames: seq<nat>, f: nat)
    requires OnlyAllocates(s0, s1) && FramesFor(s0, s1, frames) && OnlyAllocates(s1, s2)
    requires f < |s1.core| && s1.core[f].available && Backed(s2, f)
    ensures FramesFor(s0, s2, frames + [f]) && OnlyAllocates(s0, s2)
  {
  }

  /** Frame `f` is allocated once and zeroed. */
  predicate Backed(ph: Phys, f: nat)
  {
    f < |ph.core| && f < |ph.mem| && !ph.core[f].available && ph.core[f].ref == 1 && ph.mem[f] == Filled(0)
  }
}
