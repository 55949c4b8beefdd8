/** Index, rounding and entry arithmetic of 4-level paging (inc/mmu.h), on unbounded
    naturals.  A virtual page is an address without its twelve offset bits, taken
    modulo 2^36 as the hardware does. */
module Mmu {
  const PGSIZE: nat := 4096
  const ENTRIES: nat := 512
  const PTE_P: nat := 1
  const PTE_W: nat := 2
  const PTE_U: nat := 4
  const VPAGES: nat := 0x10_0000_0000
  const PML4_SPAN: nat := 0x800_0000
  const PDPT_SPAN: nat := 0x4_0000
  const PD_SPAN: nat := 0x200
  const FRAMES: nat := 0x100_0000_0000
  const LOW_HALF_END: nat := 0x1_0000_0000_0000
  const WORD_END: nat := 0x1_0000_0000_0000_0000

  function Pow2(k: nat): (r: nat)
    ensures r > 0
  {
    if k == 0 then 1 else 2 * Pow2(k - 1)
  }

  /** The C operator `|` on unsigned words. */
  function BitOr(x: nat, y: nat): nat
  {
    if x == 0 then y
    else if y == 0 then x
    else 2 * BitOr(x / 2, y / 2) + (if x % 2 == 1 || y % 2 == 1 then 1 else 0)
  }

  function VPage(va: nat): (p: nat)
    ensures p < VPAGES
  {
    va / PGSIZE % VPAGES
  }

  function Pml4Index(va: nat): (i: nat)
    ensures i < ENTRIES
  {
    va / 0x80_0000_0000 % ENTRIES
  }

  function PdptIndex(va: nat): (i: nat)
    ensures i < ENTRIES
  {
    va / 0x4000_0000 % ENTRIES
  }

  function PdIndex(va: nat): (i: nat)
    ensures i < ENTRIES
  {
    va / 0x20_0000 % ENTRIES
  }

  function PtIndex(va: nat): (i: nat)
    ensures i < ENTRIES
  {
    va / 0x1000 % ENTRIES
  }

  function PageRoundUp(x: nat): (r: nat)
    ensures r % PGSIZE == 0
    ensures x <= r < x + PGSIZE
  {
    (x + PGSIZE - 1) / PGSIZE * PGSIZE
  }

  function PageRoundDown(x: nat): (r: nat)
    ensures r % PGSIZE == 0
    ensures r <= x < r + PGSIZE
  {
    x / PGSIZE * PGSIZE
  }

  /** PGADDR: the four fields are ORed together, so a field that overflows into its
      neighbour is not carried. */
  function PgAddr(l4: nat, l3: nat, d: nat, t: nat, o: nat): nat
  {
    BitOr(BitOr(BitOr(BitOr(l4 * 0x80_0000_0000, l3 * 0x4000_0000), d * 0x20_0000), t * 0x1000), o)
  }

  /** PTE(pa, flags). */
  function MakeEntry(frame: nat, flags: nat): nat
  {
    BitOr(frame * PGSIZE, flags)
  }

  predicate Present(w: nat) { w % 2 == 1 }
  predicate Writable(w: nat) { w / 2 % 2 == 1 }
  predicate User(w: nat) { w / 4 % 2 == 1 }

  /** PTE_ADDR(w) >> 12: bits 51 to 12. */
  function FrameOf(w: nat): (f: nat)
    ensures f < FRAMES
  {
    w / PGSIZE % FRAMES
  }

  // ---- bit-level lemmas

  lemma PowStep(x: nat, k: nat)
    requires k > 0
    ensures x * Pow2(k) == 2 * (x * Pow2(k - 1))
  {
  }

  lemma {:induction false} OrShift(x: nat, y: nat, k: nat)
    ensures BitOr(x * Pow2(k), y * Pow2(k)) == BitOr(x, y) * Pow2(k)
  {
    if k != 0 {
      calc {
        BitOr(x * Pow2(k), y * Pow2(k));
        { PowStep(x, k); PowStep(y, k); }
        BitOr(2 * (x * Pow2(k - 1)), 2 * (y * Pow2(k - 1)));
        { OrDouble(x * Pow2(k - 1), y * Pow2(k - 1)); }
        2 * BitOr(x * Pow2(k - 1), y * Pow2(k - 1));
        { OrShift(x, y, k - 1); }
        2 * (BitOr(x, y) * Pow2(k - 1));
        { PowStep(BitOr(x, y), k); }
        BitOr(x, y) * Pow2(k);
      }
    }
  }

  lemma OrDouble(a: nat, b: nat)
    ensures BitOr(2 * a, 2 * b) == 2 * BitOr(a, b)
  {
  }

  lemma {:induction false} OrLow(x: nat, y: nat, k: nat)
    requires y < Pow2(k)
    ensures BitOr(x * Pow2(k), y) == x * Pow2(k) + y
  {
    if k != 0 {
      var a := x * Pow2(k - 1);
      assert x * Pow2(k) == 2 * a;
      OrLow(x, y / 2, k - 1);
      assert y == 2 * (y / 2) + y % 2;
    }
  }

  lemma OrZero(x: nat)
    ensures BitOr(x, 0) == x && BitOr(0, x) == x
  {
  }

  lemma OrOne(x: nat)
    ensures BitOr(x, 1) == if x % 2 == 1 then x else x + 1
  {
    if x >= 2 {
      OrZero(x / 2);
    }
  }

  lemma Pow2Values()
    ensures Pow2(3) == 8 && Pow2(9) == 512 && Pow2(12) == 4096 && Pow2(21) == 0x20_0000
    ensures Pow2(18) == 0x4_0000 && Pow2(30) == 0x4000_0000 && Pow2(39) == 0x80_0000_0000
  {
    assert Pow2(3) == 8;
    assert Pow2(6) == 64;
    assert Pow2(9) == 512;
    assert Pow2(12) == 4096;
    assert Pow2(15) == 0x8000;
    assert Pow2(18) == 0x4_0000;
    assert Pow2(21) == 0x20_0000;
    assert Pow2(24) == 0x100_0000;
    assert Pow2(27) == 0x800_0000;
    assert Pow2(30) == 0x4000_0000;
    assert Pow2(33) == 0x2_0000_0000;
    assert Pow2(36) == 0x10_0000_0000;
    assert Pow2(39) == 0x80_0000_0000;
  }

  lemma Parity(a: nat, b: nat)
    ensures (2 * a + b) % 2 == b % 2
  {
  }

  lemma OrFields(x: nat, y: nat)
    ensures y < 0x80_0000_0000 ==> BitOr(x * 0x80_0000_0000, y) == x * 0x80_0000_0000 + y
    ensures y < 0x4000_0000 ==> BitOr(x * 0x4000_0000, y) == x * 0x4000_0000 + y
    ensures y < 0x20_0000 ==> BitOr(x * 0x20_0000, y) == x * 0x20_0000 + y
    ensures y < 4096 ==> BitOr(x * 4096, y) == x * 4096 + y
  {
    Pow2Values();
    if y < 0x80_0000_0000 { OrLow(x, y, 39); }
    if y < 0x4000_0000 { OrLow(x, y, 30); }
    if y < 0x20_0000 { OrLow(x, y, 21); }
    if y < 4096 { OrLow(x, y, 12); }
  }

  lemma OrCarry(x: nat)
    ensures BitOr(x * 0x80_0000_0000, 0x80_0000_0000) == (if x % 2 == 1 then x else x + 1) * 0x80_0000_0000
    ensures BitOr(x * 0x4000_0000, 0x4000_0000) == (if x % 2 == 1 then x else x + 1) * 0x4000_0000
  {
    Pow2Values();
    OrOne(x);
    OrShift(x, 1, 39);
    OrShift(x, 1, 30);
  }

  /** An entry gives back its frame and its flags. */
  lemma EntryRoundTrip(frame: nat, flags: nat)
    requires frame < FRAMES && flags < PGSIZE
    ensures MakeEntry(frame, flags) == frame * PGSIZE + flags
    ensures FrameOf(MakeEntry(frame, flags)) == frame
    ensures Present(MakeEntry(frame, flags)) == (flags % 2 == 1)
    ensures Writable(MakeEntry(frame, flags)) == (flags / 2 % 2 == 1)
    ensures User(MakeEntry(frame, flags)) == (flags / 4 % 2 == 1)
  {
    hide BitOr;
    OrFields(frame, flags);
    assert (frame * PGSIZE + flags) / PGSIZE == frame;
    Parity(frame * 2048, flags);
    assert (frame * PGSIZE + flags) / 2 == 2 * (frame * 1024) + flags / 2;
    Parity(frame * 1024, flags / 2);
    assert (frame * PGSIZE + flags) / 4 == 2 * (frame * 512) + flags / 4;
    Parity(frame * 512, flags / 4);
  }

  /** PGADDR with no field overflowing is the sum of its fields. */
  lemma PgAddrSum(l4: nat, l3: nat, d: nat, t: nat, o: nat)
    requires l3 < 512 && d < 512 && t < 512 && o < 4096
    ensures PgAddr(l4, l3, d, t, o)
         == l4 * 0x80_0000_0000 + l3 * 0x4000_0000 + d * 0x20_0000 + t * 0x1000 + o
  {
    hide BitOr;
    OrFields(l4, l3 * 0x4000_0000);
    var x := l4 * 512 + l3;
    OrFields(x, d * 0x20_0000);
    var y := x * 512 + d;
    OrFields(y, t * 0x1000);
    OrFields(y * 512 + t, o);
  }

  /** Incrementing the third-level field past its end: the carry is ORed into the
      fourth-level field, so it is lost exactly when that field is odd. */
  lemma PgAddrCarryPdpt(l4: nat)
    ensures PgAddr(l4, 512, 0, 0, 0) == (if l4 % 2 == 1 then l4 else l4 + 1) * 0x80_0000_0000
  {
    hide BitOr;
    OrCarry(l4);
    OrZero((if l4 % 2 == 1 then l4 else l4 + 1) * 0x80_0000_0000);
  }

  /** The same one level down. */
  lemma PgAddrCarryPd(l4: nat, l3: nat)
    requires l3 < 512
    ensures PgAddr(l4, l3, 512, 0, 0)
         == l4 * 0x80_0000_0000 + (if l3 % 2 == 1 then l3 else l3 + 1) * 0x4000_0000
  {
    hide BitOr;
    OrFields(l4, l3 * 0x4000_0000);
    var x := l4 * 512 + l3;
    assert x * 0x4000_0000 == l4 * 0x80_0000_0000 + l3 * 0x4000_0000;
    OrCarry(x);
    Parity(l4 * 256, l3);
    OrZero((if x % 2 == 1 then x else x + 1) * 0x4000_0000);
  }

  /** The last 2 MB below 2 GB: the address behind them comes out as 1 GB. */
  lemma LostCarry()
    ensures Pml4Index(0x7fe0_0000) == 0 && PdptIndex(0x7fe0_0000) == 1 && PdIndex(0x7fe0_0000) == 511
    ensures PgAddr(0, 1, 511 + 1, 0, 0) == 0x4000_0000
  {
    hide PgAddr;
    PgAddrCarryPd(0, 1);
  }
}
