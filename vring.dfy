/** The split-virtqueue memory layout of the virtio-gpu driver
    (metal/Heat2D_virt_gpu.cpp, lines 45-102): align_up, the ring sizes for
    a 16-entry queue, and where ring_ptrs_from_base puts the driver's view
    of each ring, compared with the layout the device derives (section
    2.6.2 of the OASIS VIRTIO 1.1 standard, legacy interfaces) and with the
    three addresses a modern (version 2) device is given. */
module VringLayout {
  import opened Bits
  import opened Numerals
  import opened Pixels

  const QSZ: int := 16
  const PGSZ: int := 4096

  /** sizeof(vring_desc) (packed: addr 8, len 4, flags 2, next 2). */
  const DescSize: int := 16
  /** sizeof(vring_used_elem). */
  const UsedElemSize: int := 8

  /** `(x + a - 1) & ~(a - 1)` in uint32. */
  function AlignUp(x: u32, a: u32): (r: u32)
  {
    var m := (a + TWO32 - 1) % TWO32;
    BitAnd((x + a - 1 + TWO32) % TWO32, TWO32 - 1 - m)
  }

  /** For a = 2^k and no uint32 overflow, align_up gives the least multiple
      of a that is at least x. */
  lemma AlignUpLeastMultiple(x: u32, a: u32, k: nat)
    requires k < 32 && a == Pow2(k) && x + a - 1 < TWO32
    ensures AlignUp(x, a) % a == 0 && x <= AlignUp(x, a) < x + a
  {
    AlignUpRoundsDown(x, a, k);
    RoundUpBounds(x, a);
  }

  /** Without overflow, align_up's `(x + a - 1) & ~(a - 1)` rounds x + a - 1
      down to a multiple of a. */
  lemma AlignUpRoundsDown(x: u32, a: u32, k: nat)
    requires k < 32 && a == Pow2(k) && x + a - 1 < TWO32
    ensures AlignUp(x, a) == (x + a - 1) / a * a
  {
    AlignUpNoWrap(x, a);
    MaskRoundsDown(x + a - 1, a, k);
  }

  /** `v & (2^32 - a)` for a = 2^k rounds v down to a multiple of a. */
  lemma MaskRoundsDown(v: nat, a: u32, k: nat)
    requires k < 32 && a == Pow2(k) && v < TWO32
    ensures BitAnd(v, TWO32 - a) == v / a * a
  {
    Pow2Facts();
    Pow2Monotone(k, 32);
    calc {
      BitAnd(v, TWO32 - a);
    == { BitAndArgs(v, TWO32 - a, v, MaskAbove(32, k)); }
      BitAnd(v, MaskAbove(32, k));
    == { HighMask(v, 32, k); }
      v / Pow2(k) * Pow2(k);
    == { RoundDownBy(v, a, Pow2(k)); }
      v / a * a;
    }
  }

  lemma RoundDownBy(v: nat, a: nat, p: nat)
    requires a == p && p >= 1
    ensures v / p * p == v / a * a
  {
  }

  /** Rounding x + a - 1 down to a multiple of a gives the least multiple
      of a that is at least x. */
  lemma RoundUpBounds(x: nat, a: nat)
    requires a >= 1
    ensures var r := (x + a - 1) / a * a; r % a == 0 && x <= r < x + a
  {
    MultipleBounds(x + a - 1, a);
  }

  /** With a >= 1 and no overflow, neither modulo in align_up changes its operand. */
  lemma AlignUpNoWrap(x: u32, a: u32)
    requires 1 <= a && x + a - 1 < TWO32
    ensures AlignUp(x, a) == BitAnd(x + a - 1, TWO32 - a)
  {
    var v := x + a - 1;
    assert (v + TWO32) % TWO32 == v by { LemmaSmallModShift(v); }
    assert (a + TWO32 - 1) % TWO32 == a - 1 by { LemmaSmallModShift(a - 1); }
  }

  /** Adding 2^32 to a uint32 value and reducing modulo 2^32 changes nothing. */
  lemma LemmaSmallModShift(v: int)
    requires 0 <= v < TWO32
    ensures (v + TWO32) % TWO32 == v
  {
  }

  /** v / a * a is the multiple of a in (v - a, v]. */
  lemma MultipleBounds(v: nat, a: nat)
    requires a >= 1
    ensures (v / a * a) % a == 0 && v - a < v / a * a <= v
  {
    var q := v / a;
    LemmaModUnique(q * a, a, q, 0);
  }

  /** 2^n - 2^k: the bits from k up to n - 1. */
  function MaskAbove(n: nat, k: nat): (m: nat)
    requires k <= n
    ensures m == Pow2(n) - Pow2(k)
  {
    Pow2Monotone(k, n);
    Pow2(n) - Pow2(k)
  }

  /** `v & (2^n - 2^k)` clears the k low bits of a value below 2^n. */
  lemma {:induction false} HighMask(v: nat, n: nat, k: nat)
    requires k <= n && v < Pow2(n)
    ensures BitAnd(v, MaskAbove(n, k)) == v / Pow2(k) * Pow2(k)
    decreases k
  {
    if k == 0 {
      HighMaskNone(v, n);
    } else if k == n {
      HighMaskAll(v, n);
    } else {
      HighMaskStep(v, n, k);
      HighMask(v / 2, n - 1, k - 1);
      HighMaskCombine(v, k, BitAnd(v / 2, MaskAbove(n - 1, k - 1)));
    }
  }

  /** With k == 0 the mask keeps every bit of v. */
  lemma HighMaskNone(v: nat, n: nat)
    requires v < Pow2(n)
    ensures BitAnd(v, MaskAbove(n, 0)) == v / Pow2(0) * Pow2(0)
  {
    LowMask(v, n);
    assert Pow2(0) == 1;
  }

  /** With k == n the mask is empty and v / 2^n is 0. */
  lemma HighMaskAll(v: nat, n: nat)
    requires v < Pow2(n)
    ensures BitAnd(v, MaskAbove(n, n)) == v / Pow2(n) * Pow2(n)
  {
    assert MaskAbove(n, n) == 0;
    LemmaModUnique(v, Pow2(n), 0, v);
  }

  /** Doubling the quotient of v / 2 by 2^(k-1) gives that of v by 2^k. */
  lemma HighMaskCombine(v: nat, k: nat, h: nat)
    requires k >= 1 && h == (v / 2) / Pow2(k - 1) * Pow2(k - 1)
    ensures 2 * h == v / Pow2(k) * Pow2(k)
  {
    var p := Pow2(k - 1);
    assert Pow2(k) == 2 * p;
    HalveDiv(v, p);
    var q := v / Pow2(k);
    assert 2 * (q * p) == q * (2 * p);
  }

  lemma HighMaskStep(v: nat, n: nat, k: nat)
    requires 0 < k < n && v < Pow2(n)
    ensures v / 2 < Pow2(n - 1)
    ensures BitAnd(v, MaskAbove(n, k)) == 2 * BitAnd(v / 2, MaskAbove(n - 1, k - 1))
  {
    var m := MaskAbove(n, k);
    assert m % 2 == 0 && m / 2 == MaskAbove(n - 1, k - 1);
  }

  /** The ring sizes, used_event and avail_event included. */
  const DescBytes: int := DescSize * QSZ
  const AvailBytes: int := 6 + 2 * QSZ
  const UsedBytes: int := 6 + UsedElemSize * QSZ

  /** The offset of the used ring: the first page after desc + avail. */
  function UsedOffset(): (off: u32) {
    AlignUp(DescBytes + AvailBytes, PGSZ)
  }

  /** VRING_BYTES. */
  function VringBytes(): (n: int) {
    AlignUp(DescBytes + AvailBytes, PGSZ) + AlignUp(UsedBytes, PGSZ)
  }

  /** The constants of a 16-entry ring: the descriptors take 256 bytes, the
      avail ring starts right after them, the used ring on the next page,
      and the whole ring is two pages. */
  lemma RingSizes()
    ensures DescBytes == 256 && AvailBytes == 38 && UsedBytes == 134
    ensures UsedOffset() == 4096
    ensures AlignUp(UsedBytes, PGSZ) == 4096
    ensures VringBytes() == 8192
  {
    Pow2Facts();
    assert Pow2(12) == 4096 by {
      assert Pow2(4) == 16;
      assert Pow2(8) == 256;
    }
    AlignUpLeastMultiple(294, 4096, 12);
    AlignUpLeastMultiple(134, 4096, 12);
    var r1 := AlignUp(294, 4096);
    var r2 := AlignUp(134, 4096);
    AlignedIs(r1, 294);
    AlignedIs(r2, 134);
  }

  /** The only multiple of 4096 in [x, x + 4096) for 0 < x <= 4096 is 4096. */
  lemma AlignedIs(r: int, x: int)
    requires 0 < x <= 4096 && r % 4096 == 0 && x <= r < x + 4096
    ensures r == 4096
  {
    assert r / 4096 == 1;
  }

  /** The driver's pointers into a ring. */
  datatype RingPtrs = RingPtrs(desc: int, availFlags: int, availIdx: int, availRing: int,
                               usedFlags: int, usedIdx: int, usedRing: int)

  /** ring_ptrs_from_base: descriptors at base, avail (flags, idx, ring) at
      base + DESC_BYTES, used (flags, idx, ring) at the used offset. */
  function PtrsFromBase(base: int): (p: RingPtrs)
    ensures p.desc == base
  {
    var avail := base + DescBytes;
    var used := base + UsedOffset();
    RingPtrs(base, avail, avail + 2, avail + 4, used, used + 2, used + 4)
  }

  /** Where a legacy device looks for the rings of a queue of `num`
      descriptors registered at page frame pfn with alignment `align`: the
      descriptors at pfn * 4096, the avail ring right after them, the used
      ring at the next multiple of align after the avail ring's
      2 * (3 + num) bytes. */
  function LegacyDeviceRings(pfn: nat, num: nat, align: nat): (p: RingPtrs)
    requires align >= 1
  {
    var desc := pfn * PGSZ;
    var avail := desc + DescSize * num;
    var usedStart := avail + 2 * (3 + num);
    var used := (usedStart + align - 1) / align * align;
    RingPtrs(desc, avail, avail + 2, avail + 4, used, used + 2, used + 4)
  }

  /** In the legacy branch the ring is vring_mem, page aligned, registered
      as pfn vring_mem / 4096 with QUEUE_ALIGN 4096 and QUEUE_NUM 16: the
      device's view of every ring field is the driver's. */
  lemma LegacyLayoutAgrees(base: nat)
    requires base % PGSZ == 0
    ensures PtrsFromBase(base) == LegacyDeviceRings(base / PGSZ, QSZ, PGSZ)
  {
    RingSizes();
    var q := base / PGSZ;
    assert q * PGSZ == base;
    var usedStart := base + 256 + 38;
    assert usedStart + 4095 == (q + 1) * 4096 + 293;
    LemmaModUnique(usedStart + 4095, 4096, q + 1, 293);
  }

  /** Within the two pages the three parts do not overlap: descriptors in
      [0, 256), avail in [256, 294), used in [4096, 4230). */
  lemma RingPartsDisjoint(base: int)
    ensures var p := PtrsFromBase(base);
      p.availFlags == base + DescBytes && p.availRing + 2 * QSZ + 2 == base + DescBytes + AvailBytes &&
      base + DescBytes + AvailBytes <= p.usedFlags &&
      p.usedRing + UsedElemSize * QSZ + 2 == base + 4096 + UsedBytes &&
      base + 4096 + UsedBytes <= base + VringBytes()
  {
    RingSizes();
  }

  // ---------------------------------------------------------------------
  // Modern transport (mmio version >= 2)

  /** The three areas the modern branch registers: desc_v2, avail_v2_mem
      and used_v2_mem, each page aligned. */
  datatype ModernAreas = ModernAreas(desc: u64, avail: u64, used: u64)

  predicate PageAligned(m: ModernAreas) {
    m.desc % PGSZ == 0 && m.avail % PGSZ == 0 && m.used % PGSZ == 0
  }

  /** As written, the driver takes its avail pointer from desc_v2 with the
      legacy layout (desc_v2 + 256), which is never the page-aligned
      avail_v2_mem the device was given: the ring entries and the avail
      index the driver publishes are not where the device reads them. */
  lemma ModernAvailMisplaced(m: ModernAreas)
    requires PageAligned(m)
    ensures PtrsFromBase(m.desc).availFlags != m.avail
    ensures PtrsFromBase(m.desc).availFlags % PGSZ == 256
  {
    RingSizes();
    var q := m.desc / PGSZ;
    LemmaModUnique(m.desc + 256, PGSZ, q, 256);
  }

  /** The corrected modern pointers: each ring at the address registered
      for it. */
  function ModernPtrs(m: ModernAreas): (p: RingPtrs)
    ensures p.desc == m.desc && p.availFlags == m.avail && p.usedFlags == m.used
  {
    RingPtrs(m.desc, m.avail, m.avail + 2, m.avail + 4, m.used, m.used + 2, m.used + 4)
  }

  /** The corrected pointers place the avail and used indices and rings at
      the offsets section 2.6 of VIRTIO 1.1 gives (flags, idx, ring), in the
      registered areas. */
  lemma ModernPtrsRegistered(m: ModernAreas)
    ensures var p := ModernPtrs(m);
      p.availIdx == m.avail + 2 && p.availRing == m.avail + 4 &&
      p.usedIdx == m.used + 2 && p.usedRing == m.used + 4
  {
  }

  /** set64: the low word `v & 0xffffffff`, then the high word `v >> 32`;
      together they give back v. */
  function Set64Words(v: u64): (w: (u32, u32))
    ensures w.0 + w.1 * TWO32 == v
  {
    Pow2Facts();
    LowBits(v, 32);
    (BitAnd(v, 0xffff_ffff), v / TWO32)
  }

  /** `v & (2^k - 1)` is v mod 2^k. */
  lemma {:induction false} LowBits(v: nat, k: nat)
    ensures BitAnd(v, Pow2(k) - 1) == v % Pow2(k)
  {
    if k == 0 {
      assert Pow2(k) == 1;
    } else if v != 0 {
      var p := Pow2(k - 1);
      LowBits(v / 2, k - 1);
      LowBitsStep(v, p, Pow2(k));
    }
  }

  lemma LowBitsStep(v: nat, p: nat, n: nat)
    requires v > 0 && p >= 1 && n == 2 * p
    requires BitAnd(v / 2, p - 1) == (v / 2) % p
    ensures BitAnd(v, n - 1) == v % n
  {
    var m := n - 1;
    assert m / 2 == p - 1 && m % 2 == 1;
    AndOddStep(v, m);
    HalfMod(v, p);
  }

  /** v mod 2p from v / 2 mod p and the low bit. */
  lemma HalfMod(v: nat, p: nat)
    requires p >= 1
    ensures v % (2 * p) == 2 * ((v / 2) % p) + v % 2
  {
    var h, r := v / 2, v % 2;
    var q, s := h / p, h % p;
    assert v == q * (2 * p) + (2 * s + r) by {
      assert h == q * p + s;
      assert v == 2 * h + r;
    }
    LemmaModUnique(v, 2 * p, q, 2 * s + r);
  }

  /** One step of AND with an odd mask: the low bit of v survives. */
  lemma AndOddStep(v: nat, m: nat)
    requires v > 0 && m % 2 == 1
    ensures BitAnd(v, m) == 2 * BitAnd(v / 2, m / 2) + v % 2
  {
  }
}
