/** Pixel and colour helpers of the UEFI heat demo (Heat2D.c, lines 43-90 and
    130-142): INT32 clamping, scaling an 8-bit channel into a GOP bit mask,
    packing a pixel for each GOP pixel format, and the colour-table index of
    a Q16.16 temperature. A UINT32 is a natural below 2^32: `x & 1` is
    `x % 2`, `x >>= 1` is `x / 2`, a left shift multiplies by a power of two
    and wraps at 2^32, and `&`/`|` are BitAnd/BitOr below. */
module Pixels {
  import opened Bits
  import opened Numerals
  import opened ByteOrder

  /** ClampI32: lo if v is below lo, otherwise hi if v is above hi, otherwise v. */
  function Clamp(v: int, lo: int, hi: int): (r: int)
    ensures lo <= hi ==> lo <= r <= hi
    ensures lo <= v <= hi ==> r == v
    ensures v < lo ==> r == lo
    ensures v >= lo && v > hi ==> r == hi
  {
    if v < lo then lo else if v > hi then hi else v
  }

  /** Clamping is monotone, so it preserves the order of its arguments. */
  lemma ClampMonotone(u: int, v: int, lo: int, hi: int)
    requires u <= v && lo <= hi
    ensures Clamp(u, lo, hi) <= Clamp(v, lo, hi)
  {
  }

  // ---------------------------------------------------------------------
  // Bits of naturals

  function Pow2(k: nat): (p: nat)
    ensures p >= 1
  {
    if k == 0 then 1 else 2 * Pow2(k - 1)
  }

  lemma {:induction false} Pow2Monotone(j: nat, k: nat)
    requires j <= k
    ensures Pow2(j) <= Pow2(k)
    decreases k
  {
    if j < k {
      Pow2Monotone(j, k - 1);
    }
  }

  lemma Pow2Facts()
    ensures Pow2(8) == 256 && Pow2(24) == 0x100_0000 && Pow2(31) == TWO31 && Pow2(32) == TWO32
  {
    assert Pow2(4) == 16;
    assert Pow2(8) == 256;
    assert Pow2(12) == 0x1000;
    assert Pow2(16) == 0x1_0000;
    assert Pow2(20) == 0x10_0000;
    assert Pow2(24) == 0x100_0000;
    assert Pow2(28) == 0x1000_0000;
  }

  /** Bitwise AND, least significant bit first. */
  function BitAnd(a: nat, b: nat): (r: nat)
    ensures r <= a && r <= b
    decreases a
  {
    if a == 0 || b == 0 then 0
    else 2 * BitAnd(a / 2, b / 2) + (if a % 2 == 1 && b % 2 == 1 then 1 else 0)
  }

  /** Bitwise OR, least significant bit first. */
  function BitOr(a: nat, b: nat): (r: nat)
    decreases a + b
  {
    if a == 0 then b
    else if b == 0 then a
    else 2 * BitOr(a / 2, b / 2) + (if a % 2 == 1 || b % 2 == 1 then 1 else 0)
  }

  /** Every set bit of x is set in m. */
  predicate Within(x: nat, m: nat) {
    BitAnd(x, m) == x
  }

  /** Two values have no set bit in common. */
  predicate Disjoint(x: nat, m: nat) {
    BitAnd(x, m) == 0
  }

  lemma {:induction false} OrBound(a: nat, b: nat, k: nat)
    requires a < Pow2(k) && b < Pow2(k)
    ensures BitOr(a, b) < Pow2(k)
    decreases a + b
  {
    if a != 0 && b != 0 {
      OrBound(a / 2, b / 2, k - 1);
    }
  }

  lemma {:induction false} AndIdempotent(x: nat, m: nat)
    ensures Within(BitAnd(x, m), m)
    decreases x
  {
    if x != 0 && m != 0 {
      AndIdempotent(x / 2, m / 2);
      var y := BitAnd(x, m);
      var h := BitAnd(x / 2, m / 2);
      assert y / 2 == h && y % 2 == (if x % 2 == 1 && m % 2 == 1 then 1 else 0);
    }
  }

  lemma {:induction false} AndSelf(x: nat)
    ensures BitAnd(x, x) == x
    decreases x
  {
    if x != 0 {
      AndSelf(x / 2);
    }
  }

  /** Both operands of an OR lie within it. */
  lemma {:induction false} WithinOr(x: nat, y: nat)
    ensures Within(x, BitOr(x, y)) && Within(y, BitOr(x, y))
    decreases x + y
  {
    if x != 0 && y != 0 {
      WithinOr(x / 2, y / 2);
      var o := BitOr(x, y);
      assert o / 2 == BitOr(x / 2, y / 2);
      assert BitAnd(x, o) == 2 * BitAnd(x / 2, o / 2) + (if x % 2 == 1 && o % 2 == 1 then 1 else 0);
      assert BitAnd(y, o) == 2 * BitAnd(y / 2, o / 2) + (if y % 2 == 1 && o % 2 == 1 then 1 else 0);
    } else if x == 0 {
      AndSelf(y);
    } else {
      AndSelf(x);
    }
  }

  lemma HalveWithin(x: nat, m: nat)
    requires Within(x, m) && x != 0
    ensures m != 0 && Within(x / 2, m / 2) && (x % 2 == 1 ==> m % 2 == 1)
  {
  }

  lemma {:induction false} WithinTransitive(x: nat, m: nat, n: nat)
    requires Within(x, m) && Within(m, n)
    ensures Within(x, n)
    decreases x
  {
    if x != 0 {
      HalveWithin(x, m);
      HalveWithin(m, n);
      WithinTransitive(x / 2, m / 2, n / 2);
    }
  }

  /** The OR of values within two masks lies within the OR of the masks. */
  lemma {:induction false} OrWithin(x: nat, y: nat, m: nat, n: nat)
    requires Within(x, m) && Within(y, n)
    ensures Within(BitOr(x, y), BitOr(m, n))
    decreases x + y
  {
    WithinOr(m, n);
    if x == 0 {
      WithinTransitive(y, n, BitOr(m, n));
    } else if y == 0 {
      WithinTransitive(x, m, BitOr(m, n));
    } else {
      HalveWithin(x, m);
      HalveWithin(y, n);
      OrWithin(x / 2, y / 2, m / 2, n / 2);
      var o, p := BitOr(x, y), BitOr(m, n);
      assert o / 2 == BitOr(x / 2, y / 2) && p / 2 == BitOr(m / 2, n / 2);
      assert BitAnd(o, p) == 2 * BitAnd(o / 2, p / 2) + (if o % 2 == 1 && p % 2 == 1 then 1 else 0);
    }
  }

  /** Masking x | y with the field of x recovers x when y lies outside it. */
  lemma {:induction false} FieldOf(x: nat, y: nat, m: nat)
    requires Within(x, m) && Disjoint(y, m)
    ensures BitAnd(BitOr(x, y), m) == x
    decreases x + y
  {
    if x == 0 {
      assert BitOr(x, y) == y;
    } else if y != 0 {
      HalveWithin(x, m);
      assert BitAnd(y / 2, m / 2) == 0 && (y % 2 == 1 ==> m % 2 == 0);
      FieldOf(x / 2, y / 2, m / 2);
      var o := BitOr(x, y);
      assert o / 2 == BitOr(x / 2, y / 2);
    }
  }

  /** A value within m shares no bit with anything disjoint from m. */
  lemma {:induction false} DisjointWithin(y: nat, n: nat, m: nat)
    requires Within(y, n) && Disjoint(n, m)
    ensures Disjoint(y, m)
    decreases y
  {
    if y != 0 && m != 0 {
      HalveWithin(y, n);
      assert BitAnd(n / 2, m / 2) == 0;
      DisjointWithin(y / 2, n / 2, m / 2);
    }
  }

  lemma {:induction false} DisjointOr(x: nat, y: nat, m: nat)
    requires Disjoint(x, m) && Disjoint(y, m)
    ensures Disjoint(BitOr(x, y), m)
    decreases x + y
  {
    if x != 0 && y != 0 && m != 0 {
      DisjointOr(x / 2, y / 2, m / 2);
      assert BitOr(x, y) / 2 == BitOr(x / 2, y / 2);
    }
  }

  lemma {:induction false} DisjointSymmetric(x: nat, m: nat)
    requires Disjoint(x, m)
    ensures Disjoint(m, x)
    decreases x
  {
    if x != 0 && m != 0 {
      DisjointSymmetric(x / 2, m / 2);
    }
  }

  lemma {:induction false} OrCommute(x: nat, y: nat)
    ensures BitOr(x, y) == BitOr(y, x)
    decreases x + y
  {
    if x != 0 && y != 0 {
      OrCommute(x / 2, y / 2);
    }
  }

  lemma {:induction false} OrAssoc(x: nat, y: nat, z: nat)
    ensures BitOr(BitOr(x, y), z) == BitOr(x, BitOr(y, z))
    decreases x + y + z
  {
    if x != 0 && y != 0 && z != 0 {
      OrAssoc(x / 2, y / 2, z / 2);
      assert BitOr(x, y) / 2 == BitOr(x / 2, y / 2);
      assert BitOr(y, z) / 2 == BitOr(y / 2, z / 2);
    }
  }

  // ---------------------------------------------------------------------
  // Scale8ToMask

  /** The number of clear bits below the lowest set bit of m. */
  function LowZeros(m: nat): nat
    requires m > 0
  {
    if m % 2 == 1 then 0 else 1 + LowZeros(m / 2)
  }

  /** m shifted right past its low clear bits. */
  function Strip(m: nat): (t: nat)
    requires m > 0
    ensures t % 2 == 1
  {
    if m % 2 == 1 then m else Strip(m / 2)
  }

  /** The length of the run of set bits at the bottom of m. */
  function RunLength(m: nat): nat
  {
    if m % 2 == 0 then 0 else 1 + RunLength(m / 2)
  }

  lemma {:induction false} LowZerosBound(m: nat, k: nat)
    requires 0 < m < Pow2(k)
    ensures LowZeros(m) < k && Strip(m) < Pow2(k - LowZeros(m))
    decreases m
  {
    if m % 2 == 0 {
      LowZerosBound(m / 2, k - 1);
    }
  }

  lemma {:induction false} RunLengthBound(m: nat, k: nat)
    requires m < Pow2(k)
    ensures RunLength(m) <= k
    decreases m
  {
    if m % 2 == 1 {
      RunLengthBound(m / 2, k - 1);
    }
  }

  /** The field of a nonzero UINT32 mask starts below bit 32, is at least
      one bit wide and ends by bit 32. */
  lemma FieldOfMask(mask: u32)
    requires mask != 0
    ensures LowZeros(mask) < 32
    ensures 1 <= RunLength(Strip(mask)) <= 32 - LowZeros(mask)
  {
    Pow2Facts();
    LowZerosBound(mask, 32);
    RunLengthBound(Strip(mask), 32 - LowZeros(mask));
  }

  /** The largest value of a field of `bits` bits. */
  function FieldMax(bits: nat): (v: u32)
    requires bits <= 32
    ensures v == Pow2(bits) - 1
  {
    Pow2Facts();
    if bits >= 32 then TWO32 - 1 else Pow2Monotone(bits, 31); Pow2(bits) - 1
  }

  /** (c * maxVal + 127) / 255 as the source computes it, in UINT32: the
      product wraps modulo 2^32 once the field is wider than 24 bits. */
  function ScaledField(c: u8, bits: nat): u32
    requires bits <= 32
  {
    ((c * FieldMax(bits) + 127) % TWO32) / 255
  }

  /** What Scale8ToMask returns: the channel scaled into the mask's lowest
      field, shifted there (wrapping at 2^32) and masked. */
  function Scale8ToMaskValue(c: u8, mask: u32): (r: u32)
  {
    if mask == 0 then 0
    else
      FieldOfMask(mask);
      BitAnd((ScaledField(c, RunLength(Strip(mask))) * Pow2(LowZeros(mask))) % TWO32, mask)
  }

  /** Scale8ToMask. The two early returns of the source (shift reaching 32, an
      empty run) cannot be taken for a nonzero UINT32 mask; they are asserted
      impossible. */
  method Scale8ToMask(c: u8, mask: u32) returns (r: u32)
    ensures r == Scale8ToMaskValue(c, mask)
  {
    if mask == 0 {
      return 0;
    }
    FieldOfMask(mask);
    var shift: nat := 0;
    var tmp: nat := mask;
    while tmp % 2 == 0
      invariant tmp > 0
      invariant shift + LowZeros(tmp) == LowZeros(mask)
      invariant Strip(tmp) == Strip(mask)
      decreases tmp
    {
      tmp := tmp / 2;
      shift := shift + 1;
      if shift >= 32 {
        assert false;
      }
    }
    var bits: nat := 0;
    while tmp % 2 == 1
      invariant bits + RunLength(tmp) == RunLength(Strip(mask))
      invariant bits < 32
      decreases 32 - bits
    {
      tmp := tmp / 2;
      bits := bits + 1;
      if bits >= 32 {
        break;
      }
    }
    if bits == 0 {
      assert false;
    }
    var maxVal: u32 := FieldMax(bits);
    var scaled: u32 := ((c * maxVal + 127) % TWO32) / 255;
    r := BitAnd((scaled * Pow2(shift)) % TWO32, mask);
  }

  /** No bit outside the mask is ever set. */
  lemma ScaleInMask(c: u8, mask: u32)
    ensures Within(Scale8ToMaskValue(c, mask), mask)
  {
    if mask != 0 {
      FieldOfMask(mask);
      AndIdempotent((ScaledField(c, RunLength(Strip(mask))) * Pow2(LowZeros(mask))) % TWO32, mask);
    }
  }

  /** Black stays black, and a zero mask gives zero. */
  lemma ScaleOfZero(c: u8, mask: u32)
    ensures Scale8ToMaskValue(0, mask) == 0
    ensures Scale8ToMaskValue(c, 0) == 0
  {
    if mask != 0 {
      FieldOfMask(mask);
      var k, z := RunLength(Strip(mask)), LowZeros(mask);
      var m := FieldMax(k);
      assert ScaledField(0, k) == 0 by {
        assert 0 * m + 127 == 127;
      }
      var p := Pow2(z);
      assert 0 * p % TWO32 == 0;
      assert BitAnd(0, mask) == 0;
    }
  }

  /** For the usual 8-bit channel field at bit s, the channel value is
      placed unchanged at bit s. */
  lemma ScaleByteField(c: u8, s: nat)
    requires s <= 24
    ensures 255 * Pow2(s) < TWO32
    ensures Scale8ToMaskValue(c, 255 * Pow2(s)) == c * Pow2(s)
  {
    var p := Pow2(s);
    var m := 255 * p;
    ByteFieldBound(s);
    ByteFieldShape(s);
    ScaledByte(c);
    ScaleValueShape(c, m, s, 8);
    NoWrap(c, p);
    ShiftedByteWithin(c, s);
  }

  lemma NoWrap(c: u8, p: nat)
    requires 255 * p < TWO32
    ensures (c * p) % TWO32 == c * p
  {
    MulMonotone(255, c, p);
    LemmaModUnique(c * p, TWO32, 0, c * p);
  }

  /** Scale8ToMaskValue for a mask of known shape. */
  lemma ScaleValueShape(c: u8, mask: u32, lz: nat, bits: nat)
    requires mask != 0 && LowZeros(mask) == lz && RunLength(Strip(mask)) == bits
    ensures bits <= 32
    ensures Scale8ToMaskValue(c, mask) == BitAnd((ScaledField(c, bits) * Pow2(lz)) % TWO32, mask)
  {
    FieldOfMask(mask);
  }

  lemma ByteFieldBound(s: nat)
    requires s <= 24
    ensures 0 < 255 * Pow2(s) < TWO32
  {
    Pow2Facts();
    Pow2Monotone(s, 24);
    MulMonotone(Pow2(24), Pow2(s), 255);
  }

  /** A channel byte in an 8-bit field is left as it is. */
  lemma ScaledByte(c: u8)
    ensures RunLength(255) == 8
    ensures ScaledField(c, 8) == c
  {
    Pow2Facts();
    LowMaskShape(8);
    assert FieldMax(8) == 255;
    LemmaModUnique(c * 255 + 127, TWO32, 0, c * 255 + 127);
    LemmaModUnique(c * 255 + 127, 255, c, 127);
  }

  lemma {:induction false} ByteFieldShape(s: nat)
    ensures LowZeros(255 * Pow2(s)) == s && Strip(255 * Pow2(s)) == 255
    decreases s
  {
    if s > 0 {
      ByteFieldShape(s - 1);
      assert 255 * Pow2(s) == 2 * (255 * Pow2(s - 1));
    }
  }

  lemma {:induction false} ShiftedByteWithin(c: u8, s: nat)
    ensures BitAnd(c * Pow2(s), 255 * Pow2(s)) == c * Pow2(s)
    decreases s
  {
    if s == 0 {
      Pow2Facts();
      LowMask(c, 8);
    } else {
      ShiftedByteWithin(c, s - 1);
      var p := Pow2(s - 1);
      assert Pow2(s) == 2 * p;
      Twice(c, p);
      Twice(255, p);
      DoubleAnd(c * p, 255 * p);
    }
  }

  lemma Twice(x: nat, p: nat)
    ensures x * (2 * p) == 2 * (x * p)
  {
  }

  lemma DoubleAnd(a: nat, b: nat)
    ensures BitAnd(2 * a, 2 * b) == 2 * BitAnd(a, b)
  {
    if a != 0 && b != 0 {
      assert (2 * a) / 2 == a && (2 * b) / 2 == b;
    }
  }

  /** A value below 2^k lies within the mask of the k low bits. */
  lemma {:induction false} LowMask(x: nat, k: nat)
    requires x < Pow2(k)
    ensures BitAnd(x, Pow2(k) - 1) == x
    decreases k
  {
    if k > 0 && x > 0 {
      LowMask(x / 2, k - 1);
      assert (Pow2(k) - 1) / 2 == Pow2(k - 1) - 1 && (Pow2(k) - 1) % 2 == 1;
    }
  }

  // ---------------------------------------------------------------------
  // The UINT32 product in Scale8ToMask, and its 64-bit correction

  /** As written, full intensity in a 25-bit field comes out as 16711422
      rather than the field maximum 33554431: c * maxVal wrapped. */
  lemma ScaleWideFieldWraps()
    ensures FieldMax(25) == 0x1FF_FFFF
    ensures Scale8ToMaskValue(255, 0x1FF_FFFF) == 16711422
  {
    var k := 25;
    Pow2Facts();
    assert Pow2(k) == 2 * Pow2(24) == 0x200_0000;
    var m: int := FieldMax(k);
    assert m == 0x1FF_FFFF;
    LemmaModUnique(255 * m + 127, TWO32, 1, 4261412736);
    LemmaModUnique(4261412736, 255, 16711422, 126);
    assert ScaledField(255, k) == 16711422;
    LowFieldValue(255, k);
  }

  /** For the field of the k low bits no shift is applied: Scale8ToMask
      gives the scaled value itself when it fits the field. */
  lemma LowFieldValue(c: u8, k: nat)
    requires 0 < k <= 32 && ScaledField(c, k) < Pow2(k)
    ensures Scale8ToMaskValue(c, FieldMax(k)) == ScaledField(c, k)
  {
    var f := FieldMax(k);
    var v := ScaledField(c, k);
    assert f > 0 by { assert Pow2(k) == 2 * Pow2(k - 1); }
    LowMaskShape(k);
    assert LowZeros(f) == 0 && RunLength(Strip(f)) == k;
    var sh := ScaledField(c, RunLength(Strip(f))) * Pow2(LowZeros(f));
    assert Scale8ToMaskValue(c, f) == BitAnd(sh % TWO32, f);
    assert sh == v by {
      assert Pow2(0) == 1;
    }
    assert sh % TWO32 == v by {
      LemmaModUnique(v, TWO32, 0, v);
    }
    BitAndArgs(sh % TWO32, f, v, Pow2(k) - 1);
    LowMask(v, k);
  }

  lemma BitAndArgs(p: nat, q: nat, p': nat, q': nat)
    requires p == p' && q == q'
    ensures BitAnd(p, q) == BitAnd(p', q')
  {
  }

  /** The evidently intended scaling: the product in 64 bits, which never
      wraps since c * maxVal < 2^40. */
  function ScaledFieldWide(c: u8, bits: nat): (v: u32)
    requires bits <= 32
    ensures v <= FieldMax(bits)
    ensures c == 255 ==> v == FieldMax(bits)
    ensures c == 0 ==> v == 0
  {
    var m := FieldMax(bits);
    MulMonotone(255, c, m);
    DivBounds(c * m + 127, 255, m);
    if c == 255 then
      LemmaModUnique(255 * m + 127, 255, m, 127);
      m
    else
      (c * m + 127) / 255
  }

  /** Scale8ToMask with the 64-bit product. */
  function Scale8ToMaskWide(c: u8, mask: u32): (r: u32)
    ensures Within(r, mask)
    ensures c == 0 ==> r == 0
  {
    if mask == 0 then 0
    else
      FieldOfMask(mask);
      var v := (ScaledFieldWide(c, RunLength(Strip(mask))) * Pow2(LowZeros(mask))) % TWO32;
      AndIdempotent(v, mask);
      BitAnd(v, mask)
  }

  /** With the 64-bit product, full intensity fills a field of any width:
      for the field of the k low bits the result is the whole field. */
  lemma ScaleWideFull(k: nat)
    requires 0 < k <= 32
    ensures Scale8ToMaskWide(255, FieldMax(k)) == FieldMax(k)
  {
    var f := FieldMax(k);
    Pow2Facts();
    LowMaskShape(k);
    assert f == Pow2(k) - 1;
    LemmaModUnique(f, TWO32, 0, f);
    AndSelf(f);
  }

  /** The mask of the k low bits has no low clear bits and a run of k ones. */
  lemma {:induction false} LowMaskShape(k: nat)
    requires k > 0
    ensures LowZeros(Pow2(k) - 1) == 0 && Strip(Pow2(k) - 1) == Pow2(k) - 1
    ensures RunLength(Pow2(k) - 1) == k
    decreases k
  {
    if k > 1 {
      LowMaskShape(k - 1);
    }
    assert (Pow2(k) - 1) / 2 == Pow2(k - 1) - 1;
  }

  /** For fields of at most 24 bits, which every 8-bit-per-channel format
      has, the product does not wrap and the two definitions agree. */
  lemma ScaleNarrowAgrees(c: u8, mask: u32)
    requires mask != 0 && RunLength(Strip(mask)) <= 24
    ensures Scale8ToMaskValue(c, mask) == Scale8ToMaskWide(c, mask)
  {
    var bits := RunLength(Strip(mask));
    ScaleValueShape(c, mask, LowZeros(mask), bits);
    ScaledNarrowAgrees(c, bits);
  }

  /** Below 25 bits c * maxVal + 127 < 2^32, so the UINT32 sum equals the
      64-bit one. */
  lemma ScaledNarrowAgrees(c: u8, bits: nat)
    requires bits <= 24
    ensures ScaledField(c, bits) == ScaledFieldWide(c, bits)
  {
    var m := FieldMax(bits);
    Pow2Facts();
    Pow2Monotone(bits, 24);
    assert m <= 0xFF_FFFF;
    var p := c * m;
    NarrowProduct(c, m);
    LemmaModUnique(p + 127, TWO32, 0, p + 127);
    if c == 255 {
      LemmaModUnique(255 * m + 127, 255, m, 127);
    }
  }

  /** A channel times a field maximum of at most 24 bits, plus the rounding
      term, stays below 2^32. */
  lemma NarrowProduct(c: u8, m: nat)
    requires m <= 0xFF_FFFF
    ensures 0 <= c * m <= 255 * m && c * m + 127 < TWO32
  {
    MulMonotone(255, c, m);
    MulMonotone(0xFF_FFFF, m, 255);
  }

  // ---------------------------------------------------------------------
  // PackPixel

  /** EFI_GRAPHICS_PIXEL_FORMAT values. */
  const PixelRedGreenBlueReserved8BitPerColor: int := 0
  const PixelBlueGreenRedReserved8BitPerColor: int := 1
  const PixelBitMask: int := 2
  const PixelBltOnly: int := 3

  /** EFI_PIXEL_BITMASK. */
  datatype PixelMasks = PixelMasks(red: u32, green: u32, blue: u32, reserved: u32)

  /** PIXEL_PACKER: the GOP pixel format and, for the bit-mask format, the
      masks. */
  datatype PixelPacker = PixelPacker(fmt: int, masks: PixelMasks)

  /** Four bytes, least significant first. The bytes do not overlap, so the
      source's ORs of shifted bytes are these sums. */
  function Word(b0: u8, b1: u8, b2: u8, b3: u8): (w: u32)
    ensures LeBytes(w, 4) == [b0, b1, b2, b3]
  {
    var w3 := b3;
    var w2 := b2 + 256 * w3;
    var w1 := b1 + 256 * w2;
    var w := b0 + 256 * w1;
    LemmaModUnique(w, 256, w1, b0);
    LemmaModUnique(w1, 256, w2, b1);
    LemmaModUnique(w2, 256, w3, b2);
    LemmaModUnique(w3, 256, 0, b3);
    assert LeBytes(w3, 1) == [b3];
    assert LeBytes(w2, 2) == [b2] + LeBytes(w3, 1);
    assert LeBytes(w1, 3) == [b1] + LeBytes(w2, 2);
    assert LeBytes(w, 4) == [b0] + LeBytes(w1, 3);
    w
  }

  /** The union of the four masks. */
  function MaskUnion(m: PixelMasks): nat {
    BitOr(BitOr(BitOr(m.red, m.green), m.blue), m.reserved)
  }

  /** PackPixel. Unknown formats are packed like blue-green-red. */
  function PackPixel(pk: PixelPacker, r: u8, g: u8, b: u8): (p: u32)
    ensures pk.fmt == PixelRedGreenBlueReserved8BitPerColor ==> LeBytes(p, 4) == [r, g, b, 0xFF]
    ensures pk.fmt != PixelRedGreenBlueReserved8BitPerColor && pk.fmt != PixelBitMask ==>
      LeBytes(p, 4) == [b, g, r, 0xFF]
    ensures pk.fmt == PixelBitMask ==> Within(p, MaskUnion(pk.masks))
    ensures pk.fmt == PixelBitMask ==> Within(pk.masks.reserved, p)
  {
    if pk.fmt == PixelRedGreenBlueReserved8BitPerColor then
      Word(r, g, b, 0xFF)
    else if pk.fmt == PixelBitMask then
      ScaleInMask(r, pk.masks.red);
      ScaleInMask(g, pk.masks.green);
      ScaleInMask(b, pk.masks.blue);
      PackMasked(pk.masks, Scale8ToMaskValue(r, pk.masks.red), Scale8ToMaskValue(g, pk.masks.green),
        Scale8ToMaskValue(b, pk.masks.blue))
    else
      Word(b, g, r, 0xFF)
  }

  /** The bit-mask branch of PackPixel, given the three scaled channels:
      their OR, with the reserved bits set when there are any. */
  function PackMasked(m: PixelMasks, sr: u32, sg: u32, sb: u32): (p: u32)
    ensures Within(sr, m.red) && Within(sg, m.green) && Within(sb, m.blue) ==> Within(p, MaskUnion(m))
    ensures Within(m.reserved, p)
  {
    Pow2Facts();
    OrBound(sr, sg, 32);
    OrBound(BitOr(sr, sg), sb, 32);
    var out := BitOr(BitOr(sr, sg), sb);
    OrBound(out, m.reserved, 32);
    PackedWithin(m, sr, sg, sb);
    WithinOr(out, m.reserved);
    if m.reserved != 0 then BitOr(out, m.reserved) else out
  }

  lemma PackedWithin(m: PixelMasks, sr: nat, sg: nat, sb: nat)
    ensures Within(sr, m.red) && Within(sg, m.green) && Within(sb, m.blue) ==>
      Within(BitOr(BitOr(BitOr(sr, sg), sb), m.reserved), MaskUnion(m)) &&
      Within(BitOr(BitOr(sr, sg), sb), MaskUnion(m))
  {
    var out := BitOr(BitOr(sr, sg), sb);
    var u3 := BitOr(BitOr(m.red, m.green), m.blue);
    if Within(sr, m.red) && Within(sg, m.green) && Within(sb, m.blue) {
      OrWithin(sr, sg, m.red, m.green);
      OrWithin(BitOr(sr, sg), sb, BitOr(m.red, m.green), m.blue);
      AndSelf(m.reserved);
      OrWithin(out, m.reserved, u3, m.reserved);
      WithinOr(u3, m.reserved);
      WithinTransitive(out, u3, MaskUnion(m));
    }
  }

  /** With non-overlapping masks, each channel's field holds exactly that
      channel's scaled value. */
  lemma PackBitMaskChannels(pk: PixelPacker, r: u8, g: u8, b: u8)
    requires pk.fmt == PixelBitMask
    requires Disjoint(pk.masks.red, pk.masks.green) && Disjoint(pk.masks.red, pk.masks.blue)
    requires Disjoint(pk.masks.red, pk.masks.reserved) && Disjoint(pk.masks.green, pk.masks.blue)
    requires Disjoint(pk.masks.green, pk.masks.reserved) && Disjoint(pk.masks.blue, pk.masks.reserved)
    ensures BitAnd(PackPixel(pk, r, g, b), pk.masks.red) == Scale8ToMaskValue(r, pk.masks.red)
    ensures BitAnd(PackPixel(pk, r, g, b), pk.masks.green) == Scale8ToMaskValue(g, pk.masks.green)
    ensures BitAnd(PackPixel(pk, r, g, b), pk.masks.blue) == Scale8ToMaskValue(b, pk.masks.blue)
  {
    var m := pk.masks;
    var sr, sg, sb := Scale8ToMaskValue(r, m.red), Scale8ToMaskValue(g, m.green), Scale8ToMaskValue(b, m.blue);
    ScaleInMask(r, m.red);
    ScaleInMask(g, m.green);
    ScaleInMask(b, m.blue);
    assert PackPixel(pk, r, g, b) == PackMasked(m, sr, sg, sb);
    DisjointSymmetric(m.red, m.green);
    DisjointSymmetric(m.red, m.blue);
    DisjointSymmetric(m.green, m.blue);
    RedChannel(m, sr, sg, sb);
    GreenChannel(m, sr, sg, sb);
    BlueChannel(m, sr, sg, sb);
  }

  /** What PackMasked's two branches amount to. */
  lemma MaskedShape(m: PixelMasks, sr: u32, sg: u32, sb: u32)
    ensures var out := BitOr(BitOr(sr, sg), sb);
      PackMasked(m, sr, sg, sb) == if m.reserved != 0 then BitOr(out, m.reserved) else out
  {
  }

  lemma RedChannel(m: PixelMasks, sr: u32, sg: u32, sb: u32)
    requires Within(sr, m.red) && Within(sg, m.green) && Within(sb, m.blue)
    requires Disjoint(m.green, m.red) && Disjoint(m.blue, m.red) && Disjoint(m.red, m.reserved)
    ensures BitAnd(PackMasked(m, sr, sg, sb), m.red) == sr
  {
    MaskedShape(m, sr, sg, sb);
    ChannelOf(sr, sg, sb, m.reserved, m.red, m.green, m.blue);
  }

  lemma GreenChannel(m: PixelMasks, sr: u32, sg: u32, sb: u32)
    requires Within(sr, m.red) && Within(sg, m.green) && Within(sb, m.blue)
    requires Disjoint(m.red, m.green) && Disjoint(m.blue, m.green) && Disjoint(m.green, m.reserved)
    ensures BitAnd(PackMasked(m, sr, sg, sb), m.green) == sg
  {
    MaskedShape(m, sr, sg, sb);
    ChannelOf(sg, sr, sb, m.reserved, m.green, m.red, m.blue);
    OrCommute(sr, sg);
  }

  lemma BlueChannel(m: PixelMasks, sr: u32, sg: u32, sb: u32)
    requires Within(sr, m.red) && Within(sg, m.green) && Within(sb, m.blue)
    requires Disjoint(m.red, m.blue) && Disjoint(m.green, m.blue) && Disjoint(m.blue, m.reserved)
    ensures BitAnd(PackMasked(m, sr, sg, sb), m.blue) == sb
  {
    MaskedShape(m, sr, sg, sb);
    ChannelOf(sb, sr, sg, m.reserved, m.blue, m.red, m.green);
    OrMoveLast(sr, sg, sb);
  }

  /** s lies within ms; the other two lie within masks disjoint from ms. */
  lemma ChannelOf(s: nat, o1: nat, o2: nat, mx: nat, ms: nat, m1: nat, m2: nat)
    requires Within(s, ms) && Within(o1, m1) && Within(o2, m2)
    requires Disjoint(m1, ms) && Disjoint(m2, ms) && Disjoint(ms, mx)
    ensures BitAnd(BitOr(BitOr(s, o1), o2), ms) == s
    ensures BitAnd(BitOr(BitOr(BitOr(s, o1), o2), mx), ms) == s
  {
    DisjointWithin(o1, m1, ms);
    DisjointWithin(o2, m2, ms);
    DisjointOr(o1, o2, ms);
    OrAssoc(s, o1, o2);
    FieldOf(s, BitOr(o1, o2), ms);
    DisjointSymmetric(ms, mx);
    DisjointOr(BitOr(o1, o2), mx, ms);
    OrAssoc(s, BitOr(o1, o2), mx);
    FieldOf(s, BitOr(BitOr(o1, o2), mx), ms);
  }

  lemma OrMoveLast(x: nat, y: nat, z: nat)
    ensures BitOr(BitOr(x, y), z) == BitOr(BitOr(z, x), y)
  {
    OrAssoc(x, y, z);
    OrCommute(y, z);
    OrAssoc(x, z, y);
    OrCommute(x, z);
  }

  // ---------------------------------------------------------------------
  // The colour-table index of TempQ16_ToRGB

  const Q16One: int := 65536
  const Q16Half: int := 32768

  /** The colour-table index for a temperature: tQ16 clamped to [0, 65536],
      idx = (t * 255 + 32768) >> 16 in 64 bits, clamped to [0, 255]. */
  function LutIndex(tQ16: i32): (idx: int)
    ensures 0 <= idx <= 255
    ensures tQ16 <= 0 ==> idx == 0
    ensures tQ16 >= Q16One ==> idx == 255
  {
    var t := if tQ16 < 0 then 0 else if tQ16 > Q16One then Q16One else tQ16;
    Clamp((t * 255 + Q16Half) / 65536, 0, 255)
  }

  /** The index is t * 255 / 65536 rounded to nearest, for t in range. */
  lemma LutIndexRounds(t: i32)
    requires 0 <= t <= Q16One
    ensures -32768 < LutIndex(t) * 65536 - t * 255 <= 32768
  {
    var a := t * 255 + Q16Half;
    DivBounds(a, 65536, 255);
    assert LutIndex(t) == a / 65536;
  }

  /** A hotter temperature never maps to a lower index. */
  lemma LutIndexMonotone(t: i32, u: i32)
    requires t <= u
    ensures LutIndex(t) <= LutIndex(u)
  {
    var tc := if t < 0 then 0 else if t > Q16One then Q16One else t;
    var uc := if u < 0 then 0 else if u > Q16One then Q16One else u;
    DivMonotone(tc * 255 + Q16Half, uc * 255 + Q16Half, 65536);
  }

  // ---------------------------------------------------------------------
  // Arithmetic helpers

  /** (b / 2) / p == b / (2 * p). */
  lemma HalveDiv(b: nat, p: nat)
    requires p >= 1
    ensures (b / 2) / p == b / (2 * p)
  {
    var q := (b / 2) / p;
    var r := (b / 2) % p;
    assert b == q * (2 * p) + (2 * r + b % 2);
    LemmaModUnique(b, 2 * p, q, 2 * r + b % 2);
  }

  lemma MulMonotone(x: int, y: int, d: int)
    requires x >= y && d >= 0
    ensures x * d >= y * d
  {
  }

  /** x * d < d with d positive forces x below 1. */
  lemma BelowOne(x: int, d: int)
    requires d > 0 && x * d < d
    ensures x < 1
  {
  }

  lemma DivBounds(a: int, d: int, hi: int)
    requires 0 <= a < (hi + 1) * d && d > 0
    ensures a / d <= hi
    ensures a / d * d <= a < a / d * d + d
  {
    var q := a / d;
    assert (q - hi) * d == q * d - hi * d;
    BelowOne(q - hi, d);
  }

  lemma DivMonotone(a: int, b: int, d: int)
    requires 0 <= a <= b && d > 0
    ensures a / d <= b / d
  {
    var qa, qb := a / d, b / d;
    assert (qa - qb) * d == qa * d - qb * d;
    BelowOne(qa - qb, d);
  }
}
