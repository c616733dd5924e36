/** The integer parts of the bare-metal matrix-multiplication kernel
    (matrix-mul/kernel.c): the linear congruential generator behind my_rand
    and the signed decimal printer uart_print_int. `unsigned long` and `long`
    are 64 bits wide on AArch64. */
module MatrixKernel {
  import opened Bits
  import opened Numerals

  const LcgMul: nat := 1103515245
  const LcgInc: nat := 12345

  /** The generator step, wrapping at 2^64. */
  function LcgNext(s: u64): u64
  {
    (s * LcgMul + LcgInc) % TWO64
  }

  /** What my_rand returns for the updated state: bits 16..47 taken as an
      `unsigned int`, then reduced modulo 32768. */
  function LcgOutput(t: u64): (r: int)
    ensures 0 <= r <= 32767
  {
    ((t / 65536) % TWO32) % 32768
  }

  /** The 32-bit truncation is immaterial: the value is bits 16..30 of the
      state. */
  lemma LcgOutputBits(t: u64)
    ensures LcgOutput(t) == (t / 65536) % 32768
  {
    var q := t / 65536;
    ModOfMod(q, 32768, 131072);
  }

  lemma ModOfMod(q: nat, a: nat, b: nat)
    requires a > 0 && b > 0
    ensures (q % (a * b)) % a == q % a
  {
    var h, r := q / (a * b), q % (a * b);
    assert q == h * (a * b) + r;
    assert h * (a * b) == (h * b) * a;
    LemmaModUnique(r, a, r / a, r % a);
    LemmaModUnique(q, a, h * b + r / a, r % a);
  }

  /** The global `next` of kernel.c, initially 1. */
  class Lcg {
    var next: u64

    constructor()
      ensures next == 1
    {
      next := 1;
    }

    /** my_rand: advance the state, then derive the result from the new
        state. */
    method Rand() returns (r: int)
      modifies this
      ensures next == LcgNext(old(next))
      ensures r == LcgOutput(next) && 0 <= r <= 32767
    {
      next := (next * LcgMul + LcgInc) % TWO64;
      r := ((next / 65536) % TWO32) % 32768;
    }
  }

  /** The text uart_print_int emits: a minus sign for negative values, then
      the decimal spelling of the magnitude. */
  function SignedDecimal(v: int): (s: string)
    ensures |s| >= 1
  {
    if v < 0 then "-" + Decimal(-v) else Decimal(v)
  }

  predicate SignedNumeral(s: string) {
    if |s| > 0 && s[0] == '-' then forall k :: 1 <= k < |s| ==> IsDigit(s[k])
    else forall k :: 0 <= k < |s| ==> IsDigit(s[k])
  }

  /** The value such a text denotes. */
  function SignedValue(s: string): int
    requires SignedNumeral(s)
  {
    if |s| > 0 && s[0] == '-' then 0 - DecimalValue(s[1..]) as int else DecimalValue(s)
  }

  /** Reading the printed text back recovers the value. */
  lemma SignedRoundTrip(v: int)
    ensures SignedNumeral(SignedDecimal(v))
    ensures SignedValue(SignedDecimal(v)) == v
  {
    if v < 0 {
      var s := SignedDecimal(v);
      assert s[1..] == Decimal(-v);
      DecimalRoundTrip(-v);
    } else {
      DecimalRoundTrip(v);
      assert Decimal(v)[0] != '-';
    }
  }

  /** uart_print_int. -LONG_MIN overflows in C, so LONG_MIN is excluded. */
  method PrintInt(val: i64) returns (out: string)
    requires val != -TWO63
    ensures out == SignedDecimal(val)
    ensures val == 0 ==> out == "0"
    ensures val < 0 ==> out[0] == '-' && out[1..] == Decimal(-val)
    ensures val > 0 ==> Canonical(out) && DecimalValue(out) == val
  {
    if val == 0 {
      out := "0";
      return;
    }
    var buffer := new char[20];
    out := [];
    var v: int := val;
    if val < 0 {
      out := ['-'];
      v := -val;
    }
    var i := FillBuffer(v, buffer);
    var digits := EmitBuffer(buffer, i);
    assert digits == Decimal(v);
    out := out + digits;
    if val < 0 {
      assert out[1..] == digits;
    } else {
      DecimalRoundTrip(v);
      DecimalCanonical(v);
    }
  }

  /** The fill loop: buffer[..i] holds the digits of v, least significant
      first; v < 2^63 < 10^19, so at most 19 of the 20 cells are used. */
  method FillBuffer(v: int, buffer: array<char>) returns (i: int)
    requires 0 < v < TWO63 && buffer.Length == 20
    modifies buffer
    ensures 0 <= i <= 19 && Rev(buffer[..i]) == Decimal(v)
  {
    I64Digits(v);
    i := 0;
    var x: nat := v;
    while x > 0
      invariant 0 <= i <= 19
      invariant Decimal(v) == Pending(x) + Rev(buffer[..i])
      invariant x > 0 ==> i + |Decimal(x)| == |Decimal(v)|
    {
      ghost var pre := buffer[..i];
      buffer[i] := DigitChar(x % 10);
      assert buffer[..i + 1] == pre + [buffer[i]];
      PeelStore(v, x, pre, buffer[i]);
      x := x / 10;
      i := i + 1;
    }
  }

  /** A positive int64 has at most 19 decimal digits. */
  lemma I64Digits(v: int)
    requires 0 < v < TWO63
    ensures |Decimal(v)| <= 19
  {
    Pow10Facts();
    DigitsBound(v, 19);
  }

  /** `while (--i >= 0) uart_putc(buffer[i]);` */
  method EmitBuffer(buffer: array<char>, n: int) returns (out: string)
    requires 0 <= n <= buffer.Length
    ensures out == Rev(buffer[..n])
  {
    var i := n;
    out := [];
    i := i - 1;
    while i >= 0
      invariant -1 <= i < n
      invariant out + Rev(buffer[..i + 1]) == Rev(buffer[..n])
    {
      assert buffer[..i + 1] == buffer[..i] + [buffer[i]];
      RevSnoc(buffer[..i], buffer[i]);
      out := out + [buffer[i]];
      i := i - 1;
    }
  }
}
