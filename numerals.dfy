/** Decimal and hexadecimal spellings of natural numbers: the specification
    against which the sources' digit printers (uart_put_u32, uart_put_hex64,
    uart_print_int, print_num) are proved. */
module Numerals {

  function Pow10(k: nat): (p: nat)
    ensures p >= 1
  {
    if k == 0 then 1 else 10 * Pow10(k - 1)
  }

  function Pow16(k: nat): (p: nat)
    ensures p >= 1
  {
    if k == 0 then 1 else 16 * Pow16(k - 1)
  }

  predicate IsDigit(c: char) { '0' <= c <= '9' }

  function DigitChar(d: nat): (c: char)
    requires d < 10
    ensures IsDigit(c) && c as int - '0' as int == d
  {
    ('0' as int + d) as char
  }

  function DigitValue(c: char): (d: nat)
    requires IsDigit(c)
    ensures d < 10 && DigitChar(d) == c
  {
    c as int - '0' as int
  }

  /** The decimal representation of n, most significant digit first;
      "0" for zero. */
  function Decimal(n: nat): (s: string)
    ensures |s| >= 1
    ensures forall k :: 0 <= k < |s| ==> IsDigit(s[k])
  {
    if n < 10 then [DigitChar(n)] else Decimal(n / 10) + [DigitChar(n % 10)]
  }

  /** The number a string of decimal digits denotes. */
  function DecimalValue(s: string): nat
    requires forall k :: 0 <= k < |s| ==> IsDigit(s[k])
  {
    if s == [] then 0 else DecimalValue(s[..|s| - 1]) * 10 + DigitValue(s[|s| - 1])
  }

  /** A canonical spelling: digits only, and no leading zero unless it is "0". */
  predicate Canonical(s: string) {
    |s| >= 1 && (forall k :: 0 <= k < |s| ==> IsDigit(s[k])) && (s[0] == '0' ==> |s| == 1)
  }

  lemma {:induction false} DecimalRoundTrip(n: nat)
    ensures DecimalValue(Decimal(n)) == n
  {
    if n >= 10 {
      var s := Decimal(n);
      assert s[..|s| - 1] == Decimal(n / 10);
      DecimalRoundTrip(n / 10);
    }
  }

  lemma {:induction false} DecimalCanonical(n: nat)
    ensures Canonical(Decimal(n))
    ensures n > 0 ==> Decimal(n)[0] != '0'
  {
    if n >= 10 {
      DecimalCanonical(n / 10);
      assert Decimal(n)[0] == Decimal(n / 10)[0];
    }
  }

  /** Every canonical digit string is the decimal spelling of its value:
      together with DecimalRoundTrip, Decimal is the unique canonical spelling. */
  lemma {:induction false} DecimalOfValue(s: string)
    requires Canonical(s)
    ensures Decimal(DecimalValue(s)) == s
  {
    if |s| == 1 {
      assert s[..0] == [];
    } else {
      var p := s[..|s| - 1];
      assert p[0] == s[0];
      assert Canonical(p);
      DecimalOfValue(p);
      var v := DecimalValue(p);
      PositiveValue(p);
      var n := DecimalValue(s);
      assert n == v * 10 + DigitValue(s[|s| - 1]);
      assert n / 10 == v && n % 10 == DigitValue(s[|s| - 1]);
      assert s == p + [s[|s| - 1]];
    }
  }

  lemma {:induction false} PositiveValue(s: string)
    requires Canonical(s) && s[0] != '0'
    ensures DecimalValue(s) > 0
  {
    if |s| > 1 {
      var p := s[..|s| - 1];
      assert p[0] == s[0];
      PositiveValue(p);
    }
  }

  /** n < 10^k exactly when its spelling has at most k digits. */
  lemma {:induction false} DecimalLength(n: nat, k: nat)
    requires 1 <= k
    ensures n < Pow10(k) <==> |Decimal(n)| <= k
  {
    if n >= 10 {
      if k == 1 {
        assert |Decimal(n)| >= 2 by { assert |Decimal(n)| == |Decimal(n / 10)| + 1; }
      } else {
        DecimalLength(n / 10, k - 1);
      }
    }
  }

  /** Spelling of n / 10 followed by the last digit: the step a printer that
      fills its buffer from the least significant end takes. */
  lemma DecimalStep(n: nat)
    requires n >= 10
    ensures Decimal(n) == Decimal(n / 10) + [DigitChar(n % 10)]
  {
  }

  /** The digits of m still to be produced by a printer that has already
      peeled off the low digits of a larger number: nothing once m is 0. */
  function Pending(m: nat): (s: string)
    ensures m > 0 ==> s == Decimal(m)
    ensures m == 0 ==> s == []
  {
    if m == 0 then [] else Decimal(m)
  }

  /** One step of a least-significant-first digit loop. */
  lemma PendingPeel(m: nat)
    requires m > 0
    ensures Pending(m) == Pending(m / 10) + [DigitChar(m % 10)]
  {
    if m >= 10 {
      DecimalStep(m);
    }
  }

  /** One step of a least-significant-first printer: with pre the digits
      stored so far and x what is left of the number, storing the digit of
      x % 10 and going on with x / 10 keeps the number's spelling split
      between the two. */
  lemma PeelStore(n: nat, x: nat, pre: string, c: char)
    requires x > 0 && Decimal(n) == Pending(x) + Rev(pre) && |pre| + |Decimal(x)| == |Decimal(n)|
    requires c == DigitChar(x % 10)
    ensures Decimal(n) == Pending(x / 10) + Rev(pre + [c])
    ensures x / 10 > 0 ==> |pre| + 1 + |Decimal(x / 10)| == |Decimal(n)|
  {
    PendingPeel(x);
    RevSnoc(pre, c);
    var p, r := Pending(x / 10), Rev(pre);
    AppendAssoc(p, [c], r);
    if x >= 10 {
      DecimalStep(x);
    }
  }

  lemma AppendAssoc<T>(a: seq<T>, b: seq<T>, c: seq<T>)
    ensures a + (b + c) == (a + b) + c
  {
  }

  /** s reversed. */
  function Rev<T>(s: seq<T>): (r: seq<T>)
    ensures |r| == |s|
    ensures forall k :: 0 <= k < |s| ==> r[k] == s[|s| - 1 - k]
  {
    if s == [] then [] else [s[|s| - 1]] + Rev(s[..|s| - 1])
  }

  lemma RevSnoc<T>(s: seq<T>, x: T)
    ensures Rev(s + [x]) == [x] + Rev(s)
  {
    assert (s + [x])[..|s|] == s;
  }

  /** A number below 10^k has at most k digits (one direction of DecimalLength,
      applied to the printers' buffer sizes). */
  lemma DigitsBound(n: nat, k: nat)
    requires 1 <= k && n < Pow10(k)
    ensures |Decimal(n)| <= k
  {
    DecimalLength(n, k);
  }

  lemma Pow10Facts()
    ensures Pow10(10) == 10_000_000_000
    ensures Pow10(19) == 10_000_000_000_000_000_000
    ensures Pow10(20) == 100_000_000_000_000_000_000
  {
  }

  const HexAlphabet: string := "0123456789abcdef"

  function HexChar(d: nat): (c: char)
    requires d < 16
    ensures c in HexAlphabet
  {
    HexAlphabet[d]
  }

  /** The value of a hexadecimal digit; a character outside the alphabet
      counts as 0. */
  function HexValue(c: char): (d: nat)
    ensures d < 16
    ensures c in HexAlphabet ==> HexChar(d) == c
  {
    if '0' <= c <= '9' then c as int - '0' as int
    else if 'a' <= c <= 'f' then c as int - 'a' as int + 10
    else 0
  }

  /** The last n hexadecimal digits of v (v mod 16^n), most significant first,
      zero-padded to exactly n characters. */
  function HexFixed(v: nat, n: nat): (s: string)
    ensures |s| == n
  {
    if n == 0 then [] else HexFixed(v / 16, n - 1) + [HexChar(v % 16)]
  }

  function HexStringValue(s: string): nat
  {
    if s == [] then 0 else HexStringValue(s[..|s| - 1]) * 16 + HexValue(s[|s| - 1])
  }

  lemma {:induction false} HexFixedChars(v: nat, n: nat)
    ensures forall k :: 0 <= k < n ==> HexFixed(v, n)[k] in HexAlphabet
  {
    if n > 0 {
      HexFixedChars(v / 16, n - 1);
      assert forall k :: 0 <= k < n - 1 ==> HexFixed(v, n)[k] == HexFixed(v / 16, n - 1)[k];
    }
  }

  /** Reading the n digits back gives v modulo 16^n. */
  lemma {:induction false} HexFixedRoundTrip(v: nat, n: nat)
    ensures HexStringValue(HexFixed(v, n)) == v % Pow16(n)
  {
    if n > 0 {
      var p := Pow16(n - 1);
      HexFixedRoundTrip(v / 16, n - 1);
      HexFixedLast(v, n);
      ModOfQuotient(v, 16, p);
      assert p * 16 == Pow16(n);
    }
  }

  lemma HexFixedLast(v: nat, n: nat)
    requires n > 0
    ensures HexStringValue(HexFixed(v, n)) == HexStringValue(HexFixed(v / 16, n - 1)) * 16 + v % 16
  {
    var s := HexFixed(v, n);
    assert s[..n - 1] == HexFixed(v / 16, n - 1);
    HexDigitValue(v % 16);
  }

  /** Each digit character reads back as its digit. */
  lemma HexDigitValue(d: nat)
    requires d < 16
    ensures HexValue(HexChar(d)) == d
  {
    assert HexAlphabet[d] == (if d < 10 then '0' as int + d else 'a' as int + d - 10) as char;
  }

  /** (v / b) % c * b + v % b == v % (b * c): one digit split off the bottom. */
  lemma ModOfQuotient(v: nat, b: nat, c: nat)
    requires b > 0 && c > 0
    ensures (v / b) % c * b + v % b == v % (c * b)
    ensures (v / b) / c == v / (c * b)
  {
    var q, r := v / b, v % b;
    var q2, r2 := q / c, q % c;
    Split(q2, c, r2, b);
    assert v == q2 * (b * c) + (r2 * b + r);
    LowBound(r2, c, b, r);
    assert b * c == c * b;
    LemmaModUnique(v, c * b, q2, r2 * b + r);
  }

  lemma LemmaModUnique(v: int, m: int, q: int, r: int)
    requires m > 0 && 0 <= r < m && v == q * m + r
    ensures v % m == r && v / m == q
  {
    var q0, r0 := v / m, v % m;
    assert (q - q0) * m == r0 - r;
    ZeroFactor(q - q0, m);
  }

  lemma ZeroFactor(d: int, m: int)
    requires m > 0 && -m < d * m < m
    ensures d == 0
  {
    if d > 0 {
      MulAtLeast(d, m);
    } else if d < 0 {
      MulAtLeast(-d, m);
    }
  }

  lemma MulAtLeast(x: int, m: int)
    requires x >= 1 && m > 0
    ensures x * m >= m
  {
  }

  /** (v / 16^k) / 16 == v / 16^(k+1), used by every digit loop. */
  lemma DivPow16(v: nat, k: nat)
    ensures v / Pow16(k) / 16 == v / Pow16(k + 1)
  {
    DivDiv(v, Pow16(k), 16);
  }

  lemma DivDiv(v: nat, a: nat, b: nat)
    requires a > 0 && b > 0
    ensures v / a / b == v / (a * b)
  {
    var q, r := v / a, v % a;
    var q2, r2 := q / b, q % b;
    Split(q2, b, r2, a);
    assert v == q2 * (a * b) + (r2 * a + r);
    LowBound(r2, b, a, r);
    LemmaModUnique(v, a * b, q2, r2 * a + r);
  }

  /** (q2 * b + r2) * a == q2 * (a * b) + r2 * a */
  lemma Split(q2: int, b: int, r2: int, a: int)
    ensures (q2 * b + r2) * a == q2 * (a * b) + r2 * a
  {
    Distrib(q2 * b, r2, a);
    assert q2 * b * a == q2 * (a * b);
  }

  /** r2 < b and r < a give r2 * a + r < a * b */
  lemma LowBound(r2: int, b: int, a: int, r: int)
    requires 0 <= r2 < b && 0 <= r < a
    ensures 0 <= r2 * a + r < a * b
  {
    assert r2 * a <= (b - 1) * a;
    Distrib(b, -1, a);
  }

  lemma Distrib(x: int, y: int, a: int)
    ensures (x + y) * a == x * a + y * a
  {
  }
}
