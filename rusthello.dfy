/** The bare-metal Rust hello world (hello.world/rust/src/main.rs): the UART
    string writer with its CR/LF rule and the u64 decimal printer. Each
    operation returns the bytes it hands to uart_putc, in order; a byte is
    modelled as a char. */
module RustHello {
  import opened Bits
  import opened Numerals

  const LF: char := '\n'
  const CR: char := '\r'

  /** What uart_puts emits for one input byte. */
  function Emit(b: char): (t: string)
    ensures b == LF ==> t == [CR, LF]
    ensures b != LF ==> t == [b]
  {
    if b == LF then [CR, LF] else [b]
  }

  /** The terminal translation: every byte in order, with '\r' inserted in
      front of each '\n'. */
  function CrLf(s: string): string
  {
    if s == [] then [] else CrLf(s[..|s| - 1]) + Emit(s[|s| - 1])
  }

  /** The inverse translation: a "\r\n" pair read back as "\n". */
  function Untranslate(t: string): string
  {
    if t == [] then []
    else if |t| >= 2 && t[|t| - 2] == CR && t[|t| - 1] == LF then Untranslate(t[..|t| - 2]) + [LF]
    else Untranslate(t[..|t| - 1]) + [t[|t| - 1]]
  }

  /** uart_puts: one pass over the bytes of s. */
  method Puts(s: string) returns (out: string)
    ensures out == CrLf(s)
  {
    out := [];
    var i := 0;
    while i < |s|
      invariant 0 <= i <= |s|
      invariant out == CrLf(s[..i])
    {
      var b := s[i];
      if b == LF {
        out := out + [CR];
      }
      out := out + [b];
      assert s[..i + 1][..i] == s[..i];
      i := i + 1;
    }
    assert s[..|s|] == s;
  }

  /** Nothing is lost or reordered: undoing the translation gives the input. */
  lemma {:induction false} CrLfRoundTrip(s: string)
    ensures Untranslate(CrLf(s)) == s
  {
    if s != [] {
      var p, b := s[..|s| - 1], s[|s| - 1];
      CrLfRoundTrip(p);
      var c := CrLf(p);
      var t := c + Emit(b);
      assert CrLf(s) == t;
      if b == LF {
        assert t[..|t| - 2] == c;
        assert Untranslate(t) == Untranslate(c) + [LF];
      } else {
        assert t[..|t| - 1] == c;
        assert Untranslate(t) == Untranslate(c) + [b];
      }
      assert s == p + [b];
    }
  }

  /** Every '\n' on the wire comes right after a '\r'. */
  lemma {:induction false} CrLfPrecedes(s: string)
    ensures forall k :: 0 <= k < |CrLf(s)| && CrLf(s)[k] == LF ==> k > 0 && CrLf(s)[k - 1] == CR
  {
    if s != [] {
      var p, b := s[..|s| - 1], s[|s| - 1];
      CrLfPrecedes(p);
      var t := CrLf(s);
      assert t == CrLf(p) + Emit(b);
      forall k | 0 <= k < |t| && t[k] == LF
        ensures k > 0 && t[k - 1] == CR
      {
        if k >= |CrLf(p)| {
          assert b == LF;
        } else {
          assert CrLf(p)[k] == LF;
        }
      }
    }
  }

  /** print_num: digits into a 20-byte buffer, least significant first, then
      emitted from the top of the buffer down. */
  method PrintNum(n: u64) returns (out: string)
    ensures out == Decimal(n)
    ensures Canonical(out) && DecimalValue(out) == n
    ensures |out| <= 20
  {
    DecimalRoundTrip(n);
    DecimalCanonical(n);
    if n == 0 {
      out := "0";
      return;
    }
    var buf := new char[20];
    var k := FillDigits(n, buf);
    out := EmitDigits(buf, k);
  }

  /** The first loop of print_num: buf[..k] holds the digits of n, least
      significant first. */
  method FillDigits(n: u64, buf: array<char>) returns (k: nat)
    requires n > 0 && buf.Length == 20
    modifies buf
    ensures k <= 20 && Rev(buf[..k]) == Decimal(n)
  {
    U64Digits(n);
    var i := 0;
    var m: nat := n;
    while m > 0
      invariant 0 <= i <= 20
      invariant Decimal(n) == Pending(m) + Rev(buf[..i])
      invariant m > 0 ==> i + |Decimal(m)| == |Decimal(n)|
    {
      ghost var pre := buf[..i];
      buf[i] := DigitChar(m % 10);
      assert buf[..i + 1] == pre + [buf[i]];
      PeelStore(n, m, pre, buf[i]);
      m := m / 10;
      i := i + 1;
    }
    k := i;
  }

  /** A u64 has at most 20 decimal digits. */
  lemma U64Digits(n: u64)
    ensures |Decimal(n)| <= 20
  {
    Pow10Facts();
    DigitsBound(n, 20);
  }

  /** The second loop of print_num: the buffer from index k - 1 down to 0. */
  method EmitDigits(buf: array<char>, k: nat) returns (out: string)
    requires k <= buf.Length
    ensures out == Rev(buf[..k])
  {
    var i := k;
    out := [];
    while i > 0
      invariant 0 <= i <= k
      invariant out + Rev(buf[..i]) == Rev(buf[..k])
    {
      i := i - 1;
      assert buf[..i + 1] == buf[..i] + [buf[i]];
      RevSnoc(buf[..i], buf[i]);
      out := out + [buf[i]];
    }
  }
}
