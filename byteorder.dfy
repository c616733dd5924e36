/** Byte order (metal/Heat2D_ramfb.cpp, lines 17-26). The CPU is little-endian
    AArch64, so an integer occupies memory least significant byte first;
    bswap reverses the bytes of its operand and cpu_to_be/be_to_cpu are both
    bswap. Values are natural numbers; a byte is a u8. */
module ByteOrder {
  import opened Bits
  import opened Numerals

  function Pow256(n: nat): (p: nat)
    ensures p >= 1
  {
    if n == 0 then 1 else 256 * Pow256(n - 1)
  }

  /** How a little-endian CPU stores the low n bytes of v. */
  function LeBytes(v: nat, n: nat): (bs: seq<u8>)
    ensures |bs| == n
  {
    if n == 0 then [] else [v % 256] + LeBytes(v / 256, n - 1)
  }

  /** The four bytes of a word, least significant first. */
  lemma LeBytesFour(v: nat)
    ensures LeBytes(v, 4) == [v % 256, (v / 256) % 256, (v / 256 / 256) % 256, (v / 256 / 256 / 256) % 256]
  {
    var v1 := v / 256;
    var v2 := v1 / 256;
    var v3 := v2 / 256;
    assert LeBytes(v3, 1) == [v3 % 256];
    assert LeBytes(v2, 2) == [v2 % 256] + LeBytes(v3, 1);
    assert LeBytes(v1, 3) == [v1 % 256] + LeBytes(v2, 2);
  }

  /** How a little-endian CPU loads an integer from the bytes bs. */
  function FromLe(bs: seq<u8>): nat
  {
    if bs == [] then 0 else bs[0] + 256 * FromLe(bs[1..])
  }

  /** The bytes of v most significant first: network (big-endian) order. */
  function BeBytes(v: nat, n: nat): (bs: seq<u8>)
    ensures |bs| == n
  {
    Rev(LeBytes(v, n))
  }

  function FromBe(bs: seq<u8>): nat
  {
    FromLe(Rev(bs))
  }

  lemma {:induction false} FromLeBound(bs: seq<u8>)
    ensures FromLe(bs) < Pow256(|bs|)
  {
    if bs != [] {
      FromLeBound(bs[1..]);
      var f := FromLe(bs[1..]);
      var p := Pow256(|bs| - 1);
      assert f <= p - 1;
      assert 256 * f <= 256 * (p - 1);
    }
  }

  /** Loading what was stored gives back v modulo 256^n. */
  lemma {:induction false} LeRoundTrip(v: nat, n: nat)
    ensures FromLe(LeBytes(v, n)) == v % Pow256(n)
  {
    if n > 0 {
      var bs := LeBytes(v, n);
      assert bs[1..] == LeBytes(v / 256, n - 1);
      LeRoundTrip(v / 256, n - 1);
      var p := Pow256(n - 1);
      ModOfQuotient(v, 256, p);
      assert p * 256 == Pow256(n);
      assert FromLe(bs) == v % 256 + 256 * ((v / 256) % p);
    }
  }

  /** Storing what was loaded gives back the bytes. */
  lemma {:induction false} LeOfFromLe(bs: seq<u8>)
    ensures LeBytes(FromLe(bs), |bs|) == bs
  {
    if bs != [] {
      var f := FromLe(bs[1..]);
      var v := FromLe(bs);
      assert v == f * 256 + bs[0];
      LemmaModUnique(v, 256, f, bs[0]);
      LeOfFromLe(bs[1..]);
      assert LeBytes(v, |bs|) == [bs[0]] + LeBytes(f, |bs| - 1);
    }
  }

  lemma BeRoundTrip(v: nat, n: nat)
    ensures FromBe(BeBytes(v, n)) == v % Pow256(n)
  {
    RevRev(LeBytes(v, n));
    LeRoundTrip(v, n);
  }

  lemma RevRev<T>(s: seq<T>)
    ensures Rev(Rev(s)) == s
  {
    assert forall k :: 0 <= k < |s| ==> Rev(Rev(s))[k] == s[k];
  }

  /** Reversal of the n low bytes of v. */
  function Bswap(v: nat, n: nat): (r: nat)
    ensures r < Pow256(n)
  {
    FromLeBound(Rev(LeBytes(v, n)));
    FromLe(Rev(LeBytes(v, n)))
  }

  /** The bytes of bswap(v) in memory are the bytes of v in big-endian order. */
  lemma BswapStored(v: nat, n: nat)
    ensures LeBytes(Bswap(v, n), n) == BeBytes(v, n)
  {
    LeOfFromLe(Rev(LeBytes(v, n)));
  }

  /** bswap undoes itself. */
  lemma BswapInvolution(v: nat, n: nat)
    requires v < Pow256(n)
    ensures Bswap(Bswap(v, n), n) == v
  {
    var l := LeBytes(v, n);
    var w := Bswap(v, n);
    BswapStored(v, n);
    assert LeBytes(w, n) == Rev(l);
    RevRev(l);
    assert Bswap(w, n) == FromLe(l);
    LeRoundTrip(v, n);
    LemmaModUnique(v, Pow256(n), 0, v);
  }

  lemma Pow256Facts()
    ensures Pow256(2) == TWO16 && Pow256(4) == TWO32 && Pow256(8) == TWO64
  {
  }

  function Bswap16(v: u16): (r: u16)
    ensures LeBytes(r, 2) == BeBytes(v, 2)
  {
    Pow256Facts();
    BswapStored(v, 2);
    Bswap(v, 2)
  }

  function Bswap32(v: u32): (r: u32)
    ensures LeBytes(r, 4) == BeBytes(v, 4)
  {
    Pow256Facts();
    BswapStored(v, 4);
    Bswap(v, 4)
  }

  function Bswap64(v: u64): (r: u64)
    ensures LeBytes(r, 8) == BeBytes(v, 8)
  {
    Pow256Facts();
    BswapStored(v, 8);
    Bswap(v, 8)
  }

  function CpuToBe16(v: u16): u16 { Bswap16(v) }
  function CpuToBe32(v: u32): u32 { Bswap32(v) }
  function CpuToBe64(v: u64): u64 { Bswap64(v) }
  function Be16ToCpu(v: u16): u16 { Bswap16(v) }
  function Be32ToCpu(v: u32): u32 { Bswap32(v) }
  function Be64ToCpu(v: u64): u64 { Bswap64(v) }

  /** Every conversion pair undoes itself. */
  lemma BeConversionRoundTrips(a: u16, b: u32, c: u64)
    ensures Be16ToCpu(CpuToBe16(a)) == a && CpuToBe16(Be16ToCpu(a)) == a
    ensures Be32ToCpu(CpuToBe32(b)) == b && CpuToBe32(Be32ToCpu(b)) == b
    ensures Be64ToCpu(CpuToBe64(c)) == c && CpuToBe64(Be64ToCpu(c)) == c
  {
    Pow256Facts();
    BswapInvolution(a, 2);
    BswapInvolution(b, 4);
    BswapInvolution(c, 8);
  }
}
