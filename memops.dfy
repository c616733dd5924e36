/** The freestanding memcpy and memset of metal/Heat2D_ramfb.cpp (lines 28-38):
    byte loops over a destination buffer. A buffer is an array of bytes; the
    C requirement that both buffers hold at least n bytes is the
    precondition. */
module MemOps {
  import opened Bits

  /** memcpy: bytes 0..n-1 of dst become those of src; the rest of dst is
      untouched; dst is returned. */
  method Memcpy(dst: array<u8>, src: array<u8>, n: nat) returns (r: array<u8>)
    requires n <= dst.Length && n <= src.Length
    modifies dst
    ensures r == dst
    ensures dst[..n] == old(src[..n])
    ensures dst[n..] == old(dst[n..])
  {
    var i := 0;
    while i < n
      invariant 0 <= i <= n
      invariant dst[..i] == old(src[..i])
      invariant src[i..n] == old(src[i..n])
      invariant dst[i..] == old(dst[i..])
    {
      dst[i] := src[i];
      assert dst[..i + 1] == dst[..i] + [dst[i]];
      assert old(src[..i + 1]) == old(src[..i]) + [old(src[i])];
      i := i + 1;
    }
    r := dst;
  }

  /** memset: bytes 0..n-1 of dst become (uint8_t)c, which is c modulo 256;
      the rest of dst is untouched; dst is returned. */
  method Memset(dst: array<u8>, c: i32, n: nat) returns (r: array<u8>)
    requires n <= dst.Length
    modifies dst
    ensures r == dst
    ensures forall k :: 0 <= k < n ==> dst[k] == c % 256
    ensures dst[n..] == old(dst[n..])
  {
    var b: u8 := c % 256;
    var i := 0;
    while i < n
      invariant 0 <= i <= n
      invariant forall k :: 0 <= k < i ==> dst[k] == b
      invariant dst[i..] == old(dst[i..])
    {
      dst[i] := b;
      i := i + 1;
    }
    r := dst;
  }
}
