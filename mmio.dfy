/** The virtio-over-MMIO register file as both bare-metal drivers use it
    (section 4.2.2 of the OASIS VIRTIO 1.1 standard; the register enums of
    metal/Heat2D_virt_gpu.cpp lines 26-40 and metal/Heat2D_virt.cpp lines
    46-77). A register read is a value supplied by the environment
    (`Regs`); the writes a driver makes are recorded in program order as a
    trace of `MmioWrite`s, and properties of a driver are properties of
    that trace. */
module Mmio {
  import opened Bits
  import opened Pixels
  import opened VringLayout

  const RegMagic: int := 0x000
  const RegVersion: int := 0x004
  const RegDeviceId: int := 0x008
  const RegDriverFeat: int := 0x020
  const RegDriverFeatSel: int := 0x024
  const RegGuestPageSize: int := 0x028
  const RegQueueSel: int := 0x030
  const RegQueueNumMax: int := 0x034
  const RegQueueNum: int := 0x038
  const RegQueueAlign: int := 0x03c
  const RegQueuePfn: int := 0x040
  const RegQueueReady: int := 0x044
  const RegQueueNotify: int := 0x050
  const RegStatus: int := 0x070
  const RegQueueDescLow: int := 0x080
  const RegQueueDescHigh: int := 0x084
  const RegQueueAvailLow: int := 0x090
  const RegQueueAvailHigh: int := 0x094
  const RegQueueUsedLow: int := 0x0a0
  const RegQueueUsedHigh: int := 0x0a4

  /** "virt", little-endian. */
  const MagicValue: u32 := 0x74726976
  /** The device id of a GPU. */
  const GpuDeviceId: u32 := 16

  /** The device-status bits (section 2.1 of VIRTIO 1.1). */
  const Acknowledge: u32 := 1
  const DriverBit: u32 := 2
  const DriverOk: u32 := 4
  const FeaturesOk: u32 := 8
  const Failed: u32 := 128

  /** What each register reads as. */
  type Regs = int -> u32

  /** One 32-bit store to a device register. */
  datatype MmioWrite = MmioWrite(addr: int, value: u32)

  /** The store of v to register `reg` of the device at base. */
  function W(base: int, reg: int, v: u32): (m: MmioWrite)
    ensures m.addr == base + reg && m.value == v
  {
    MmioWrite(base + reg, v)
  }

  /** The values stored to addr, in order. */
  function WritesTo(w: seq<MmioWrite>, addr: int): (vs: seq<u32>)
    ensures |vs| <= |w|
  {
    if w == [] then []
    else WritesTo(w[..|w| - 1], addr) + (if w[|w| - 1].addr == addr then [w[|w| - 1].value] else [])
  }

  /** Tracing one part of the stores after another. */
  lemma {:induction false} WritesToAppend(a: seq<MmioWrite>, b: seq<MmioWrite>, addr: int)
    ensures WritesTo(a + b, addr) == WritesTo(a, addr) + WritesTo(b, addr)
    decreases |b|
  {
    if b == [] {
      assert a + b == a;
    } else {
      var b' := b[..|b| - 1];
      assert (a + b)[..|a + b| - 1] == a + b';
      assert (a + b)[|a + b| - 1] == b[|b| - 1];
      WritesToAppend(a, b', addr);
    }
  }

  /** A trace that never touches addr. */
  lemma {:induction false} WritesToNone(w: seq<MmioWrite>, addr: int)
    requires forall k :: 0 <= k < |w| ==> w[k].addr != addr
    ensures WritesTo(w, addr) == []
    decreases |w|
  {
    if w != [] {
      WritesToNone(w[..|w| - 1], addr);
    }
  }

  /** A trace that touches addr at index i only. */
  lemma WritesToOnly(w: seq<MmioWrite>, addr: int, i: int)
    requires 0 <= i < |w| && w[i].addr == addr
    requires forall k :: 0 <= k < |w| && k != i ==> w[k].addr != addr
    ensures WritesTo(w, addr) == [w[i].value]
  {
    var a, x, b := w[..i], w[i], w[i + 1..];
    assert w == a + [x] + b;
    WritesToAppend(a + [x], b, addr);
    WritesToAppend(a, [x], addr);
    WritesToNone(a, addr);
    WritesToNone(b, addr);
    assert [x][..0] == [];
  }

  /** A trace every store of which goes to addr. */
  lemma {:induction false} WritesToAll(w: seq<MmioWrite>, addr: int)
    requires forall k :: 0 <= k < |w| ==> w[k].addr == addr
    ensures |WritesTo(w, addr)| == |w|
    ensures forall k :: 0 <= k < |w| ==> WritesTo(w, addr)[k] == w[k].value
    decreases |w|
  {
    if w != [] {
      WritesToAll(w[..|w| - 1], addr);
    }
  }

  /** A register that was stored to, and the value it was last given. */
  predicate Wrote(w: seq<MmioWrite>, addr: int) {
    WritesTo(w, addr) != []
  }

  function LastWrite(w: seq<MmioWrite>, addr: int): (v: u32)
    requires Wrote(w, addr)
  {
    var vs := WritesTo(w, addr);
    vs[|vs| - 1]
  }

  /** The status values a driver stores, in order. */
  function StatusValues(w: seq<MmioWrite>, base: int): (vs: seq<u32>) {
    WritesTo(w, base + RegStatus)
  }

  /** The handshake: a reset, then ACKNOWLEDGE, DRIVER, FEATURES_OK and
      DRIVER_OK added one at a time. */
  function StatusSteps(): (vs: seq<nat>)
    ensures |vs| == 5
  {
    var s1 := Acknowledge;
    var s2 := BitOr(s1, DriverBit);
    var s3 := BitOr(s2, FeaturesOk);
    [0, s1, s2, s3, BitOr(s3, DriverOk)]
  }

  /** Each status keeps every bit of the ones before it. */
  predicate Cumulative(vs: seq<nat>) {
    forall j, k :: 0 <= j < k < |vs| ==> Within(vs[j], vs[k])
  }

  /** The handshake writes 0, 1, 3, 11, 15, and never drops a bit; FAILED
      is never set. */
  lemma StatusStepsValues()
    ensures StatusSteps() == [0, 1, 3, 11, 15]
    ensures Cumulative(StatusSteps())
    ensures forall k :: 0 <= k < 5 ==> !Within(Failed, StatusSteps()[k])
  {
    var vs := StatusSteps();
    assert BitOr(1, 2) == 3 && BitOr(3, 8) == 11 && BitOr(11, 4) == 15;
    assert vs == [0, 1, 3, 11, 15];
    assert Within(1, 3) && Within(1, 11) && Within(1, 15);
    assert Within(3, 11) && Within(3, 15) && Within(11, 15);
    assert !Within(Failed, 1) && !Within(Failed, 3) && !Within(Failed, 11) && !Within(Failed, 15);
  }

  /** The reset, ACKNOWLEDGE, and ACKNOWLEDGE | DRIVER: the first three
      status stores of both drivers. */
  function Handshake(base: int): (w: seq<MmioWrite>) {
    [W(base, RegStatus, 0), W(base, RegStatus, Acknowledge), W(base, RegStatus, 3)]
  }

  lemma HandshakeStatuses(base: int)
    ensures StatusValues(Handshake(base), base) == [0, 1, 3]
  {
    WritesToAll(Handshake(base), base + RegStatus);
  }

  /** set64: the low word to `lo`, then the high word to `hi`. */
  function Set64(base: int, lo: int, hi: int, v: u64): (w: seq<MmioWrite>)
    ensures |w| == 2 && w[0].addr == base + lo && w[1].addr == base + hi
    ensures w[0].value + w[1].value * TWO32 == v
  {
    var words := Set64Words(v);
    [W(base, lo, words.0), W(base, hi, words.1)]
  }

  /** The 64-bit value a pair of address registers was last given. */
  function Reg64(w: seq<MmioWrite>, base: int, lo: int, hi: int): (v: u64)
    requires Wrote(w, base + lo) && Wrote(w, base + hi)
  {
    var l, h := LastWrite(w, base + lo), LastWrite(w, base + hi);
    assert h * TWO32 <= (TWO32 - 1) * TWO32;
    l + h * TWO32
  }

  /** The three areas a modern device was given, read back from the trace. */
  function RegisteredAreas(w: seq<MmioWrite>, base: int): (m: ModernAreas)
    requires Wrote(w, base + RegQueueDescLow) && Wrote(w, base + RegQueueDescHigh)
    requires Wrote(w, base + RegQueueAvailLow) && Wrote(w, base + RegQueueAvailHigh)
    requires Wrote(w, base + RegQueueUsedLow) && Wrote(w, base + RegQueueUsedHigh)
  {
    ModernAreas(Reg64(w, base, RegQueueDescLow, RegQueueDescHigh),
                Reg64(w, base, RegQueueAvailLow, RegQueueAvailHigh),
                Reg64(w, base, RegQueueUsedLow, RegQueueUsedHigh))
  }

  /** The device-control registers: everything but status and notify. */
  predicate QueueReg(base: int, a: int) {
    a == base + RegQueueNum || a == base + RegQueueAlign || a == base + RegQueuePfn ||
    a == base + RegQueueReady || AddressReg(base, a)
  }

  /** The registers that carry a ring address. */
  predicate AddressReg(base: int, a: int) {
    a == base + RegQueuePfn ||
    a == base + RegQueueDescLow || a == base + RegQueueDescHigh ||
    a == base + RegQueueAvailLow || a == base + RegQueueAvailHigh ||
    a == base + RegQueueUsedLow || a == base + RegQueueUsedHigh
  }
}
