/** The polling virtio-gpu driver of metal/Heat2D_virt_gpu.cpp: device
    discovery over the 64 virtio-mmio slots of the QEMU virt machine, the
    UART number printers, the transport bring-up (status handshake, feature
    word, queue 0 in the legacy page-frame layout or the modern split-address
    layout, free list) and the GPU command scripts run over the queue.

    Register reads come from the environment (`Regs`), the device's
    completions and response types from `DeviceAnswer`s; the stores to the
    device's registers are the driver's `mmio` trace, the stores into the
    ring memory its queue's `log`. A `while(1){}` halt is a `Halted`
    outcome. */
module VirtGpuDriver {
  import opened Bits
  import opened Numerals
  import opened Pixels
  import opened VringLayout
  import opened Virtqueue
  import opened Mmio
  import GpuProto
  import MatrixKernel

  // ---------------------------------------------------------------------
  // Discovery

  /** virtio-mmio slots on virt: 0x0a000000 + n * 0x200, n < 64. */
  const MmioBase: int := 0x0A00_0000
  const MmioStride: int := 0x200
  const MmioSlots: int := 64

  function SlotBase(i: int): (b: int) {
    MmioBase + i * MmioStride
  }

  /** Slot i holds a virtio device (magic "virt") with device id `want`. */
  predicate SlotMatches(regs: Regs, i: int, want: u32) {
    regs(SlotBase(i) + RegMagic) == MagicValue && regs(SlotBase(i) + RegDeviceId) == want
  }

  /** The first slot from `from` on that holds the device, MmioSlots when
      none does. */
  function FirstMatch(regs: Regs, want: u32, from: nat): (k: nat)
    requires from <= MmioSlots
    ensures from <= k <= MmioSlots
    ensures k < MmioSlots ==> SlotMatches(regs, k, want)
    ensures forall j :: from <= j < k ==> !SlotMatches(regs, j, want)
    decreases MmioSlots - from
  {
    if from == MmioSlots then MmioSlots
    else if SlotMatches(regs, from, want) then from
    else FirstMatch(regs, want, from + 1)
  }

  /** The base address find_dev is meant to yield: that of the first
      matching slot, 0 when none matches. */
  function DevBase(regs: Regs, want: u32): int {
    var k := FirstMatch(regs, want, 0);
    if k < MmioSlots then SlotBase(k) else 0
  }

  /** DevBase is 0 exactly when no slot matches, and otherwise the base of
      the least matching slot. */
  lemma DevBaseFirst(regs: Regs, want: u32)
    ensures DevBase(regs, want) == 0 <==> forall i :: 0 <= i < MmioSlots ==> !SlotMatches(regs, i, want)
    ensures DevBase(regs, want) != 0 ==>
      exists i :: 0 <= i < MmioSlots && DevBase(regs, want) == SlotBase(i) && SlotMatches(regs, i, want) &&
                  forall j :: 0 <= j < i ==> !SlotMatches(regs, j, want)
  {
  }

  /** find_dev: the slots in order, skipping those without the magic value;
      it only reads. */
  method FindDev(regs: Regs, want: u32) returns (b: int)
    ensures b == DevBase(regs, want)
  {
    for i := 0 to MmioSlots
      invariant forall j :: 0 <= j < i ==> !SlotMatches(regs, j, want)
    {
      var base := MmioBase + i * MmioStride;
      if regs(base + RegMagic) != MagicValue {
        continue;
      }
      if regs(base + RegDeviceId) == want {
        assert SlotMatches(regs, i, want);
        FirstMatchIs(regs, want, i);
        return base;
      }
    }
    return 0;
  }

  /** A matching slot with no match before it is the first match. */
  lemma FirstMatchIs(regs: Regs, want: u32, i: nat)
    requires i < MmioSlots && SlotMatches(regs, i, want)
    requires forall j :: 0 <= j < i ==> !SlotMatches(regs, j, want)
    ensures FirstMatch(regs, want, 0) == i
  {
  }

  // ---------------------------------------------------------------------
  // UART number printers

  /** uart_put_u32: '0' for zero; otherwise the digits, least significant
      first, into an 11-byte buffer while v != 0 and i < 10, then emitted
      from the last one back. A u32 has at most 10 digits, so the bound
      on i never stops the loop early. */
  method PutU32(v: u32) returns (out: string)
    ensures out == Decimal(v)
    ensures Canonical(out) && DecimalValue(out) == v
  {
    DecimalRoundTrip(v);
    DecimalCanonical(v);
    if v == 0 {
      return ['0'];
    }
    var b := new char[11];
    var i := FillU32(v, b);
    out := MatrixKernel.EmitBuffer(b, i);
  }

  /** The fill loop of uart_put_u32: b[..i] holds the digits of v, least
      significant first. */
  method FillU32(v: u32, b: array<char>) returns (i: int)
    requires 0 < v && b.Length == 11
    modifies b
    ensures 0 <= i <= 10 && Rev(b[..i]) == Decimal(v)
  {
    U32Digits(v);
    i := 0;
    var x: nat := v;
    while x != 0 && i < 10
      invariant 0 <= i <= 10
      invariant Decimal(v) == Pending(x) + Rev(b[..i])
      invariant x > 0 ==> i + |Decimal(x)| == |Decimal(v)|
    {
      ghost var pre := b[..i];
      b[i] := DigitChar(x % 10);
      assert b[..i + 1] == pre + [b[i]];
      PeelStore(v, x, pre, b[i]);
      x := x / 10;
      i := i + 1;
    }
  }

  /** A u32 has at most 10 decimal digits. */
  lemma U32Digits(v: u32)
    ensures |Decimal(v)| <= 10
  {
    Pow10Facts();
    DigitsBound(v, 10);
  }

  /** `v >> n`. */
  function Shr(v: nat, n: nat): (r: nat) {
    if n == 0 then v else Shr(v, n - 1) / 2
  }

  /** Shifting four more bits drops one hexadecimal digit. */
  lemma ShrNibble(v: nat, k: nat)
    ensures Shr(v, k + 4) == Shr(v, k) / 16
  {
    var x := Shr(v, k);
    assert Shr(v, k + 2) == x / 2 / 2;
    assert Shr(v, k + 4) == Shr(v, k + 2) / 2 / 2;
    DivDiv(x, 2, 2);
    DivDiv(x / 4, 2, 2);
    DivDiv(x, 4, 4);
  }

  /** `h[(v >> (i*4)) & 0xF]`: the hexadecimal digit at nibble i. */
  function Nibble(v: u64, i: nat): (d: nat)
    ensures d == Shr(v, 4 * i) % 16
  {
    LowBits(Shr(v, 4 * i), 4);
    assert Pow2(4) == 16;
    BitAnd(Shr(v, 4 * i), 0xF)
  }

  /** uart_put_hex64: "0x", then all 16 nibbles, most significant first. */
  method PutHex64(v: u64) returns (out: string)
    ensures out == "0x" + HexFixed(v, 16)
    ensures HexStringValue(out[2..]) == v
  {
    var digits := [];
    var i := 15;
    while i >= 0
      invariant -1 <= i <= 15
      invariant digits == HexFixed(Shr(v, 4 * (i + 1)), 15 - i)
    {
      HexStep(v, i);
      digits := digits + [HexAlphabet[Nibble(v, i)]];
      i := i - 1;
    }
    out := "0x" + digits;
    Hex64RoundTrip(v);
    assert out[2..] == digits;
  }

  /** One iteration: the digits down to nibble i are those down to nibble
      i + 1, then nibble i. */
  lemma HexStep(v: u64, i: nat)
    requires i <= 15
    ensures HexFixed(Shr(v, 4 * i), 16 - i) == HexFixed(Shr(v, 4 * (i + 1)), 15 - i) + [HexAlphabet[Nibble(v, i)]]
  {
    ShrNibble(v, 4 * i);
  }

  /** Reading the 16 digits back gives v. */
  lemma Hex64RoundTrip(v: u64)
    ensures HexStringValue(HexFixed(v, 16)) == v
  {
    var n := 16;
    HexDigitsRoundTrip(v, n);
  }

  lemma HexDigitsRoundTrip(v: u64, n: nat)
    requires n == 16
    ensures HexStringValue(HexFixed(v, n)) == v
  {
    HexFixedRoundTrip(v, n);
    Pow16Of16(n);
    LemmaModUnique(v, Pow16(n), 0, v);
  }

  lemma Pow16Of16(n: nat)
    requires n == 16
    ensures Pow16(n) == TWO64
  {
    assert Pow16(4) == 0x1_0000;
    assert Pow16(8) == 0x1_0000 * Pow16(4);
    assert Pow16(12) == 0x1_0000 * Pow16(8);
    assert Pow16(16) == 0x1_0000 * Pow16(12);
  }

  // ---------------------------------------------------------------------
  // Transport bring-up, as a trace of register stores

  /** Everything virtio_gpu_init stores up to selecting queue 0: the
      handshake, feature word 0 (the only one a version 1 device may be
      given), the guest page size, FEATURES_OK, QUEUE_SEL 0. */
  function Negotiate(base: int): (w: seq<MmioWrite>) {
    Handshake(base) +
    [W(base, RegDriverFeatSel, 0), W(base, RegDriverFeat, 0), W(base, RegGuestPageSize, PGSZ)] +
    [W(base, RegStatus, 11), W(base, RegQueueSel, 0)]
  }

  /** The queue size, then either the three ring addresses of a modern
      device in set64 order and QUEUE_READY, or the alignment and page
      frame number of the ring memory of a legacy device. */
  function QueueSetup(base: int, ver: u32, areas: ModernAreas, vringMem: u64): (w: seq<MmioWrite>) {
    [W(base, RegQueueNum, Virtqueue.QSZ)] +
    if ver >= 2 then
      Set64(base, RegQueueDescLow, RegQueueDescHigh, areas.desc) +
      Set64(base, RegQueueAvailLow, RegQueueAvailHigh, areas.avail) +
      Set64(base, RegQueueUsedLow, RegQueueUsedHigh, areas.used) +
      [W(base, RegQueueReady, 1)]
    else
      [W(base, RegQueueAlign, PGSZ), W(base, RegQueuePfn, (vringMem / PGSZ) % TWO32)]
  }

  /** The stores of a bring-up that gets past the queue-size check. */
  function InitWrites(base: int, ver: u32, areas: ModernAreas, vringMem: u64): (w: seq<MmioWrite>) {
    Negotiate(base) + QueueSetup(base, ver, areas, vringMem) + [W(base, RegStatus, 15)]
  }

  /** Where ring_ptrs_from_base points the driver: into desc_v2 for a
      modern device, into vring_mem for a legacy one. */
  function DriverRings(ver: u32, areas: ModernAreas, vringMem: u64): (p: RingPtrs)
    ensures p.desc == (if ver >= 2 then areas.desc else vringMem)
  {
    if ver >= 2 then PtrsFromBase(areas.desc) else PtrsFromBase(vringMem)
  }

  /** The status goes 0, 1, 3, 11, 15: the handshake steps, each keeping
      the bits before it. */
  lemma InitStatuses(base: int, ver: u32, areas: ModernAreas, vringMem: u64)
    ensures StatusValues(InitWrites(base, ver, areas, vringMem), base) == StatusSteps()
    ensures Cumulative(StatusValues(InitWrites(base, ver, areas, vringMem), base))
  {
    var s := base + RegStatus;
    var qs := QueueSetup(base, ver, areas, vringMem);
    WritesToAppend(Negotiate(base) + qs, [W(base, RegStatus, 15)], s);
    WritesToAppend(Negotiate(base), qs, s);
    NegotiateStatuses(base);
    WritesToNone(qs, s);
    WritesToAll([W(base, RegStatus, 15)], s);
    StatusStepsValues();
  }

  /** Up to QUEUE_SEL the status goes 0, 1, 3, 11. */
  lemma NegotiateStatuses(base: int)
    ensures StatusValues(Negotiate(base), base) == [0, 1, 3, 11]
  {
    var s := base + RegStatus;
    var f := [W(base, RegDriverFeatSel, 0), W(base, RegDriverFeat, 0), W(base, RegGuestPageSize, PGSZ)];
    var t := [W(base, RegStatus, 11), W(base, RegQueueSel, 0)];
    WritesToAppend(Handshake(base) + f, t, s);
    WritesToAppend(Handshake(base), f, s);
    HandshakeStatuses(base);
    WritesToNone(f, s);
    WritesToOnly(t, s, 0);
  }

  /** DRIVER_OK is set by the last store only, after every queue register
      has been written. */
  lemma DriverOkLast(base: int, ver: u32, areas: ModernAreas, vringMem: u64)
    ensures var w := InitWrites(base, ver, areas, vringMem);
      w[|w| - 1] == W(base, RegStatus, 15) &&
      forall k :: 0 <= k < |w| - 1 && w[k].addr == base + RegStatus ==> !Within(DriverOk, w[k].value)
  {
    var w := InitWrites(base, ver, areas, vringMem);
    forall k | 0 <= k < |w| - 1 && w[k].addr == base + RegStatus
      ensures !Within(DriverOk, w[k].value)
    {
      assert w[k].value in {0, 1, 3, 11};
      assert BitAnd(4, 0) == 0 && BitAnd(4, 1) == 0 && BitAnd(4, 3) == 0 && BitAnd(4, 11) == 0;
    }
  }

  /** QUEUE_SEL 0, then QUEUE_NUM 16, and only then any ring address. */
  lemma QueueNumFirst(base: int, ver: u32, areas: ModernAreas, vringMem: u64)
    ensures var w := InitWrites(base, ver, areas, vringMem);
      |w| > 8 && w[7] == W(base, RegQueueSel, 0) && w[8] == W(base, RegQueueNum, Virtqueue.QSZ) &&
      forall k :: 0 <= k < |w| && AddressReg(base, w[k].addr) ==> k > 8
  {
  }

  /** A legacy device is given QUEUE_NUM 16, QUEUE_ALIGN 4096 and the page
      frame number of vring_mem, truncated to 32 bits; nothing goes to the
      modern address registers. When vring_mem is page aligned and its frame
      number fits in 32 bits, the rings the device derives from these values
      are exactly where the driver reads and writes them. */
  lemma LegacyRegistration(base: int, ver: u32, areas: ModernAreas, vringMem: u64)
    requires ver < 2
    ensures var w := InitWrites(base, ver, areas, vringMem);
      WritesTo(w, base + RegQueueNum) == [16] &&
      WritesTo(w, base + RegQueueAlign) == [PGSZ] &&
      WritesTo(w, base + RegQueuePfn) == [(vringMem / PGSZ) % TWO32] &&
      !Wrote(w, base + RegQueueReady) && !Wrote(w, base + RegQueueDescLow) &&
      !Wrote(w, base + RegQueueAvailLow) && !Wrote(w, base + RegQueueUsedLow)
  {
    var w := InitWrites(base, ver, areas, vringMem);
    OnlyInSetup(base, ver, areas, vringMem, base + RegQueueNum);
    OnlyInSetup(base, ver, areas, vringMem, base + RegQueueAlign);
    OnlyInSetup(base, ver, areas, vringMem, base + RegQueuePfn);
    OnlyInSetup(base, ver, areas, vringMem, base + RegQueueReady);
    OnlyInSetup(base, ver, areas, vringMem, base + RegQueueDescLow);
    OnlyInSetup(base, ver, areas, vringMem, base + RegQueueAvailLow);
    OnlyInSetup(base, ver, areas, vringMem, base + RegQueueUsedLow);
    var qs := QueueSetup(base, ver, areas, vringMem);
    WritesToOnly(qs, base + RegQueueNum, 0);
    WritesToOnly(qs, base + RegQueueAlign, 1);
    WritesToOnly(qs, base + RegQueuePfn, 2);
    WritesToNone(qs, base + RegQueueReady);
    WritesToNone(qs, base + RegQueueDescLow);
    WritesToNone(qs, base + RegQueueAvailLow);
    WritesToNone(qs, base + RegQueueUsedLow);
  }

  /** When vring_mem is page aligned and its frame number fits in 32 bits,
      the rings a legacy device derives from the values it was given are
      exactly where the driver reads and writes them. */
  lemma LegacyDeviceView(base: int, ver: u32, areas: ModernAreas, vringMem: u64)
    requires ver < 2 && vringMem % PGSZ == 0 && vringMem / PGSZ < TWO32
    ensures var w := InitWrites(base, ver, areas, vringMem);
      Wrote(w, base + RegQueuePfn) && Wrote(w, base + RegQueueNum) && Wrote(w, base + RegQueueAlign) &&
      LastWrite(w, base + RegQueueAlign) == PGSZ &&
      LegacyDeviceRings(LastWrite(w, base + RegQueuePfn), LastWrite(w, base + RegQueueNum),
                        LastWrite(w, base + RegQueueAlign)) == DriverRings(ver, areas, vringMem)
  {
    LegacyRegistration(base, ver, areas, vringMem);
    LegacyLayoutAgrees(vringMem);
    var pfn := vringMem / PGSZ;
    assert pfn % TWO32 == pfn;
  }

  /** A modern device is given QUEUE_NUM 16, the three area addresses,
      low word then high word, and QUEUE_READY 1; no page frame number. */
  lemma ModernRegistration(base: int, ver: u32, areas: ModernAreas, vringMem: u64)
    requires ver >= 2
    ensures var w := InitWrites(base, ver, areas, vringMem);
      WritesTo(w, base + RegQueueNum) == [16] &&
      WritesTo(w, base + RegQueueReady) == [1] &&
      !Wrote(w, base + RegQueuePfn) && !Wrote(w, base + RegQueueAlign) &&
      Wrote(w, base + RegQueueDescLow) && Wrote(w, base + RegQueueDescHigh) &&
      Wrote(w, base + RegQueueAvailLow) && Wrote(w, base + RegQueueAvailHigh) &&
      Wrote(w, base + RegQueueUsedLow) && Wrote(w, base + RegQueueUsedHigh) &&
      RegisteredAreas(w, base) == areas
  {
    var qs := QueueSetup(base, ver, areas, vringMem);
    OnlyInSetup(base, ver, areas, vringMem, base + RegQueueNum);
    OnlyInSetup(base, ver, areas, vringMem, base + RegQueueReady);
    OnlyInSetup(base, ver, areas, vringMem, base + RegQueuePfn);
    OnlyInSetup(base, ver, areas, vringMem, base + RegQueueAlign);
    OnlyInSetup(base, ver, areas, vringMem, base + RegQueueDescLow);
    OnlyInSetup(base, ver, areas, vringMem, base + RegQueueDescHigh);
    OnlyInSetup(base, ver, areas, vringMem, base + RegQueueAvailLow);
    OnlyInSetup(base, ver, areas, vringMem, base + RegQueueAvailHigh);
    OnlyInSetup(base, ver, areas, vringMem, base + RegQueueUsedLow);
    OnlyInSetup(base, ver, areas, vringMem, base + RegQueueUsedHigh);
    ModernSetup(base, ver, areas, vringMem);
  }

  /** The modern QueueSetup stores each register once. */
  lemma ModernSetup(base: int, ver: u32, areas: ModernAreas, vringMem: u64)
    requires ver >= 2
    ensures var qs := QueueSetup(base, ver, areas, vringMem);
      |qs| == 8 &&
      WritesTo(qs, base + RegQueueNum) == [16] &&
      WritesTo(qs, base + RegQueueReady) == [1] &&
      WritesTo(qs, base + RegQueuePfn) == [] && WritesTo(qs, base + RegQueueAlign) == [] &&
      WritesTo(qs, base + RegQueueDescLow) == [qs[1].value] && WritesTo(qs, base + RegQueueDescHigh) == [qs[2].value] &&
      WritesTo(qs, base + RegQueueAvailLow) == [qs[3].value] && WritesTo(qs, base + RegQueueAvailHigh) == [qs[4].value] &&
      WritesTo(qs, base + RegQueueUsedLow) == [qs[5].value] && WritesTo(qs, base + RegQueueUsedHigh) == [qs[6].value] &&
      qs[1].value + qs[2].value * TWO32 == areas.desc &&
      qs[3].value + qs[4].value * TWO32 == areas.avail &&
      qs[5].value + qs[6].value * TWO32 == areas.used
  {
    var qs := QueueSetup(base, ver, areas, vringMem);
    ModernSetupControl(base, ver, areas, vringMem);
    ModernSetupAddrs(base, ver, areas, vringMem);
  }

  lemma ModernSetupControl(base: int, ver: u32, areas: ModernAreas, vringMem: u64)
    requires ver >= 2
    ensures var qs := QueueSetup(base, ver, areas, vringMem);
      |qs| == 8 &&
      WritesTo(qs, base + RegQueueNum) == [16] &&
      WritesTo(qs, base + RegQueueReady) == [1] &&
      WritesTo(qs, base + RegQueuePfn) == [] && WritesTo(qs, base + RegQueueAlign) == []
  {
    var qs := QueueSetup(base, ver, areas, vringMem);
    WritesToOnly(qs, base + RegQueueNum, 0);
    WritesToOnly(qs, base + RegQueueReady, 7);
    WritesToNone(qs, base + RegQueuePfn);
    WritesToNone(qs, base + RegQueueAlign);
  }

  lemma ModernSetupAddrs(base: int, ver: u32, areas: ModernAreas, vringMem: u64)
    requires ver >= 2
    ensures var qs := QueueSetup(base, ver, areas, vringMem);
      |qs| == 8 &&
      WritesTo(qs, base + RegQueueDescLow) == [qs[1].value] && WritesTo(qs, base + RegQueueDescHigh) == [qs[2].value] &&
      WritesTo(qs, base + RegQueueAvailLow) == [qs[3].value] && WritesTo(qs, base + RegQueueAvailHigh) == [qs[4].value] &&
      WritesTo(qs, base + RegQueueUsedLow) == [qs[5].value] && WritesTo(qs, base + RegQueueUsedHigh) == [qs[6].value] &&
      qs[1].value + qs[2].value * TWO32 == areas.desc &&
      qs[3].value + qs[4].value * TWO32 == areas.avail &&
      qs[5].value + qs[6].value * TWO32 == areas.used
  {
    var qs := QueueSetup(base, ver, areas, vringMem);
    WritesToOnly(qs, base + RegQueueDescLow, 1);
    WritesToOnly(qs, base + RegQueueDescHigh, 2);
    WritesToOnly(qs, base + RegQueueAvailLow, 3);
    WritesToOnly(qs, base + RegQueueAvailHigh, 4);
    WritesToOnly(qs, base + RegQueueUsedLow, 5);
    WritesToOnly(qs, base + RegQueueUsedHigh, 6);
  }

  /** A queue register is stored to only by QueueSetup. */
  lemma OnlyInSetup(base: int, ver: u32, areas: ModernAreas, vringMem: u64, a: int)
    requires QueueReg(base, a)
    ensures WritesTo(InitWrites(base, ver, areas, vringMem), a) == WritesTo(QueueSetup(base, ver, areas, vringMem), a)
  {
    var qs := QueueSetup(base, ver, areas, vringMem);
    WritesToAppend(Negotiate(base) + qs, [W(base, RegStatus, 15)], a);
    WritesToAppend(Negotiate(base), qs, a);
    WritesToNone(Negotiate(base), a);
    WritesToNone([W(base, RegStatus, 15)], a);
  }

  /** As written, the modern branch points the driver's avail ring at
      desc_v2 + 256 while the device was told avail_v2_mem: for page-aligned
      areas the two never coincide. */
  lemma ModernAvailAsWritten(base: int, ver: u32, areas: ModernAreas, vringMem: u64)
    requires ver >= 2 && PageAligned(areas)
    ensures var w := InitWrites(base, ver, areas, vringMem);
      Wrote(w, base + RegQueueAvailLow) && Wrote(w, base + RegQueueAvailHigh) &&
      Reg64(w, base, RegQueueAvailLow, RegQueueAvailHigh) == areas.avail &&
      DriverRings(ver, areas, vringMem).availFlags != areas.avail
  {
    ModernRegistration(base, ver, areas, vringMem);
    ModernAvailMisplaced(areas);
  }

  /** The evidently intended pointers: each ring where it was registered. */
  function DriverRingsFixed(ver: u32, areas: ModernAreas, vringMem: u64): (p: RingPtrs) {
    if ver >= 2 then ModernPtrs(areas) else PtrsFromBase(vringMem)
  }

  /** With the corrected pointers a modern device reads each ring where the
      driver writes it. */
  lemma ModernRingsFixed(base: int, ver: u32, areas: ModernAreas, vringMem: u64)
    requires ver >= 2
    ensures var w := InitWrites(base, ver, areas, vringMem);
      Wrote(w, base + RegQueueDescLow) && Wrote(w, base + RegQueueDescHigh) &&
      Wrote(w, base + RegQueueAvailLow) && Wrote(w, base + RegQueueAvailHigh) &&
      Wrote(w, base + RegQueueUsedLow) && Wrote(w, base + RegQueueUsedHigh) &&
      var m := RegisteredAreas(w, base); var p := DriverRingsFixed(ver, areas, vringMem);
      p.desc == m.desc && p.availFlags == m.avail && p.usedFlags == m.used &&
      p.availIdx == m.avail + 2 && p.usedIdx == m.used + 2
  {
    ModernRegistration(base, ver, areas, vringMem);
    ModernPtrsRegistered(areas);
  }

  // ---------------------------------------------------------------------
  // The driver

  /** The driver's globals: the queue, dev_base, mmio_ver, the ring
      pointers, and the register stores made so far. */
  class Driver {
    const q: Queue
    var devBase: int
    var mmioVer: u32
    var ptrs: RingPtrs
    var mmio: seq<MmioWrite>

    constructor (q: Queue)
      ensures this.q == q && devBase == 0 && mmioVer == 0 && mmio == []
      ensures ptrs == RingPtrs(0, 0, 0, 0, 0, 0, 0)
    {
      this.q := q;
      devBase := 0;
      mmioVer := 0;
      ptrs := RingPtrs(0, 0, 0, 0, 0, 0, 0);
      mmio := [];
    }

    /** mmio_w32(dev_base + reg, v). */
    method Store(reg: int, v: u32)
      modifies this`mmio
      ensures mmio == old(mmio) + [W(devBase, reg, v)]
    {
      mmio := mmio + [W(devBase, reg, v)];
    }

    /** The set64 lambda. */
    method Store64(lo: int, hi: int, v: u64)
      modifies this`mmio
      ensures mmio == old(mmio) + Set64(devBase, lo, hi, v)
    {
      var words := Set64Words(v);
      Store(lo, words.0);
      Store(hi, words.1);
    }

    /** The stores up to QUEUE_SEL 0. */
    method Negotiation()
      modifies this`mmio
      ensures mmio == old(mmio) + Negotiate(devBase)
    {
      Store(RegStatus, 0);
      Store(RegStatus, Acknowledge);
      Store(RegStatus, 3);
      Store(RegDriverFeatSel, 0);
      Store(RegDriverFeat, 0);
      Store(RegGuestPageSize, PGSZ);
      Store(RegStatus, 11);
      Store(RegQueueSel, 0);
    }

    /** QUEUE_NUM and the ring registration for the device's version. */
    method SetupQueue(vringMem: u64, areas: ModernAreas)
      modifies this`mmio, this`ptrs
      ensures mmio == old(mmio) + QueueSetup(devBase, mmioVer, areas, vringMem)
      ensures ptrs == DriverRings(mmioVer, areas, vringMem)
    {
      Store(RegQueueNum, Virtqueue.QSZ);
      ghost var m1 := mmio;
      if mmioVer >= 2 {
        ptrs := PtrsFromBase(areas.desc);
        Store64(RegQueueDescLow, RegQueueDescHigh, areas.desc);
        Store64(RegQueueAvailLow, RegQueueAvailHigh, areas.avail);
        Store64(RegQueueUsedLow, RegQueueUsedHigh, areas.used);
        Store(RegQueueReady, 1);
      } else {
        ptrs := PtrsFromBase(vringMem);
        Store(RegQueueAlign, PGSZ);
        Store(RegQueuePfn, (vringMem / PGSZ) % TWO32);
      }
    }

    /** virtio_gpu_init: find the GPU, negotiate, set up queue 0, set
        DRIVER_OK, then run the bring-up script (virtio_gpu_init's four
        submit_out_in / expect pairs). vringMem is the address of vring_mem,
        areas those of desc_v2, avail_v2_mem and used_v2_mem, st those of
        the command and response buffers. */
    method Init(regs: Regs, vringMem: u64, areas: ModernAreas, st: GpuProto.Statics,
                answers: seq<DeviceAnswer>) returns (r: Outcome<()>)
      requires q.desc.Length == Virtqueue.QSZ && q.availRing.Length == Virtqueue.QSZ && |answers| == 4
      modifies this, q, q.desc, q.availRing
      ensures devBase == DevBase(regs, GpuDeviceId)
      ensures devBase == 0 ==> r == Halted(NoDevice) && mmio == old(mmio)
      ensures devBase != 0 ==> mmioVer == regs(devBase + RegVersion)
      ensures devBase != 0 && regs(devBase + RegQueueNumMax) < Virtqueue.QSZ ==>
        r == Halted(QueueTooSmall) && mmio == old(mmio) + Negotiate(devBase)
      ensures devBase != 0 && regs(devBase + RegQueueNumMax) >= Virtqueue.QSZ ==>
        mmio == old(mmio) + InitWrites(devBase, mmioVer, areas, vringMem) &&
        ptrs == DriverRings(mmioVer, areas, vringMem) &&
        r == GpuProto.ScriptOutcome(GpuProto.BringUp(VirtGpu, st), answers, 0, Virtqueue.QSZ)
      ensures r.Ok? ==> q.Valid() && multiset(q.free) == multiset(Virtqueue.AllDescs)
      ensures r.Ok? ==> q.usedLast == 4 && q.availIdx == 4
    {
      var b := FindDev(regs, GpuDeviceId);
      devBase := b;
      if b == 0 {
        r := Halted(NoDevice);
      } else {
        r := Start(regs, vringMem, areas, st, answers);
      }
    }

    /** The part of virtio_gpu_init after find_dev succeeded at devBase. */
    method Start(regs: Regs, vringMem: u64, areas: ModernAreas, st: GpuProto.Statics,
                 answers: seq<DeviceAnswer>) returns (r: Outcome<()>)
      requires q.desc.Length == Virtqueue.QSZ && q.availRing.Length == Virtqueue.QSZ && |answers| == 4
      modifies this`mmio, this`mmioVer, this`ptrs, q, q.desc, q.availRing
      ensures mmioVer == regs(devBase + RegVersion)
      ensures regs(devBase + RegQueueNumMax) < Virtqueue.QSZ ==>
        r == Halted(QueueTooSmall) && mmio == old(mmio) + Negotiate(devBase)
      ensures regs(devBase + RegQueueNumMax) >= Virtqueue.QSZ ==>
        mmio == old(mmio) + InitWrites(devBase, mmioVer, areas, vringMem) &&
        ptrs == DriverRings(mmioVer, areas, vringMem) &&
        r == GpuProto.ScriptOutcome(GpuProto.BringUp(VirtGpu, st), answers, 0, Virtqueue.QSZ)
      ensures r.Ok? ==> q.Valid() && multiset(q.free) == multiset(Virtqueue.AllDescs)
      ensures r.Ok? ==> q.usedLast == 4 && q.availIdx == 4
    {
      mmioVer := regs(devBase + RegVersion);
      var ok := Transport(regs, vringMem, areas);
      if !ok {
        return Halted(QueueTooSmall);
      }
      r := GpuProto.SendAll(q, VirtGpu, 0, GpuProto.BringUp(VirtGpu, st), answers);
    }

    /** From the status reset to DRIVER_OK: feature negotiation, queue 0
        and the free list; false when the device's queue is too small. */
    method Transport(regs: Regs, vringMem: u64, areas: ModernAreas) returns (ok: bool)
      requires q.desc.Length == Virtqueue.QSZ && q.availRing.Length == Virtqueue.QSZ
      modifies this`mmio, this`ptrs, q.desc, q`freeHead, q`free, q`availFlags, q`availIdx
      modifies q`usedFlags, q`usedIdx, q`usedLast
      ensures ok <==> regs(devBase + RegQueueNumMax) >= Virtqueue.QSZ
      ensures !ok ==> mmio == old(mmio) + Negotiate(devBase)
      ensures ok ==> mmio == old(mmio) + InitWrites(devBase, mmioVer, areas, vringMem)
      ensures ok ==> ptrs == DriverRings(mmioVer, areas, vringMem)
      ensures ok ==> q.Valid() && q.free == Virtqueue.AllDescs && q.usedLast == 0 && q.availIdx == 0
    {
      ghost var m0 := mmio;
      Negotiation();
      var qmax := regs(devBase + RegQueueNumMax);
      if qmax < Virtqueue.QSZ {
        return false;
      }
      SetupQueue(vringMem, areas);
      q.InitFreeList(false);
      Store(RegStatus, 15);
      assert mmio == m0 + InitWrites(devBase, mmioVer, areas, vringMem);
      ok := true;
    }

    /** gpu_present: TRANSFER_TO_HOST_2D then RESOURCE_FLUSH. */
    method Present(st: GpuProto.Statics, answers: seq<DeviceAnswer>) returns (r: Outcome<()>)
      requires q.Valid() && |answers| == 2
      modifies q, q.desc, q.availRing
      ensures q.Valid()
      ensures r == GpuProto.ScriptOutcome(GpuProto.Present(st), answers, old(q.usedLast), |old(q.free)|)
      ensures r.Ok? ==> multiset(q.free) == multiset(old(q.free))
      ensures r.Ok? ==> q.usedLast == GpuProto.UsedAt(old(q.usedLast), 2)
    {
      r := GpuProto.SendAll(q, VirtGpu, 0, GpuProto.Present(st), answers);
    }
  }
}
