/** The fixed-slot virtio-gpu driver of metal/Heat2D_virt.cpp: the device
    at the first virtio-mmio slot of the QEMU virt machine, checked for the
    "virt" magic and transport version 2, a status handshake that offers
    no features in either feature word, queue 0 registered by its three
    area addresses (g_desc, g_avail, g_used), and the same GPU command
    scripts as the virtio-gpu build, sent through gpu_send.

    As in VirtGpuDriver, register reads are a `Regs` function, the register
    stores the driver's `mmio` trace, and a `while(1){}` halt a `Halted`
    outcome. */
module VirtDriver {
  import opened Bits
  import opened Pixels
  import opened VringLayout
  import opened Virtqueue
  import opened Mmio
  import GpuProto

  /** VIRTIO0: the first virtio-mmio slot on virt. */
  const Virtio0: int := 0x0A00_0000

  // ---------------------------------------------------------------------
  // The sanity checks

  /** The checks at the head of virtio_gpu_init_800x600: the magic, then
      the version; the device id is read but not checked. */
  function Admit(regs: Regs): (r: Outcome<()>)
    ensures r.Ok? <==> regs(Virtio0 + RegMagic) == MagicValue && regs(Virtio0 + RegVersion) >= 2
    ensures r == Halted(BadMagic) <==> regs(Virtio0 + RegMagic) != MagicValue
    ensures r == Halted(OldVersion) <==> regs(Virtio0 + RegMagic) == MagicValue && regs(Virtio0 + RegVersion) < 2
    ensures !r.Hung?
  {
    if regs(Virtio0 + RegMagic) != MagicValue then Halted(BadMagic)
    else if regs(Virtio0 + RegVersion) < 2 then Halted(OldVersion)
    else Ok(())
  }

  /** The register file with the register at addr reading v. */
  function SetReg(regs: Regs, addr: int, v: u32): (r: Regs)
    ensures r(addr) == v
    ensures forall a :: a != addr ==> r(a) == regs(a)
  {
    a => if a == addr then v else regs(a)
  }

  /** Whatever the DEVICE_ID register reads, the driver goes on the same
      way: a device that is not a GPU is not refused. */
  lemma DeviceIdIgnored(regs: Regs, v: u32)
    ensures Admit(SetReg(regs, Virtio0 + RegDeviceId, v)) == Admit(regs)
  {
    var r := SetReg(regs, Virtio0 + RegDeviceId, v);
    assert r(Virtio0 + RegMagic) == regs(Virtio0 + RegMagic);
    assert r(Virtio0 + RegVersion) == regs(Virtio0 + RegVersion);
  }

  // ---------------------------------------------------------------------
  // Transport bring-up, as a trace of register stores

  /** The handshake, both 32-bit feature words given 0, FEATURES_OK. */
  function Negotiate(base: int): (w: seq<MmioWrite>) {
    Handshake(base) +
    [W(base, RegDriverFeatSel, 0), W(base, RegDriverFeat, 0),
     W(base, RegDriverFeatSel, 1), W(base, RegDriverFeat, 0)] +
    [W(base, RegStatus, 11)]
  }

  /** virtio_queue_init past the size check: QUEUE_SEL, QUEUE_NUM 16, the
      three area addresses in set64 order, QUEUE_READY 1. */
  function QueueInitWrites(base: int, qsel: u32, areas: ModernAreas): (w: seq<MmioWrite>) {
    [W(base, RegQueueSel, qsel), W(base, RegQueueNum, Virtqueue.QSZ)] +
    Set64(base, RegQueueDescLow, RegQueueDescHigh, areas.desc) +
    Set64(base, RegQueueAvailLow, RegQueueAvailHigh, areas.avail) +
    Set64(base, RegQueueUsedLow, RegQueueUsedHigh, areas.used) +
    [W(base, RegQueueReady, 1)]
  }

  /** The stores of a bring-up that gets past every check. */
  function InitWrites(areas: ModernAreas): (w: seq<MmioWrite>) {
    Negotiate(Virtio0) + QueueInitWrites(Virtio0, 0, areas) + [W(Virtio0, RegStatus, 15)]
  }

  /** The status goes 0, 1, 3, 11, 15, each value keeping the bits of the
      ones before it. */
  lemma InitStatuses(areas: ModernAreas)
    ensures StatusValues(InitWrites(areas), Virtio0) == StatusSteps()
    ensures Cumulative(StatusValues(InitWrites(areas), Virtio0))
  {
    var b := Virtio0;
    var s := b + RegStatus;
    var qs := QueueInitWrites(b, 0, areas);
    WritesToAppend(Negotiate(b) + qs, [W(b, RegStatus, 15)], s);
    WritesToAppend(Negotiate(b), qs, s);
    NegotiateStatuses(b);
    WritesToNone(qs, s);
    WritesToAll([W(b, RegStatus, 15)], s);
    StatusStepsValues();
  }

  /** Up to FEATURES_OK the status goes 0, 1, 3, 11. */
  lemma NegotiateStatuses(b: int)
    ensures StatusValues(Negotiate(b), b) == [0, 1, 3, 11]
  {
    var s := b + RegStatus;
    var f := [W(b, RegDriverFeatSel, 0), W(b, RegDriverFeat, 0),
              W(b, RegDriverFeatSel, 1), W(b, RegDriverFeat, 0)];
    WritesToAppend(Handshake(b) + f, [W(b, RegStatus, 11)], s);
    WritesToAppend(Handshake(b), f, s);
    HandshakeStatuses(b);
    WritesToNone(f, s);
    WritesToAll([W(b, RegStatus, 11)], s);
  }

  /** Feature word 0 and then feature word 1 are selected, and each is
      given 0: the driver accepts no feature, VIRTIO_F_VERSION_1 included. */
  lemma NoFeatures(areas: ModernAreas)
    ensures WritesTo(InitWrites(areas), Virtio0 + RegDriverFeatSel) == [0, 1]
    ensures WritesTo(InitWrites(areas), Virtio0 + RegDriverFeat) == [0, 0]
  {
    var b := Virtio0;
    var f := [W(b, RegDriverFeatSel, 0), W(b, RegDriverFeat, 0),
              W(b, RegDriverFeatSel, 1), W(b, RegDriverFeat, 0)];
    var qs := QueueInitWrites(b, 0, areas);
    var tail := [W(b, RegStatus, 11)] + qs + [W(b, RegStatus, 15)];
    assert InitWrites(areas) == Handshake(b) + f + tail;
    FeatWords(b, f, tail, b + RegDriverFeatSel);
    FeatWords(b, f, tail, b + RegDriverFeat);
    FeatureStores(b);
  }

  /** The four feature stores select word 0, give it 0, select word 1,
      give it 0. */
  lemma FeatureStores(b: int)
    ensures var f := [W(b, RegDriverFeatSel, 0), W(b, RegDriverFeat, 0),
                      W(b, RegDriverFeatSel, 1), W(b, RegDriverFeat, 0)];
      WritesTo(f, b + RegDriverFeatSel) == [0, 1] && WritesTo(f, b + RegDriverFeat) == [0, 0]
  {
    var f1 := [W(b, RegDriverFeatSel, 0), W(b, RegDriverFeat, 0)];
    var f2 := [W(b, RegDriverFeatSel, 1), W(b, RegDriverFeat, 0)];
    assert f1 + f2 == [W(b, RegDriverFeatSel, 0), W(b, RegDriverFeat, 0),
                       W(b, RegDriverFeatSel, 1), W(b, RegDriverFeat, 0)];
    WritesToAppend(f1, f2, b + RegDriverFeatSel);
    WritesToAppend(f1, f2, b + RegDriverFeat);
    WritesToOnly(f1, b + RegDriverFeatSel, 0);
    WritesToOnly(f2, b + RegDriverFeatSel, 0);
    WritesToOnly(f1, b + RegDriverFeat, 1);
    WritesToOnly(f2, b + RegDriverFeat, 1);
  }

  /** A feature register is stored to only by the four feature stores. */
  lemma FeatWords(b: int, f: seq<MmioWrite>, tail: seq<MmioWrite>, a: int)
    requires a == b + RegDriverFeatSel || a == b + RegDriverFeat
    requires forall k :: 0 <= k < |tail| ==> tail[k].addr == b + RegStatus || QueueReg(b, tail[k].addr) ||
                                             tail[k].addr == b + RegQueueSel
    ensures WritesTo(Handshake(b) + f + tail, a) == WritesTo(f, a)
  {
    WritesToAppend(Handshake(b) + f, tail, a);
    WritesToAppend(Handshake(b), f, a);
    WritesToNone(Handshake(b), a);
    WritesToNone(tail, a);
  }

  /** Queue 0 is selected once, given 16 descriptors and made ready; the
      device reads back exactly the three areas, so it finds each ring
      where the driver keeps it; no legacy register (guest page size,
      alignment, page frame number) is touched. */
  lemma Registration(areas: ModernAreas)
    ensures var w := InitWrites(areas);
      WritesTo(w, Virtio0 + RegQueueSel) == [0] &&
      WritesTo(w, Virtio0 + RegQueueNum) == [16] &&
      WritesTo(w, Virtio0 + RegQueueReady) == [1] &&
      !Wrote(w, Virtio0 + RegGuestPageSize) && !Wrote(w, Virtio0 + RegQueuePfn) &&
      !Wrote(w, Virtio0 + RegQueueAlign) &&
      Wrote(w, Virtio0 + RegQueueDescLow) && Wrote(w, Virtio0 + RegQueueDescHigh) &&
      Wrote(w, Virtio0 + RegQueueAvailLow) && Wrote(w, Virtio0 + RegQueueAvailHigh) &&
      Wrote(w, Virtio0 + RegQueueUsedLow) && Wrote(w, Virtio0 + RegQueueUsedHigh) &&
      RegisteredAreas(w, Virtio0) == areas &&
      ModernPtrs(RegisteredAreas(w, Virtio0)) == ModernPtrs(areas)
  {
    var b := Virtio0;
    var qs := QueueInitWrites(b, 0, areas);
    OnlyInQueueInit(areas, b + RegQueueSel);
    OnlyInQueueInit(areas, b + RegQueueNum);
    OnlyInQueueInit(areas, b + RegQueueReady);
    OnlyInQueueInit(areas, b + RegGuestPageSize);
    OnlyInQueueInit(areas, b + RegQueuePfn);
    OnlyInQueueInit(areas, b + RegQueueAlign);
    OnlyInQueueInit(areas, b + RegQueueDescLow);
    OnlyInQueueInit(areas, b + RegQueueDescHigh);
    OnlyInQueueInit(areas, b + RegQueueAvailLow);
    OnlyInQueueInit(areas, b + RegQueueAvailHigh);
    OnlyInQueueInit(areas, b + RegQueueUsedLow);
    OnlyInQueueInit(areas, b + RegQueueUsedHigh);
    QueueInitControl(b, areas);
    QueueInitAddrs(b, areas);
  }

  /** The queue registers (and the guest page size) are stored to only by
      virtio_queue_init. */
  lemma OnlyInQueueInit(areas: ModernAreas, a: int)
    requires QueueReg(Virtio0, a) || a == Virtio0 + RegQueueSel || a == Virtio0 + RegGuestPageSize
    ensures WritesTo(InitWrites(areas), a) == WritesTo(QueueInitWrites(Virtio0, 0, areas), a)
  {
    var b := Virtio0;
    var qs := QueueInitWrites(b, 0, areas);
    WritesToAppend(Negotiate(b) + qs, [W(b, RegStatus, 15)], a);
    WritesToAppend(Negotiate(b), qs, a);
    WritesToNone(Negotiate(b), a);
    WritesToNone([W(b, RegStatus, 15)], a);
  }

  lemma QueueInitControl(b: int, areas: ModernAreas)
    ensures var qs := QueueInitWrites(b, 0, areas);
      |qs| == 9 &&
      WritesTo(qs, b + RegQueueSel) == [0] &&
      WritesTo(qs, b + RegQueueNum) == [16] &&
      WritesTo(qs, b + RegQueueReady) == [1] &&
      WritesTo(qs, b + RegGuestPageSize) == [] &&
      WritesTo(qs, b + RegQueuePfn) == [] && WritesTo(qs, b + RegQueueAlign) == []
  {
    var qs := QueueInitWrites(b, 0, areas);
    WritesToOnly(qs, b + RegQueueSel, 0);
    WritesToOnly(qs, b + RegQueueNum, 1);
    WritesToOnly(qs, b + RegQueueReady, 8);
    QueueInitNoLegacy(b, areas);
  }

  lemma QueueInitNoLegacy(b: int, areas: ModernAreas)
    ensures var qs := QueueInitWrites(b, 0, areas);
      WritesTo(qs, b + RegGuestPageSize) == [] &&
      WritesTo(qs, b + RegQueuePfn) == [] && WritesTo(qs, b + RegQueueAlign) == []
  {
    var qs := QueueInitWrites(b, 0, areas);
    WritesToNone(qs, b + RegGuestPageSize);
    WritesToNone(qs, b + RegQueuePfn);
    WritesToNone(qs, b + RegQueueAlign);
  }

  lemma QueueInitAddrs(b: int, areas: ModernAreas)
    ensures var qs := QueueInitWrites(b, 0, areas);
      |qs| == 9 &&
      WritesTo(qs, b + RegQueueDescLow) == [qs[2].value] && WritesTo(qs, b + RegQueueDescHigh) == [qs[3].value] &&
      WritesTo(qs, b + RegQueueAvailLow) == [qs[4].value] && WritesTo(qs, b + RegQueueAvailHigh) == [qs[5].value] &&
      WritesTo(qs, b + RegQueueUsedLow) == [qs[6].value] && WritesTo(qs, b + RegQueueUsedHigh) == [qs[7].value] &&
      qs[2].value + qs[3].value * TWO32 == areas.desc &&
      qs[4].value + qs[5].value * TWO32 == areas.avail &&
      qs[6].value + qs[7].value * TWO32 == areas.used
  {
    var qs := QueueInitWrites(b, 0, areas);
    WritesToOnly(qs, b + RegQueueDescLow, 2);
    WritesToOnly(qs, b + RegQueueDescHigh, 3);
    WritesToOnly(qs, b + RegQueueAvailLow, 4);
    WritesToOnly(qs, b + RegQueueAvailHigh, 5);
    WritesToOnly(qs, b + RegQueueUsedLow, 6);
    WritesToOnly(qs, b + RegQueueUsedHigh, 7);
  }

  /** QUEUE_NUM is set before any area address, QUEUE_READY after all of
      them, and DRIVER_OK only by the last store. */
  lemma QueueOrder(areas: ModernAreas)
    ensures var w := InitWrites(areas);
      |w| == 18 && w[9] == W(Virtio0, RegQueueNum, Virtqueue.QSZ) &&
      w[16] == W(Virtio0, RegQueueReady, 1) && w[17] == W(Virtio0, RegStatus, 15) &&
      forall k :: 0 <= k < |w| && AddressReg(Virtio0, w[k].addr) ==> 9 < k < 16
  {
  }

  /** DRIVER_OK is never set before the last store. */
  lemma DriverOkLast(areas: ModernAreas)
    ensures var w := InitWrites(areas);
      w[|w| - 1] == W(Virtio0, RegStatus, 15) &&
      forall k :: 0 <= k < |w| - 1 && w[k].addr == Virtio0 + RegStatus ==> !Within(DriverOk, w[k].value)
  {
    var w := InitWrites(areas);
    forall k | 0 <= k < |w| - 1 && w[k].addr == Virtio0 + RegStatus
      ensures !Within(DriverOk, w[k].value)
    {
      assert w[k].value in {0, 1, 3, 11};
      assert BitAnd(4, 0) == 0 && BitAnd(4, 1) == 0 && BitAnd(4, 3) == 0 && BitAnd(4, 11) == 0;
    }
  }

  // ---------------------------------------------------------------------
  // The driver

  /** The driver's globals: the queue (g_desc, g_avail, g_used and the
      free-list head) and the register stores made so far. */
  class Driver {
    const q: Queue
    var mmio: seq<MmioWrite>

    constructor (q: Queue)
      ensures this.q == q && mmio == []
    {
      this.q := q;
      mmio := [];
    }

    /** mmio_w32(base + reg, v). */
    method Store(base: int, reg: int, v: u32)
      modifies this`mmio
      ensures mmio == old(mmio) + [W(base, reg, v)]
    {
      mmio := mmio + [W(base, reg, v)];
    }

    /** The set64 lambda of virtio_queue_init. */
    method Store64(base: int, lo: int, hi: int, v: u64)
      modifies this`mmio
      ensures mmio == old(mmio) + Set64(base, lo, hi, v)
    {
      var words := Set64Words(v);
      Store(base, lo, words.0);
      Store(base, hi, words.1);
    }

    /** virtio_queue_init: select the queue, halt (false) when the device
        offers fewer than 16 entries, else register the three areas, set
        QUEUE_READY and build the free list over a cleared table. */
    method QueueInit(regs: Regs, base: int, qsel: u32, areas: ModernAreas) returns (ok: bool)
      requires q.desc.Length == Virtqueue.QSZ && q.availRing.Length == Virtqueue.QSZ
      modifies this`mmio, q.desc, q`freeHead, q`free, q`availFlags, q`availIdx
      modifies q`usedFlags, q`usedIdx, q`usedLast
      ensures ok <==> regs(base + RegQueueNumMax) >= Virtqueue.QSZ
      ensures !ok ==> mmio == old(mmio) + [W(base, RegQueueSel, qsel)]
      ensures ok ==> mmio == old(mmio) + QueueInitWrites(base, qsel, areas)
      ensures ok ==> q.Valid() && q.free == Virtqueue.AllDescs && q.freeHead == 0
      ensures ok ==> q.usedLast == 0 && q.availIdx == 0 && q.availFlags == 0 && q.usedIdx == 0 && q.usedFlags == 0
      ensures ok ==> forall i :: 0 <= i < Virtqueue.QSZ ==> q.desc[i].addr == 0 && q.desc[i].len == 0
    {
      Store(base, RegQueueSel, qsel);
      var max := regs(base + RegQueueNumMax);
      if max < Virtqueue.QSZ {
        return false;
      }
      Store(base, RegQueueNum, Virtqueue.QSZ);
      Store64(base, RegQueueDescLow, RegQueueDescHigh, areas.desc);
      Store64(base, RegQueueAvailLow, RegQueueAvailHigh, areas.avail);
      Store64(base, RegQueueUsedLow, RegQueueUsedHigh, areas.used);
      Store(base, RegQueueReady, 1);
      q.InitFreeList(true);
      ok := true;
    }

    /** virtio_gpu_init_800x600: the checks, the negotiation, queue 0,
        DRIVER_OK, then the four gpu_send calls of the bring-up. areas are
        the addresses of g_desc, g_avail and g_used, st those of the
        command and response buffers. */
    method Init(regs: Regs, areas: ModernAreas, st: GpuProto.Statics, answers: seq<DeviceAnswer>)
      returns (r: Outcome<()>)
      requires q.desc.Length == Virtqueue.QSZ && q.availRing.Length == Virtqueue.QSZ && |answers| == 4
      modifies this`mmio, q, q.desc, q.availRing
      ensures !Admit(regs).Ok? ==> r == Admit(regs) && mmio == old(mmio)
      ensures Admit(regs).Ok? && regs(Virtio0 + RegQueueNumMax) < Virtqueue.QSZ ==>
        r == Halted(QueueTooSmall) && mmio == old(mmio) + Negotiate(Virtio0) + [W(Virtio0, RegQueueSel, 0)]
      ensures Admit(regs).Ok? && regs(Virtio0 + RegQueueNumMax) >= Virtqueue.QSZ ==>
        mmio == old(mmio) + InitWrites(areas) &&
        r == GpuProto.ScriptOutcome(GpuProto.BringUp(Virt, st), answers, 0, Virtqueue.QSZ)
      ensures r.Ok? ==> q.Valid() && multiset(q.free) == multiset(Virtqueue.AllDescs)
      ensures r.Ok? ==> q.usedLast == 4 && q.availIdx == 4
    {
      var gate := Admit(regs);
      if !gate.Ok? {
        return gate;
      }
      var ok := Transport(regs, areas);
      if !ok {
        return Halted(QueueTooSmall);
      }
      r := GpuProto.SendAll(q, Virt, 0, GpuProto.BringUp(Virt, st), answers);
    }

    /** The reset, the handshake, both feature words, FEATURES_OK. */
    method Negotiation(b: int)
      modifies this`mmio
      ensures mmio == old(mmio) + Negotiate(b)
    {
      Store(b, RegStatus, 0);
      Store(b, RegStatus, Acknowledge);
      Store(b, RegStatus, 3);
      Store(b, RegDriverFeatSel, 0);
      Store(b, RegDriverFeat, 0);
      Store(b, RegDriverFeatSel, 1);
      Store(b, RegDriverFeat, 0);
      Store(b, RegStatus, 11);
    }

    /** From the status reset to DRIVER_OK; false when queue 0 is too
        small. */
    method Transport(regs: Regs, areas: ModernAreas) returns (ok: bool)
      requires q.desc.Length == Virtqueue.QSZ && q.availRing.Length == Virtqueue.QSZ
      modifies this`mmio, q.desc, q`freeHead, q`free, q`availFlags, q`availIdx
      modifies q`usedFlags, q`usedIdx, q`usedLast
      ensures ok <==> regs(Virtio0 + RegQueueNumMax) >= Virtqueue.QSZ
      ensures !ok ==> mmio == old(mmio) + Negotiate(Virtio0) + [W(Virtio0, RegQueueSel, 0)]
      ensures ok ==> mmio == old(mmio) + InitWrites(areas)
      ensures ok ==> q.Valid() && q.free == Virtqueue.AllDescs && q.usedLast == 0 && q.availIdx == 0
    {
      var b := Virtio0;
      Negotiation(b);
      ok := QueueInit(regs, b, 0, areas);
      if !ok {
        return;
      }
      Store(b, RegStatus, 15);
    }

    /** gpu_present_full: TRANSFER_TO_HOST_2D then RESOURCE_FLUSH. */
    method PresentFull(st: GpuProto.Statics, answers: seq<DeviceAnswer>) returns (r: Outcome<()>)
      requires q.Valid() && |answers| == 2
      modifies q, q.desc, q.availRing
      ensures q.Valid()
      ensures r == GpuProto.ScriptOutcome(GpuProto.Present(st), answers, old(q.usedLast), |old(q.free)|)
      ensures r.Ok? ==> multiset(q.free) == multiset(old(q.free))
      ensures r.Ok? ==> q.usedLast == GpuProto.UsedAt(old(q.usedLast), 2)
    {
      r := GpuProto.SendAll(q, Virt, 0, GpuProto.Present(st), answers);
    }
  }
}
