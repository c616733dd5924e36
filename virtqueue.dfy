/** The one split virtqueue both bare-metal virtio-gpu drivers use
    (metal/Heat2D_virt_gpu.cpp lines 104-175, metal/Heat2D_virt.cpp lines
    199-299): a 16-entry descriptor table whose unused entries form a free
    list threaded through `next` and ended by 0xffff, the avail ring the
    driver publishes into, and the used index it polls.

    The device is an environment: what it writes into used.idx while the
    driver spins, and the response type it writes into the in-buffer, are
    inputs (`DeviceAnswer`). The driver's memory writes that the device
    observes, the barriers between them and the doorbell write to
    QUEUE_NOTIFY are recorded, in program order, in `log`. */
module Virtqueue {
  import opened Bits
  import opened Numerals
  import opened Pixels

  const QSZ: int := 16
  /** Every descriptor index in order: the free list right after initialisation. */
  const AllDescs: seq<int> := seq(QSZ, i => i)
  /** The end-of-list sentinel of the free list. */
  const NoDesc: int := 0xffff
  /** VRING_DESC_F_NEXT and VRING_DESC_F_WRITE. */
  const FNext: int := 1
  const FWrite: int := 2

  /** struct vring_desc. */
  datatype Desc = Desc(addr: u64, len: u32, flags: u16, next: u16)

  /** The two drivers differ in small ways: which one is meant. */
  datatype Build =
    | VirtGpu   // metal/Heat2D_virt_gpu.cpp
    | Virt      // metal/Heat2D_virt.cpp

  /** Why a driver stopped in a `while(1){}` loop. */
  datatype Halt =
    | NoDevice
    | BadMagic
    | OldVersion
    | QueueTooSmall
    | OutOfDescriptors
    | BadResponse(got: u32, want: u32)

  /** The result of a step that may halt, or spin forever waiting for the
      device (`Hung`: the device never advanced used.idx in the polls the
      model was given). */
  datatype Outcome<T> = Ok(value: T) | Halted(why: Halt) | Hung

  /** What the device does during one submit: the successive values of
      used.idx the driver reads while it spins, and the `type` field it
      leaves in the response header. */
  datatype DeviceAnswer = DeviceAnswer(polls: seq<u16>, respType: u32)

  /** A write the device can observe, in program order. */
  datatype RingEvent =
    | DescWrite(index: int, d: Desc)
    | RingEntry(slot: int, head: u16)
    | AvailIdx(idx: u16)
    | Barrier
    | Doorbell(value: u32)

  // ---------------------------------------------------------------------
  // The free list, as a property of the descriptor table

  predicate Distinct(s: seq<int>) {
    forall j, k :: 0 <= j < k < |s| ==> s[j] != s[k]
  }

  /** `free` is the free list of table d starting at head: distinct slots,
      each with flags 0, each linked to the next, the last to 0xffff; and
      head is 0xffff exactly when the list is empty. */
  predicate FreeListShape(d: seq<Desc>, head: int, free: seq<int>) {
    |d| == QSZ && Distinct(free) &&
    (forall k :: 0 <= k < |free| ==> 0 <= free[k] < QSZ) &&
    head == (if free == [] then NoDesc else free[0]) &&
    (forall k {:trigger d[free[k]]} :: 0 <= k < |free| ==>
       d[free[k]].flags == 0 && d[free[k]].next == LinkAfter(free, k))
  }

  /** The `next` the k-th free slot must hold. */
  function LinkAfter(free: seq<int>, k: int): (n: int)
    requires 0 <= k < |free|
    ensures n == NoDesc || n in free
  {
    if k + 1 < |free| then free[k + 1] else NoDesc
  }

  /** alloc_desc's step: taking the head leaves the rest of the list, now
      headed by the head's `next`. */
  lemma FreeListPop(d: seq<Desc>, head: int, free: seq<int>)
    requires FreeListShape(d, head, free) && free != []
    ensures 0 <= head < QSZ && head == free[0]
    ensures FreeListShape(d, d[head].next, free[1..])
  {
    var rest := free[1..];
    assert d[free[0]].next == LinkAfter(free, 0);
    forall k | 0 <= k < |rest|
      ensures d[rest[k]].flags == 0 && d[rest[k]].next == LinkAfter(rest, k)
    {
      assert rest[k] == free[k + 1];
      assert d[free[k + 1]].next == LinkAfter(free, k + 1);
    }
    assert Distinct(rest);
  }

  /** free_chain's step: linking a slot that is not on the list in front of
      the head, with flags cleared, gives a list one longer. */
  lemma FreeListPush(d: seq<Desc>, head: int, free: seq<int>, cur: int)
    requires FreeListShape(d, head, free) && 0 <= cur < QSZ && cur !in free
    ensures 0 <= head < TWO16
    ensures FreeListShape(d[cur := d[cur].(next := head, flags := 0)], cur, [cur] + free)
  {
    var d' := d[cur := d[cur].(next := head, flags := 0)];
    var f' := [cur] + free;
    forall k | 0 <= k < |f'|
      ensures d'[f'[k]].flags == 0 && d'[f'[k]].next == LinkAfter(f', k)
    {
      if k == 0 {
        assert f'[0] == cur && d'[cur].flags == 0 && d'[cur].next == head;
      } else {
        var j := k - 1;
        assert f'[k] == free[j] && free[j] != cur;
        assert d'[free[j]] == d[free[j]];
        assert d[free[j]].next == LinkAfter(free, j);
      }
    }
    assert Distinct(f');
  }

  /** Writing a descriptor that is not on the free list leaves the list. */
  lemma FreeListFrame(d: seq<Desc>, head: int, free: seq<int>, i: int, v: Desc)
    requires FreeListShape(d, head, free) && 0 <= i < QSZ && i !in free
    ensures FreeListShape(d[i := v], head, free)
  {
    forall k | 0 <= k < |free|
      ensures d[i := v][free[k]] == d[free[k]]
    {
      assert free[k] != i;
    }
  }

  /** The elements of a reversed sequence are its elements. */
  lemma RevElems(s: seq<int>)
    ensures forall x :: x in Rev(s) <==> x in s
  {
    forall x | x in s
      ensures x in Rev(s)
    {
      var i :| 0 <= i < |s| && s[i] == x;
      assert Rev(s)[|s| - 1 - i] == x;
    }
  }

  /** The chain test of free_chain: `flags & VRING_DESC_F_NEXT`. */
  predicate HasNext(flags: u16) {
    BitAnd(flags, FNext) != 0
  }

  /** It is bit 0: a descriptor marked WRITE only ends its chain. */
  lemma HasNextIsLowBit(flags: u16)
    ensures HasNext(flags) <==> flags % 2 == 1
    ensures HasNext(FNext) && !HasNext(FWrite) && !HasNext(0)
  {
    assert BitAnd(flags / 2, 0) == 0;
  }

  /** A chain of descriptors, each but the last pointing at the next with
      NEXT set, the last without NEXT. */
  predicate IsChain(d: seq<Desc>, chain: seq<int>) {
    |d| == QSZ && |chain| >= 1 && Distinct(chain) &&
    (forall k :: 0 <= k < |chain| ==> 0 <= chain[k] < QSZ) &&
    (forall k {:trigger d[chain[k]]} :: 0 <= k < |chain| - 1 ==>
       HasNext(d[chain[k]].flags) && d[chain[k]].next == chain[k + 1]) &&
    !HasNext(d[chain[|chain| - 1]].flags)
  }

  // ---------------------------------------------------------------------
  // Waiting for the device

  /** The index of the first poll that differs from used_last, or |polls|
      when none does. */
  function FirstAdvance(polls: seq<u16>, last: u16): (k: nat)
    ensures k <= |polls|
    ensures forall j :: 0 <= j < k ==> polls[j] == last
    ensures k < |polls| ==> polls[k] != last
  {
    if polls == [] then 0
    else if polls[0] != last then 0
    else 1 + FirstAdvance(polls[1..], last)
  }

  /** Any index with those two properties is FirstAdvance. */
  lemma {:induction false} FirstAdvanceUnique(polls: seq<u16>, last: u16, k: nat)
    requires k <= |polls| && (forall j :: 0 <= j < k ==> polls[j] == last)
    requires k < |polls| ==> polls[k] != last
    ensures FirstAdvance(polls, last) == k
  {
    if polls != [] && polls[0] == last {
      var rest := polls[1..];
      assert forall j :: 0 <= j < k - 1 ==> rest[j] == polls[j + 1];
      FirstAdvanceUnique(rest, last, k - 1);
    }
  }

  // ---------------------------------------------------------------------
  // Publication order

  /** What submit_out_in makes visible between writing the chain and
      waiting: the ring entry, a barrier, the new avail index, and notify
      (a barrier, then the doorbell). metal/Heat2D_virt_gpu.cpp puts one
      more barrier after the index and always rings with 0;
      metal/Heat2D_virt.cpp rings with the queue number. */
  function Publication(b: Build, slot: int, head: u16, idx: u16, qsel: u32): (evs: seq<RingEvent>)
  {
    match b
    case VirtGpu => [RingEntry(slot, head), Barrier, AvailIdx(idx), Barrier, Barrier, Doorbell(0)]
    case Virt => [RingEntry(slot, head), Barrier, AvailIdx(idx), Barrier, Doorbell(qsel)]
  }

  /** The value written to QUEUE_NOTIFY. */
  function DoorbellValue(b: Build, qsel: u32): (v: u32)
    ensures b == VirtGpu ==> v == 0
  {
    if b == VirtGpu then 0 else qsel
  }

  /** e holds the ring entry, then the index, then the doorbell, with a
      barrier between the first two and another between the last two. */
  predicate PublishedInOrder(e: seq<RingEvent>, slot: int, head: u16, idx: u16, bell: u32) {
    exists i :: 0 <= i < |e| && e[i] == RingEntry(slot, head) && IndexThenBell(e, i, idx, bell)
  }

  predicate IndexThenBell(e: seq<RingEvent>, i: int, idx: u16, bell: u32) {
    exists j :: 0 <= i < j < |e| && e[j] == AvailIdx(idx) && BarrierBetween(e, i, j) && BellAfter(e, j, bell)
  }

  predicate BellAfter(e: seq<RingEvent>, j: int, bell: u32) {
    exists k :: 0 <= j < k < |e| && e[k] == Doorbell(bell) && BarrierBetween(e, j, k)
  }

  predicate BarrierBetween(e: seq<RingEvent>, i: int, j: int) {
    exists t :: i < t < j && 0 <= t < |e| && e[t] == Barrier
  }

  /** In both builds the publication is ordered. */
  lemma PublishOrder(b: Build, slot: int, head: u16, idx: u16, qsel: u32)
    ensures PublishedInOrder(Publication(b, slot, head, idx, qsel), slot, head, idx, DoorbellValue(b, qsel))
  {
    var e := Publication(b, slot, head, idx, qsel);
    var bell := DoorbellValue(b, qsel);
    var k := |e| - 1;
    assert e[k] == Doorbell(bell) && e[3] == Barrier && 3 < k;
    assert BellAfter(e, 2, bell) by {
      assert BarrierBetween(e, 2, k);
    }
    assert e[1] == Barrier && e[2] == AvailIdx(idx);
    assert IndexThenBell(e, 0, idx, bell) by {
      assert BarrierBetween(e, 0, 2);
    }
    assert e[0] == RingEntry(slot, head);
  }

  /** The doorbell is rung once, as the last event. */
  lemma PublishDoorbellLast(b: Build, slot: int, head: u16, idx: u16, qsel: u32)
    ensures OnlyLast(Publication(b, slot, head, idx, qsel), Doorbell(DoorbellValue(b, qsel)))
  {
    var e := Publication(b, slot, head, idx, qsel);
    var n := |e|;
    forall t | 0 <= t < n - 1
      ensures e[t] != Doorbell(DoorbellValue(b, qsel))
    {
      if t == 0 {
      } else if t == 1 {
      } else if t == 2 {
      } else if t == 3 {
      } else {
        assert t == 4;
      }
    }
  }

  /** The ring entry is the first event and the only one. */
  lemma PublishEntryFirst(b: Build, slot: int, head: u16, idx: u16, qsel: u32)
    ensures var e := Publication(b, slot, head, idx, qsel);
      e[0] == RingEntry(slot, head) && forall t :: 1 <= t < |e| ==> !e[t].RingEntry?
  {
    var e := Publication(b, slot, head, idx, qsel);
    forall t | 1 <= t < |e|
      ensures !e[t].RingEntry?
    {
      if t == 1 {
      } else if t == 2 {
      } else if t == 3 {
      } else if t == 4 {
      } else {
        assert t == 5;
      }
    }
  }

  /** x is the last event of e and occurs nowhere else in it. */
  predicate OnlyLast(e: seq<RingEvent>, x: RingEvent) {
    |e| > 0 && e[|e| - 1] == x && forall t :: 0 <= t < |e| - 1 ==> e[t] != x
  }

  /** The avail ring slot follows the index across its 16-bit wrap: 2^16 is
      a multiple of 16. */
  lemma SlotsFollowIndex(a: u16)
    ensures ((a + 1) % TWO16) % QSZ == (a % QSZ + 1) % QSZ
  {
    if a + 1 == TWO16 {
      assert a % QSZ == 15;
    } else {
      assert (a + 1) % TWO16 == a + 1;
      LemmaModUnique(a, QSZ, a / QSZ, a % QSZ);
      if a % QSZ == 15 {
        LemmaModUnique(a + 1, QSZ, a / QSZ + 1, 0);
      } else {
        LemmaModUnique(a + 1, QSZ, a / QSZ, a % QSZ + 1);
      }
    }
  }

  /** Allocating two descriptors and freeing the chain they form gives
      back the same free slots, the two swapped. */
  lemma SubmitKeepsFreeSlots(f: seq<int>)
    requires |f| >= 2
    ensures multiset([f[1], f[0]] + f[2..]) == multiset(f)
    ensures forall x :: x in [f[1], f[0]] + f[2..] <==> x in f
  {
    assert f == [f[0], f[1]] + f[2..];
  }

  /** Where free_chain stands after k of its steps: the next slot is on
      neither part of the list, and pushing it extends the reversed prefix. */
  lemma ChainStep(chain: seq<int>, k: nat, free: seq<int>, free0: seq<int>)
    requires k < |chain| && Distinct(chain) && free == Rev(chain[..k]) + free0
    requires forall x :: x in chain ==> x !in free0
    ensures chain[k] !in free && chain[k] !in chain[..k]
    ensures [chain[k]] + free == Rev(chain[..k + 1]) + free0
    ensures forall i :: i !in chain[..k + 1] ==> i !in chain[..k] && i != chain[k]
  {
    RevElems(chain[..k]);
    RevSnoc(chain[..k], chain[k]);
    assert chain[..k + 1] == chain[..k] + [chain[k]];
  }

  /** The table freelist_init leaves holds the free list 0, 1, ..., 15. */
  lemma InitialFreeList(d: seq<Desc>)
    requires |d| == QSZ
    requires forall i :: 0 <= i < QSZ ==> d[i].flags == 0 && d[i].next == (if i < QSZ - 1 then i + 1 else NoDesc)
    ensures FreeListShape(d, 0, AllDescs)
  {
    var f := AllDescs;
    forall k | 0 <= k < QSZ
      ensures f[k] == k && d[f[k]].next == LinkAfter(f, k)
    {
    }
  }

  /** The descriptor table and the ring state of one queue. */
  class Queue {
    const desc: array<Desc>
    const availRing: array<u16>
    var availFlags: u16
    var availIdx: u16
    var usedFlags: u16
    var usedIdx: u16
    var freeHead: u16
    var usedLast: u16
    /** The slots on the free list, head first. */
    ghost var free: seq<int>
    /** The device-visible writes, in program order. */
    var log: seq<RingEvent>

    ghost predicate Valid()
      reads this, desc
    {
      desc.Length == QSZ && availRing.Length == QSZ &&
      FreeListShape(desc[..], freeHead, free)
    }

    /** The statically allocated, zero-filled ring memory, before the
        driver has set anything up. */
    constructor ()
      ensures desc.Length == QSZ && availRing.Length == QSZ && fresh(desc) && fresh(availRing)
      ensures forall i :: 0 <= i < QSZ ==> desc[i] == Desc(0, 0, 0, 0) && availRing[i] == 0
      ensures availFlags == 0 && availIdx == 0 && usedFlags == 0 && usedIdx == 0
      ensures freeHead == 0 && usedLast == 0 && free == [] && log == []
    {
      desc := new Desc[QSZ](_ => Desc(0, 0, 0, 0));
      availRing := new u16[QSZ](_ => 0);
      availFlags, availIdx, usedFlags, usedIdx := 0, 0, 0, 0;
      freeHead, usedLast := 0, 0;
      free := [];
      log := [];
    }

    /** freelist_init (metal/Heat2D_virt_gpu.cpp, clear = false) and the
        tail of virtio_queue_init (metal/Heat2D_virt.cpp, clear = true, which
        also zeroes addr and len): head 0, the chain 0 -> 1 -> ... -> 15 ->
        0xffff with flags 0, and every ring index 0. */
    method InitFreeList(clear: bool)
      requires desc.Length == QSZ && availRing.Length == QSZ
      modifies desc, this`freeHead, this`free, this`availFlags, this`availIdx
      modifies this`usedFlags, this`usedIdx, this`usedLast
      ensures Valid() && free == AllDescs
      ensures forall i :: 0 <= i < QSZ ==>
        desc[i].flags == 0 && desc[i].next == (if i < QSZ - 1 then i + 1 else NoDesc) &&
        desc[i].addr == (if clear then 0 else old(desc[i].addr)) &&
        desc[i].len == (if clear then 0 else old(desc[i].len))
      ensures freeHead == 0 && usedLast == 0
      ensures availFlags == 0 && availIdx == 0 && usedFlags == 0 && usedIdx == 0
    {
      LinkTable(clear);
      InitialFreeList(desc[..]);
      freeHead := 0;
      availFlags, availIdx := 0, 0;
      usedFlags, usedIdx := 0, 0;
      usedLast := 0;
      free := AllDescs;
    }

    /** The descriptor loop of freelist_init / virtio_queue_init. */
    method LinkTable(clear: bool)
      requires desc.Length == QSZ
      modifies desc
      ensures forall i :: 0 <= i < QSZ ==>
        desc[i].flags == 0 && desc[i].next == (if i < QSZ - 1 then i + 1 else NoDesc) &&
        desc[i].addr == (if clear then 0 else old(desc[i].addr)) &&
        desc[i].len == (if clear then 0 else old(desc[i].len))
    {
      for i := 0 to QSZ
        invariant forall j :: 0 <= j < i ==>
          desc[j].flags == 0 && desc[j].next == j + 1 &&
          desc[j].addr == (if clear then 0 else old(desc[j].addr)) &&
          desc[j].len == (if clear then 0 else old(desc[j].len))
        invariant forall j :: i <= j < QSZ ==> desc[j] == old(desc[j])
      {
        if clear {
          desc[i] := Desc(0, 0, 0, i + 1);
        } else {
          desc[i] := desc[i].(flags := 0, next := i + 1);
        }
      }
      desc[QSZ - 1] := desc[QSZ - 1].(next := NoDesc);
    }

    /** alloc_desc: halts when the head is 0xffff; otherwise returns the
        head and moves the head to its `next`. */
    method AllocDesc() returns (r: Outcome<u16>)
      requires Valid()
      modifies this`freeHead, this`free
      ensures Valid()
      ensures old(free) == [] ==> r == Halted(OutOfDescriptors) && freeHead == old(freeHead) && free == old(free)
      ensures old(free) != [] ==> r == Ok(old(freeHead)) && r.value == old(free[0]) && free == old(free[1..])
      ensures old(free) != [] ==> freeHead == old(desc[freeHead].next)
    {
      var h := freeHead;
      if h == NoDesc {
        return Halted(OutOfDescriptors);
      }
      FreeListPop(desc[..], freeHead, free);
      freeHead := desc[h].next;
      free := free[1..];
      r := Ok(h);
    }

    /** The chain-building writes of submit_out_in: d0 is the device-read
        OUT buffer flagged NEXT and pointing at d1, d1 the device-written IN
        buffer flagged WRITE with next 0. */
    method WriteChain(d0: u16, d1: u16, outAddr: u64, outLen: u32, inAddr: u64, inLen: u32)
      requires Valid() && d0 < QSZ && d1 < QSZ && d0 != d1 && d0 !in free && d1 !in free
      modifies desc, this`log
      ensures Valid()
      ensures desc[..] == old(desc[..])[d0 := Desc(outAddr, outLen, FNext, d1)][d1 := Desc(inAddr, inLen, FWrite, 0)]
      ensures IsChain(desc[..], [d0 as int, d1 as int])
      ensures log == old(log) + [DescWrite(d0, desc[d0]), DescWrite(d1, desc[d1])]
    {
      FreeListFrame(desc[..], freeHead, free, d0, Desc(outAddr, outLen, FNext, d1));
      desc[d0] := Desc(outAddr, outLen, FNext, d1);
      FreeListFrame(desc[..], freeHead, free, d1, Desc(inAddr, inLen, FWrite, 0));
      desc[d1] := Desc(inAddr, inLen, FWrite, 0);
      HasNextIsLowBit(FWrite);
      log := log + [DescWrite(d0, desc[d0]), DescWrite(d1, desc[d1])];
    }

    /** notify: a barrier, then the QUEUE_NOTIFY write. */
    method Notify(value: u32)
      modifies this`log
      ensures log == old(log) + [Barrier, Doorbell(value)]
    {
      log := log + [Barrier, Doorbell(value)];
    }

    /** The publishing half of submit_out_in: the head goes into ring slot
        idx mod 16, then (after a barrier) the index advances modulo 2^16,
        then the doorbell. */
    method Publish(b: Build, qsel: u32, head: u16)
      requires availRing.Length == QSZ
      modifies availRing, this`availIdx, this`log
      ensures availRing[..] == old(availRing[..])[old(availIdx) % QSZ := head]
      ensures availIdx == (old(availIdx) + 1) % TWO16
      ensures log == old(log) + Publication(b, old(availIdx) % QSZ, head, availIdx, qsel)
    {
      var a := availIdx;
      availRing[a % QSZ] := head;
      log := log + [RingEntry(a % QSZ, head), Barrier];
      availIdx := (a + 1) % TWO16;
      log := log + [AvailIdx(availIdx)];
      if b == VirtGpu {
        log := log + [Barrier];
      }
      Notify(DoorbellValue(b, qsel));
    }

    /** The polling loop: spins while used.idx equals used_last; once it
        differs, takes the element and advances used_last by one. Without an
        advance among the polls the driver hangs. */
    method WaitUsed(polls: seq<u16>) returns (served: bool)
      modifies this`usedIdx, this`usedLast
      ensures served <==> FirstAdvance(polls, old(usedLast)) < |polls|
      ensures served ==> usedIdx == polls[FirstAdvance(polls, old(usedLast))] &&
                         usedIdx != old(usedLast) &&
                         usedLast == (old(usedLast) + 1) % TWO16
      ensures !served ==> usedLast == old(usedLast) && usedIdx == old(usedIdx)
    {
      var k := 0;
      while k < |polls| && polls[k] == usedLast
        invariant 0 <= k <= |polls|
        invariant forall j :: 0 <= j < k ==> polls[j] == usedLast
        invariant usedLast == old(usedLast) && usedIdx == old(usedIdx)
        decreases |polls| - k
      {
        k := k + 1;
      }
      FirstAdvanceUnique(polls, usedLast, k);
      if k == |polls| {
        return false;
      }
      usedIdx := polls[k];
      usedLast := (usedLast + 1) % TWO16;
      served := true;
    }

    /** One step of free_chain: descriptor cur, not on the list, is linked
        in front of the head with its flags cleared and becomes the head. */
    method PushFree(cur: u16)
      requires Valid() && cur < QSZ && cur as int !in free
      modifies desc, this`freeHead, this`free
      ensures Valid() && freeHead == cur && free == [cur as int] + old(free)
      ensures desc[..] == old(desc[..])[cur := old(desc[cur]).(next := old(freeHead), flags := 0)]
    {
      FreeListPush(desc[..], freeHead, free, cur as int);
      desc[cur] := desc[cur].(next := freeHead, flags := 0);
      freeHead := cur;
      free := [cur as int] + free;
    }

    /** Where free_chain stands after k steps over a chain of table t0: the
        first k chain entries are pushed, in reverse, in front of free0, and
        every other descriptor is as it was. */
    ghost predicate Freeing(chain: seq<int>, k: int, t0: seq<Desc>, free0: seq<int>)
      reads this, desc
    {
      Valid() && IsChain(t0, chain) && 0 <= k <= |chain| &&
      (forall x :: x in chain ==> x !in free0) &&
      free == Rev(chain[..k]) + free0 &&
      (forall i :: 0 <= i < QSZ && i !in chain[..k] ==> desc[i] == t0[i]) &&
      (forall i :: 0 <= i < QSZ ==> desc[i].addr == t0[i].addr && desc[i].len == t0[i].len)
    }

    /** One iteration of free_chain's loop: read the link, push cur. */
    method FreeStep(cur: u16, ghost chain: seq<int>, ghost k: int, ghost t0: seq<Desc>, ghost free0: seq<int>)
      returns (next: int)
      requires Freeing(chain, k, t0, free0) && k < |chain| && cur as int == chain[k]
      modifies desc, this`freeHead, this`free
      ensures Freeing(chain, k + 1, t0, free0)
      ensures next == if k < |chain| - 1 then chain[k + 1] else NoDesc
    {
      ChainStep(chain, k, free, free0);
      var dc := desc[cur];
      assert dc == t0[chain[k]];
      next := if HasNext(dc.flags) then dc.next else NoDesc;
      PushFree(cur);
    }

    /** free_chain: walks the chain from head, pushing each descriptor on
        the free list with flags cleared, and stops at the first one without
        NEXT. */
    method FreeChain(head: u16, ghost chain: seq<int>)
      requires Valid() && IsChain(desc[..], chain) && chain[0] == head as int
      requires forall x :: x in chain ==> x !in free
      modifies desc, this`freeHead, this`free
      ensures Valid()
      ensures free == Rev(chain) + old(free)
      ensures forall i :: 0 <= i < QSZ && i !in chain ==> desc[i] == old(desc[i])
      ensures forall i :: 0 <= i < QSZ ==> desc[i].addr == old(desc[i].addr) && desc[i].len == old(desc[i].len)
    {
      ghost var t0 := desc[..];
      ghost var free0 := free;
      assert chain[..0] == [] && Rev<int>([]) == [];
      WalkChain(head, chain, t0, free0);
      assert chain[..|chain|] == chain;
    }

    /** free_chain's loop: from nothing freed to the whole chain freed. */
    method WalkChain(head: u16, ghost chain: seq<int>, ghost t0: seq<Desc>, ghost free0: seq<int>)
      requires Freeing(chain, 0, t0, free0) && |chain| > 0 && chain[0] == head as int
      modifies desc, this`freeHead, this`free
      ensures Freeing(chain, |chain|, t0, free0)
    {
      var cur := head;
      ghost var k := 0;
      while true
        invariant 0 <= k < |chain| && cur as int == chain[k]
        invariant Freeing(chain, k, t0, free0)
        decreases |chain| - k
      {
        var next := FreeStep(cur, chain, k, t0, free0);
        if next == NoDesc {
          break;
        }
        cur := next;
        k := k + 1;
      }
    }

    /** The first half of submit_out_in: take two descriptors, chain OUT
        to IN, publish the head and ring the doorbell. */
    method PostChain(b: Build, qsel: u32, outAddr: u64, outLen: u32, inAddr: u64, inLen: u32)
      returns (r: Outcome<(u16, u16)>)
      requires Valid()
      modifies desc, availRing, this`freeHead, this`free, this`availIdx, this`log
      ensures Valid() && !r.Hung?
      ensures r.Halted? <==> |old(free)| < 2
      ensures r.Halted? ==> r.why == OutOfDescriptors
      ensures r.Ok? ==>
        var (d0, d1) := r.value;
        d0 as int == old(free[0]) && d1 as int == old(free[1]) && free == old(free[2..]) &&
        d0 == old(freeHead) &&
        d0 as int !in free && d1 as int !in free &&
        desc[..] == old(desc[..])[d0 := Desc(outAddr, outLen, FNext, d1)][d1 := Desc(inAddr, inLen, FWrite, 0)] &&
        IsChain(desc[..], [d0 as int, d1 as int]) &&
        availRing[..] == old(availRing[..])[old(availIdx) % QSZ := d0] &&
        availIdx == (old(availIdx) + 1) % TWO16 &&
        log == old(log) + [DescWrite(d0, Desc(outAddr, outLen, FNext, d1)), DescWrite(d1, Desc(inAddr, inLen, FWrite, 0))] +
               Publication(b, old(availIdx) % QSZ, d0, availIdx, qsel)
    {
      ghost var f0 := free;
      var a0 := AllocDesc();
      if !a0.Ok? {
        return Halted(OutOfDescriptors);
      }
      var d0 := a0.value;
      var a1 := AllocDesc();
      if !a1.Ok? {
        return Halted(OutOfDescriptors);
      }
      var d1 := a1.value;
      assert d0 as int == f0[0] && d1 as int == f0[1] && free == f0[2..];
      assert d0 != d1 && d0 as int !in free && d1 as int !in free;
      WriteChain(d0, d1, outAddr, outLen, inAddr, inLen);
      ghost var written := log;
      assert written == old(log) + [DescWrite(d0, Desc(outAddr, outLen, FNext, d1)), DescWrite(d1, Desc(inAddr, inLen, FWrite, 0))];
      assert availIdx == old(availIdx) && availRing[..] == old(availRing[..]);
      Publish(b, qsel, d0);
      assert log == written + Publication(b, old(availIdx) % QSZ, d0, availIdx, qsel);
      r := Ok((d0, d1));
    }

    /** The second half: wait for used.idx to move, then give the chain
        back. Without an advance nothing is freed. */
    method Reclaim(d0: u16, d1: u16, polls: seq<u16>) returns (served: bool)
      requires Valid() && IsChain(desc[..], [d0 as int, d1 as int])
      requires d0 as int !in free && d1 as int !in free
      modifies desc, this`freeHead, this`free, this`usedIdx, this`usedLast
      ensures Valid()
      ensures served <==> FirstAdvance(polls, old(usedLast)) < |polls|
      ensures served ==>
        usedIdx == polls[FirstAdvance(polls, old(usedLast))] &&
        usedLast == (old(usedLast) + 1) % TWO16 &&
        free == [d1 as int, d0 as int] + old(free) &&
        (forall i :: 0 <= i < QSZ && i != d0 as int && i != d1 as int ==> desc[i] == old(desc[i])) &&
        (forall i :: 0 <= i < QSZ ==> desc[i].addr == old(desc[i].addr) && desc[i].len == old(desc[i].len))
    {
      served := WaitUsed(polls);
      if !served {
        return;
      }
      ghost var chain := [d0 as int, d1 as int];
      FreeChain(d0, chain);
      assert Rev(chain) == [d1 as int, d0 as int];
      forall i | 0 <= i < QSZ && i != d0 as int && i != d1 as int
        ensures desc[i] == old(desc[i])
      {
        assert i !in chain;
      }
    }

    /** submit_out_in: post the OUT/IN chain, wait for the device, read the
        response type from the in-buffer's header and free the chain. */
    method Submit(b: Build, qsel: u32, outAddr: u64, outLen: u32,
                  inAddr: u64, inLen: u32, ans: DeviceAnswer) returns (r: Outcome<u32>)
      requires Valid()
      modifies desc, availRing, this`freeHead, this`free, this`availIdx, this`log
      modifies this`usedIdx, this`usedLast
      ensures Valid()
      ensures r == Halted(OutOfDescriptors) <==> |old(free)| < 2
      ensures r.Halted? ==> r.why == OutOfDescriptors
      ensures |old(free)| >= 2 ==>
        (r == Hung <==> FirstAdvance(ans.polls, old(usedLast)) == |ans.polls|)
      ensures r.Ok? ==>
        r.value == ans.respType &&
        free == [old(free[1]), old(free[0])] + old(free[2..]) &&
        availRing[..] == old(availRing[..])[old(availIdx) % QSZ := old(freeHead)] &&
        availIdx == (old(availIdx) + 1) % TWO16 &&
        usedLast == (old(usedLast) + 1) % TWO16 &&
        usedIdx == ans.polls[FirstAdvance(ans.polls, old(usedLast))]
      ensures r.Ok? ==>
        log == old(log) + [DescWrite(old(free[0]), Desc(outAddr, outLen, FNext, old(free[1]) as u16)),
                           DescWrite(old(free[1]), Desc(inAddr, inLen, FWrite, 0))] +
               Publication(b, old(availIdx) % QSZ, old(freeHead), availIdx, qsel)
      ensures r.Ok? ==>
        desc[old(free[0])].addr == outAddr && desc[old(free[0])].len == outLen &&
        desc[old(free[1])].addr == inAddr && desc[old(free[1])].len == inLen &&
        forall i :: 0 <= i < QSZ && i != old(free[0]) && i != old(free[1]) ==> desc[i] == old(desc[i])
    {
      var p := PostChain(b, qsel, outAddr, outLen, inAddr, inLen);
      if !p.Ok? {
        return Halted(OutOfDescriptors);
      }
      var (d0, d1) := p.value;
      ghost var table1 := desc[..];
      var served := Reclaim(d0, d1, ans.polls);
      if !served {
        return Hung;
      }
      assert desc[d0] .addr == table1[d0].addr && desc[d1].len == table1[d1].len;
      r := Ok(ans.respType);
    }
  }
}
