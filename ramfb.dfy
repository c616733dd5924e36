/** The integer logic of the ramfb bring-up in metal/Heat2D_ramfb.cpp: XRGB
    pixel packing and the DRM fourcc, the QEMU fw_cfg DMA control words, the
    file-directory search, the DMA completion rule and the big-endian ramfb
    configuration record. Device memory written by DMA arrives as parameters:
    the directory entries and the successive values of the DMA control
    word. */
module Ramfb {
  import opened Bits
  import opened ByteOrder

  // ---------------------------------------------------------------------
  // Pixels and the pixel format

  /** pack_xrgb: red in bits 16..23, green in 8..15, blue in 0..7. */
  function PackXrgb(r: bv8, g: bv8, b: bv8): (p: bv32)
    ensures p >> 24 == 0
    ensures (p >> 16) & 0xFF == r as bv32 && (p >> 8) & 0xFF == g as bv32 && p & 0xFF == b as bv32
  {
    (r as bv32 << 16) | (g as bv32 << 8) | b as bv32
  }

  /** DRM_FORMAT_XRGB8888 as the source composes it from its four letters. */
  const DrmFormatXrgb8888: bv32 :=
    ('X' as bv32) | (('R' as bv32) << 8) | (('2' as bv32) << 16) | (('4' as bv32) << 24)

  /** The same code as a number, as the record arithmetic uses it. */
  const DrmFourcc: nat := 0x34325258

  /** The code is 0x34325258, the number DrmFourcc. */
  lemma DrmFormatValue()
    ensures DrmFormatXrgb8888 == 0x34325258 && DrmFormatXrgb8888 as int == DrmFourcc
  {
    var x, r, two, four: bv32 := 'X' as bv32, 'R' as bv32, '2' as bv32, '4' as bv32;
    assert x == 0x58 && r << 8 == 0x5200 && two << 16 == 0x32_0000 && four << 24 == 0x3400_0000;
  }

  /** Its bytes in memory spell "XR24". */
  lemma DrmFourccBytes()
    ensures LeBytes(DrmFourcc, 4) == ['X' as int, 'R' as int, '2' as int, '4' as int]
  {
    var v := DrmFourcc;
    LeBytesFour(v);
    assert v % 256 == 0x58 && (v / 256) % 256 == 0x52;
    assert (v / 256 / 256) % 256 == 0x32 && (v / 256 / 256 / 256) % 256 == 0x34;
  }

  // ---------------------------------------------------------------------
  // fw_cfg DMA control words

  const FileDirSelector: bv16 := 0x0019
  const DmaError: bv32 := 1
  const DmaRead: bv32 := 2
  const DmaSkip: bv32 := 4
  const DmaSelect: bv32 := 8
  const DmaWrite: bv32 := 16

  /** A control word: the selector in the upper half, the flags below it. */
  function Control(sel: bv16, flags: bv32): (c: bv32)
    ensures flags < 0x1_0000 ==> c >> 16 == sel as bv32 && c & 0xFFFF == flags
  {
    (sel as bv32 << 16) | flags
  }

  /** The control word of the directory read, and that of the config write:
      both select their item, one reads and one writes. */
  lemma ControlWords(sel: bv16)
    ensures Control(FileDirSelector, DmaSelect | DmaRead) == 0x0019_000A
    ensures Control(sel, DmaSelect | DmaWrite) == (sel as bv32 << 16) | 0x18
    ensures Control(sel, DmaSelect | DmaWrite) & DmaError == 0
  {
  }

  // ---------------------------------------------------------------------
  // The file directory

  type Name56 = s: seq<u8> | |s| == 56 witness seq(56, _ => 0)

  /** One FWCfgFile record as stored by the device (big-endian fields). */
  datatype FileEntry = FileEntry(sizeBe: u32, selectBe: u16, reservedBe: u16, name: Name56)

  /** A file name as the source passes it: a C string, so no NUL byte, and
      short enough that `name[fname_len]` lies inside the 56-byte field. */
  predicate ValidFileName(fname: seq<u8>) {
    |fname| <= 55 && forall j :: 0 <= j < |fname| ==> fname[j] != 0
  }

  /** The match test of fwcfg_find_file: the first min(len, 55) bytes agree
      and the byte at index len is NUL. */
  predicate NameMatch(name: Name56, fname: seq<u8>)
    requires ValidFileName(fname)
  {
    (forall j :: 0 <= j < |fname| && j < 55 ==> name[j] == fname[j]) && name[|fname|] == 0
  }

  /** The C string held in a byte array: every byte before the first NUL. */
  function CString(s: seq<u8>): (c: seq<u8>)
    ensures |c| <= |s|
    ensures forall j :: 0 <= j < |c| ==> c[j] == s[j] && c[j] != 0
  {
    if s == [] || s[0] == 0 then [] else [s[0]] + CString(s[1..])
  }

  /** The match test says exactly that the entry's name, read as a C string,
      is fname. */
  lemma NameMatchIsEquality(name: Name56, fname: seq<u8>)
    requires ValidFileName(fname)
    ensures NameMatch(name, fname) <==> CString(name) == fname
  {
    CStringIs(name, fname);
    assert NameMatch(name, fname) <==> name[..|fname|] == fname && name[|fname|] == 0;
  }

  lemma {:induction false} CStringIs(s: seq<u8>, f: seq<u8>)
    requires |f| < |s| && forall j :: 0 <= j < |f| ==> f[j] != 0
    ensures CString(s) == f <==> s[..|f|] == f && s[|f|] == 0
  {
    if f != [] {
      CStringIs(s[1..], f[1..]);
      if s[0] == f[0] {
        assert s[..|f|] == [s[0]] + s[1..][..|f| - 1];
      } else {
        assert s[..|f|][0] != f[0];
      }
    }
  }

  /** The inner loop of fwcfg_find_file, with its early break. */
  method MatchName(name: Name56, fname: seq<u8>) returns (matched: bool)
    requires ValidFileName(fname)
    ensures matched == NameMatch(name, fname)
  {
    matched := true;
    var j := 0;
    while j < |fname| && j < 55
      invariant 0 <= j <= |fname|
      invariant matched
      invariant forall k :: 0 <= k < j ==> name[k] == fname[k]
    {
      if name[j] != fname[j] {
        matched := false;
        break;
      }
      j := j + 1;
    }
    matched := matched && name[|fname|] == 0;
  }

  /** What fwcfg_find_file reports: found, then the decoded selector and
      size. */
  datatype FileHit = NotFound | Found(select: u16, size: u32)

  /** The entry at index i is the first of the first n that matches. */
  predicate FirstMatch(dir: seq<FileEntry>, n: nat, fname: seq<u8>, i: nat)
    requires ValidFileName(fname) && n <= |dir|
  {
    i < n && NameMatch(dir[i].name, fname) && forall k :: 0 <= k < i ==> !NameMatch(dir[k].name, fname)
  }

  /** The index of the first of the first n entries from `from` on whose
      name matches, n when none does. */
  function FindIndex(dir: seq<FileEntry>, n: nat, fname: seq<u8>, from: nat): (i: nat)
    requires ValidFileName(fname) && from <= n <= |dir|
    ensures from <= i <= n
    decreases n - from
  {
    if from == n then n
    else if NameMatch(dir[from].name, fname) then from
    else FindIndex(dir, n, fname, from + 1)
  }

  /** FindIndex is n exactly when no entry from `from` on matches, and
      otherwise the first match. */
  lemma {:induction false} FindIndexFirst(dir: seq<FileEntry>, n: nat, fname: seq<u8>, from: nat)
    requires ValidFileName(fname) && from <= n <= |dir|
    ensures var i := FindIndex(dir, n, fname, from);
      (i == n <==> forall k :: from <= k < n ==> !NameMatch(dir[k].name, fname)) &&
      (i < n ==> NameMatch(dir[i].name, fname) && forall k :: from <= k < i ==> !NameMatch(dir[k].name, fname))
    decreases n - from
  {
    if from < n && !NameMatch(dir[from].name, fname) {
      FindIndexFirst(dir, n, fname, from + 1);
    }
  }

  /** fwcfg_find_file after the count read: the device delivers the entries
      of dir in order; count is the big-endian entry count. */
  method FindFile(fname: seq<u8>, countBe: u32, dir: seq<FileEntry>) returns (r: FileHit)
    requires ValidFileName(fname) && Be32ToCpu(countBe) <= |dir|
    ensures r.NotFound? <==> forall k :: 0 <= k < Be32ToCpu(countBe) ==> !NameMatch(dir[k].name, fname)
    ensures r.Found? ==> exists i: nat :: (FirstMatch(dir, Be32ToCpu(countBe), fname, i)
      && r == Found(Be16ToCpu(dir[i].selectBe), Be32ToCpu(dir[i].sizeBe)))
    ensures var i := FindIndex(dir, Be32ToCpu(countBe), fname, 0);
      if i == Be32ToCpu(countBe) then r == NotFound
      else r == Found(Be16ToCpu(dir[i].selectBe), Be32ToCpu(dir[i].sizeBe))
  {
    var count := Be32ToCpu(countBe);
    var i := 0;
    while i < count
      invariant 0 <= i <= count
      invariant forall k :: 0 <= k < i ==> !NameMatch(dir[k].name, fname)
      invariant FindIndex(dir, count, fname, i) == FindIndex(dir, count, fname, 0)
    {
      var entry := dir[i];
      var matched := MatchName(entry.name, fname);
      if matched {
        r := Found(Be16ToCpu(entry.selectBe), Be32ToCpu(entry.sizeBe));
        assert FirstMatch(dir, count, fname, i);
        return;
      }
      i := i + 1;
    }
    r := NotFound;
  }

  // ---------------------------------------------------------------------
  // Waiting for a DMA transfer

  const DmaPolls: nat := 100000

  datatype DmaWaitResult = Completed(at: nat) | Failed(at: nat) | TimedOut

  /** The control words as the CPU reads them: be32_to_cpu of each stored
      word. */
  function CpuWords(controls: seq<u32>): (ws: seq<bv32>)
    ensures |ws| == |controls|
  {
    if controls == [] then []
    else CpuWords(controls[..|controls| - 1]) + [CpuWord(controls[|controls| - 1])]
  }

  function CpuWord(v: u32): bv32 {
    Be32ToCpu(v) as bv32
  }

  /** Word k of CpuWords is the decoded stored word k. */
  lemma {:induction false} CpuWordsAt(controls: seq<u32>, k: nat)
    requires k < |controls|
    ensures CpuWords(controls)[k] == CpuWord(controls[k])
    decreases |controls|
  {
    var n := |controls| - 1;
    var pre := controls[..n];
    assert CpuWords(controls) == CpuWords(pre) + [CpuWord(controls[n])];
    if k < n {
      CpuWordsAt(pre, k);
      assert pre[k] == controls[k];
    }
  }

  /** The control word as the CPU reads it at poll k. */
  function CtrlAt(controls: seq<u32>, k: nat): bv32
    requires k < |controls|
  {
    CpuWords(controls)[k]
  }

  /** Poll k neither completed nor reported an error. */
  predicate Busy(controls: seq<u32>, k: nat)
    requires k < |controls|
  {
    CtrlAt(controls, k) != 0 && CtrlAt(controls, k) & DmaError == 0
  }

  /** What the wait reports when polling from poll `from` on: the first
      poll that is not busy decides, completion on 0 and failure on the
      error bit; with none, a timeout. */
  function WaitResult(controls: seq<u32>, from: nat): DmaWaitResult
    requires from <= |controls|
    decreases |controls| - from
  {
    if from == |controls| then TimedOut
    else if CtrlAt(controls, from) == 0 then Completed(from)
    else if CtrlAt(controls, from) & DmaError != 0 then Failed(from)
    else WaitResult(controls, from + 1)
  }

  /** The wait decides at its first poll that is not busy: completion
      exactly when that poll reads 0, failure exactly when it has the error
      bit, and a timeout exactly when every poll is busy. */
  lemma {:induction false} WaitResultFirst(controls: seq<u32>, from: nat)
    requires from <= |controls|
    ensures var r := WaitResult(controls, from);
      (r.Completed? ==> from <= r.at < |controls| && CtrlAt(controls, r.at) == 0) &&
      (r.Failed? ==> from <= r.at < |controls| && CtrlAt(controls, r.at) != 0 && CtrlAt(controls, r.at) & DmaError != 0) &&
      ((r.Completed? || r.Failed?) ==> forall k :: from <= k < r.at ==> Busy(controls, k)) &&
      (r.TimedOut? <==> forall k :: from <= k < |controls| ==> Busy(controls, k))
    decreases |controls| - from
  {
    if from < |controls| {
      var c := CtrlAt(controls, from);
      if c == 0 {
        assert WaitResult(controls, from) == Completed(from) && !Busy(controls, from);
      } else if c & DmaError != 0 {
        assert WaitResult(controls, from) == Failed(from) && !Busy(controls, from);
      } else {
        assert Busy(controls, from);
        assert WaitResult(controls, from) == WaitResult(controls, from + 1);
        WaitResultFirst(controls, from + 1);
      }
    }
  }

  /** fwcfg_dma_wait: controls[k] is the stored (big-endian) control word the
      k-th poll reads. It returns at the first poll that reads 0, panics at
      the first nonzero value with the error bit, and panics after 100000
      polls with neither. */
  method DmaWait(controls: seq<u32>) returns (r: DmaWaitResult)
    requires |controls| == DmaPolls
    ensures r.Completed? ==> r.at < DmaPolls && CtrlAt(controls, r.at) == 0
    ensures r.Failed? ==> r.at < DmaPolls && CtrlAt(controls, r.at) != 0 && CtrlAt(controls, r.at) & DmaError != 0
    ensures (r.Completed? || r.Failed?) ==> forall k :: 0 <= k < r.at ==> Busy(controls, k)
    ensures r.TimedOut? <==> forall k :: 0 <= k < DmaPolls ==> Busy(controls, k)
    ensures r == WaitResult(controls, 0)
  {
    WaitResultFirst(controls, 0);
    var i := 0;
    while i < DmaPolls
      invariant 0 <= i <= DmaPolls
      invariant WaitResult(controls, i) == WaitResult(controls, 0)
    {
      var ctrl := CpuWord(controls[i]);
      CpuWordsAt(controls, i);
      if ctrl == 0 {
        return Completed(i);
      }
      if ctrl & DmaError != 0 {
        return Failed(i);
      }
      i := i + 1;
    }
    r := TimedOut;
  }

  // ---------------------------------------------------------------------
  // The ramfb configuration

  const FbWidth: nat := 800
  const FbHeight: nat := 600

  /** The 28 bytes QEMU expects: address, fourcc, flags, width, height and
      stride, each big-endian. */
  function RamfbRecord(fbAddr: u64): (bs: seq<u8>)
    ensures |bs| == 28
  {
    Record(fbAddr, DrmFourcc, 0, FbWidth, FbHeight, FbWidth * 4)
  }

  /** The bytes of a RAMFBCfg whose fields hold the given values, each
      stored little-endian. */
  function InMemory(a: u64, fc: u32, fl: u32, w: u32, h: u32, st: u32): (bs: seq<u8>)
    ensures |bs| == 28
  {
    LeBytes(a, 8) + LeBytes(fc, 4) + LeBytes(fl, 4) + LeBytes(w, 4) + LeBytes(h, 4) + LeBytes(st, 4)
  }

  /** A RAMFBCfg record of the given field values, each big-endian. */
  function Record(a: u64, fc: u32, fl: u32, w: u32, h: u32, st: u32): (bs: seq<u8>)
    ensures |bs| == 28
  {
    BeBytes(a, 8) + BeBytes(fc, 4) + BeBytes(fl, 4) + BeBytes(w, 4) + BeBytes(h, 4) + BeBytes(st, 4)
  }

  /** Reading each field of the record back as big-endian gives the values
      the source intends. */
  lemma RamfbRecordFields(fbAddr: u64)
    ensures FromBe(RamfbRecord(fbAddr)[0..8]) == fbAddr
    ensures FromBe(RamfbRecord(fbAddr)[8..12]) == 0x34325258
    ensures FromBe(RamfbRecord(fbAddr)[12..16]) == 0
    ensures FromBe(RamfbRecord(fbAddr)[16..20]) == 800
    ensures FromBe(RamfbRecord(fbAddr)[20..24]) == 600
    ensures FromBe(RamfbRecord(fbAddr)[24..28]) == 3200
  {
    RecordFields(fbAddr, DrmFourcc, 0, FbWidth, FbHeight, FbWidth * 4);
  }

  /** Each field of a record reads back, big-endian, as its value. */
  lemma RecordFields(a: u64, fc: u32, fl: u32, w: u32, h: u32, st: u32)
    ensures var bs := Record(a, fc, fl, w, h, st);
      FromBe(bs[0..8]) == a && FromBe(bs[8..12]) == fc && FromBe(bs[12..16]) == fl &&
      FromBe(bs[16..20]) == w && FromBe(bs[20..24]) == h && FromBe(bs[24..28]) == st
  {
    var bs := Record(a, fc, fl, w, h, st);
    Pow256Facts();
    assert bs[0..8] == BeBytes(a, 8);
    BeRoundTrip(a, 8);
    LemmaSmallMod(a, TWO64);
    BeField(fc, bs[8..12]);
    BeField(fl, bs[12..16]);
    BeField(w, bs[16..20]);
    BeField(h, bs[20..24]);
    BeField(st, bs[24..28]);
  }

  /** The four big-endian bytes of a u32 read back as it. */
  lemma BeField(v: u32, bs: seq<u8>)
    requires bs == BeBytes(v, 4)
    ensures FromBe(bs) == v
  {
    Pow256Facts();
    BeRoundTrip(v, 4);
    LemmaSmallMod(v, TWO32);
  }

  lemma LemmaSmallMod(v: nat, m: nat)
    requires v < m
    ensures v % m == v
  {
  }

  /** A record whose fields hold the big-endian forms of six values lays
      those values out big-endian in memory. */
  lemma StoredRecord(a: u64, fc: u32, fl: u32, w: u32, h: u32, st: u32)
    ensures InMemory(CpuToBe64(a), CpuToBe32(fc), CpuToBe32(fl), CpuToBe32(w), CpuToBe32(h), CpuToBe32(st))
      == Record(a, fc, fl, w, h, st)
  {
  }

  /** g_ramfb_cfg: the packed RAMFBCfg record as it sits in memory. */
  class RamfbCfg {
    var addr: u64
    var fourcc: u32
    var flags: u32
    var width: u32
    var height: u32
    var stride: u32

    /** The record's bytes in memory (each field stored little-endian). */
    function Image(): (bs: seq<u8>)
      reads this
      ensures |bs| == 28
    {
      InMemory(addr, fourcc, flags, width, height, stride)
    }

    /** The field assignments of ramfb_init: each field holds the
        big-endian form of its value, so the bytes in memory are the record
        QEMU expects. */
    method Build(fbAddr: u64)
      modifies this
      ensures Image() == RamfbRecord(fbAddr)
    {
      var fc: u32, fl: u32, w: u32, h: u32, st: u32 := DrmFourcc, 0, FbWidth, FbHeight, FbWidth * 4;
      addr := CpuToBe64(fbAddr);
      fourcc := CpuToBe32(fc);
      flags := CpuToBe32(fl);
      width := CpuToBe32(w);
      height := CpuToBe32(h);
      stride := CpuToBe32(st);
      StoredRecord(fbAddr, fc, fl, w, h, st);
    }
  }

  /** "etc/ramfb" in ASCII. */
  const RamfbFileName: seq<u8> := [0x65, 0x74, 0x63, 0x2f, 0x72, 0x61, 0x6d, 0x66, 0x62]

  datatype RamfbOutcome =
    | Configured(control: bv32, length: nat, record: seq<u8>)
    | Panicked(reason: string)

  /** ramfb_init: find "etc/ramfb" in the directory (panic if it is absent),
      fill g_ramfb_cfg, then DMA-write its 28 bytes under the control word
      (sel << 16) | SELECT | WRITE and wait for completion. The directory
      transfers are taken to complete; `controls` is what the final wait
      polls. */
  method RamfbInit(cfg: RamfbCfg, countBe: u32, dir: seq<FileEntry>, fbAddr: u64, controls: seq<u32>)
    returns (r: RamfbOutcome)
    requires Be32ToCpu(countBe) <= |dir| && |controls| == DmaPolls
    modifies cfg
    ensures var n := Be32ToCpu(countBe);
      var i := FindIndex(dir, n, RamfbFileName, 0);
      if i == n then r == Panicked("etc/ramfb not found - use: -device ramfb")
      else match WaitResult(controls, 0)
        case Completed(_) =>
          r == Configured(Control(Be16ToCpu(dir[i].selectBe) as bv16, DmaSelect | DmaWrite), 28, RamfbRecord(fbAddr))
        case Failed(_) => r == Panicked("fw_cfg DMA error")
        case TimedOut => r == Panicked("fw_cfg DMA timeout")
    ensures r.Configured? ==> cfg.Image() == r.record
  {
    var hit := FindFile(RamfbFileName, countBe, dir);
    if hit.NotFound? {
      return Panicked("etc/ramfb not found - use: -device ramfb");
    }
    r := SendConfig(cfg, hit.select, fbAddr, controls);
  }

  /** The part of ramfb_init after the lookup: fill g_ramfb_cfg, DMA-write
      it to selector sel and wait; the wait's result decides the outcome. */
  method SendConfig(cfg: RamfbCfg, sel: u16, fbAddr: u64, controls: seq<u32>) returns (r: RamfbOutcome)
    requires |controls| == DmaPolls
    modifies cfg
    ensures match WaitResult(controls, 0)
      case Completed(_) => r == Configured(Control(sel as bv16, DmaSelect | DmaWrite), 28, RamfbRecord(fbAddr))
      case Failed(_) => r == Panicked("fw_cfg DMA error")
      case TimedOut => r == Panicked("fw_cfg DMA timeout")
    ensures cfg.Image() == RamfbRecord(fbAddr)
  {
    cfg.Build(fbAddr);
    var ctl := Control(sel as bv16, DmaSelect | DmaWrite);
    var w := DmaWait(controls);
    match w {
      case Completed(_) => r := Configured(ctl, 28, cfg.Image());
      case Failed(_) => r := Panicked("fw_cfg DMA error");
      case TimedOut => r := Panicked("fw_cfg DMA timeout");
    }
  }
}
