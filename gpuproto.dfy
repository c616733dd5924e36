/** The virtio-gpu command subset both bare-metal drivers speak
    (metal/Heat2D_virt_gpu.cpp, lines 178-212 and 260-284;
    metal/Heat2D_virt.cpp, lines 123-196, 322-329 and 359-405): the packed
    little-endian command structures, the bring-up and present scripts, and
    sending a script over the control queue with a check of every
    response type. The layouts are those of section 5.7.6 of the OASIS
    VIRTIO 1.1 standard (virtio_gpu_ctrl_hdr and the commands after it). */
module GpuProto {
  import opened Bits
  import opened ByteOrder
  import opened Virtqueue

  datatype Option<T> = None | Some(value: T)

  const CmdGetDisplayInfo: u32 := 0x0100
  const CmdResourceCreate2D: u32 := 0x0101
  const CmdSetScanout: u32 := 0x0103
  const CmdResourceFlush: u32 := 0x0104
  const CmdTransferToHost2D: u32 := 0x0105
  const CmdResourceAttachBacking: u32 := 0x0106

  const RespOkNodata: u32 := 0x1100
  const RespOkDisplayInfo: u32 := 0x1101

  /** VIRTIO_GPU_FORMAT_B8G8R8A8_UNORM. */
  const FmtBgra: u32 := 1

  const FbW: u32 := 800
  const FbH: u32 := 600
  const FbBpp: u32 := 4
  const FbSize: u32 := FbW * FbH * FbBpp

  /** The one resource both drivers create. */
  const ResourceId: u32 := 1

  datatype Rect = Rect(x: u32, y: u32, w: u32, h: u32)

  /** A command as the driver fills it in; every field not named here
      (flags, fence_id, ctx_id, padding) is zero because the driver clears
      the structure first. An attach carries its one mem_entry. */
  datatype Cmd =
    | GetDisplayInfo
    | Create2D(rid: u32, fmt: u32, width: u32, height: u32)
    | AttachBacking(rid: u32, entries: u32, addr: u64, len: u32)
    | SetScanout(r: Rect, sid: u32, rid: u32)
    | TransferToHost2D(r: Rect, offset: u64, rid: u32)
    | ResourceFlush(r: Rect, rid: u32)

  function CmdType(c: Cmd): (t: u32)
  {
    match c
    case GetDisplayInfo => CmdGetDisplayInfo
    case Create2D(_, _, _, _) => CmdResourceCreate2D
    case AttachBacking(_, _, _, _) => CmdResourceAttachBacking
    case SetScanout(_, _, _) => CmdSetScanout
    case TransferToHost2D(_, _, _) => CmdTransferToHost2D
    case ResourceFlush(_, _) => CmdResourceFlush
  }

  // ---------------------------------------------------------------------
  // Packed little-endian layout

  function Sum(ws: seq<nat>): nat {
    if ws == [] then 0 else ws[0] + Sum(ws[1..])
  }

  /** The bytes of a packed structure whose fields have the widths ws and
      the values vs: the fields in order, no padding between them, each
      least significant byte first. */
  function Pack(ws: seq<nat>, vs: seq<nat>): (bs: seq<u8>)
    requires |ws| == |vs|
    ensures |bs| == Sum(ws)
  {
    if ws == [] then [] else LeBytes(vs[0], ws[0]) + Pack(ws[1..], vs[1..])
  }

  /** Reading a packed structure of the given field widths: the field
      values, or None when the bytes are not exactly that long. */
  function Unpack(bs: seq<u8>, ws: seq<nat>): (r: Option<seq<nat>>)
    ensures r.Some? ==> |bs| == Sum(ws) && |r.value| == |ws|
    ensures r.Some? ==> forall k :: 0 <= k < |ws| ==> r.value[k] < Pow256(ws[k])
  {
    if ws == [] then (if bs == [] then Some([]) else None)
    else if |bs| < ws[0] then None
    else
      match Unpack(bs[ws[0]..], ws[1..])
      case None => None
      case Some(rest) =>
        FromLeBound(bs[..ws[0]]);
        Some([FromLe(bs[..ws[0]])] + rest)
  }

  /** Each value cut to its field's width: what a C store of it keeps. */
  function Truncated(ws: seq<nat>, vs: seq<nat>): (ts: seq<nat>)
    requires |ws| == |vs|
    ensures |ts| == |ws| && forall k :: 0 <= k < |ws| ==> ts[k] == vs[k] % Pow256(ws[k])
    ensures forall k :: 0 <= k < |ws| ==> ts[k] < Pow256(ws[k])
  {
    if ws == [] then [] else [vs[0] % Pow256(ws[0])] + Truncated(ws[1..], vs[1..])
  }

  /** Unpacking a first field of |head| bytes followed by the rest. */
  lemma UnpackStep(head: seq<u8>, tail: seq<u8>, ws: seq<nat>)
    ensures Unpack(head + tail, [|head|] + ws) ==
      match Unpack(tail, ws)
      case None => None
      case Some(rest) => Some([FromLe(head)] + rest)
  {
    var bs := head + tail;
    assert bs[..|head|] == head && bs[|head|..] == tail;
    assert ([|head|] + ws)[1..] == ws;
  }

  /** Reading back with the same widths gives every value as stored. */
  lemma {:induction false} UnpackPack(ws: seq<nat>, vs: seq<nat>)
    requires |ws| == |vs|
    ensures Unpack(Pack(ws, vs), ws) == Some(Truncated(ws, vs))
  {
    if ws != [] {
      var head := LeBytes(vs[0], ws[0]);
      UnpackPack(ws[1..], vs[1..]);
      LeRoundTrip(vs[0], ws[0]);
      UnpackStep(head, Pack(ws[1..], vs[1..]), ws[1..]);
      assert ws == [|head|] + ws[1..];
    }
  }

  /** virtio_gpu_ctrl_hdr: type, flags, fence_id, ctx_id, padding. */
  const HeaderShape: seq<nat> := [4, 4, 8, 4, 4]

  /** The widths of each structure's fields, after a header of type t, in
      declaration order (the attach structure is followed by its mem_entry:
      addr, length, padding); None for a type this subset does not have. */
  function ShapeOf(t: nat): (ws: Option<seq<nat>>)
  {
    if t == CmdGetDisplayInfo as nat then Some(HeaderShape)
    else if t == CmdResourceCreate2D as nat then Some(Create2DShape)
    else if t == CmdResourceAttachBacking as nat then Some(AttachShape)
    else if t == CmdSetScanout as nat then Some(RectCmdShape)
    else if t == CmdTransferToHost2D as nat then Some(TransferShape)
    else if t == CmdResourceFlush as nat then Some(RectCmdShape)
    else None
  }

  /** Header, then resource_id, format, width, height. */
  const Create2DShape: seq<nat> := [4, 4, 8, 4, 4, 4, 4, 4, 4]
  /** Header, resource_id, nr_entries, then the mem_entry. */
  const AttachShape: seq<nat> := [4, 4, 8, 4, 4, 4, 4, 8, 4, 4]
  /** Header, a rectangle and two 32-bit fields: set_scanout (scanout_id,
      resource_id) and resource_flush (resource_id, padding). */
  const RectCmdShape: seq<nat> := [4, 4, 8, 4, 4, 4, 4, 4, 4, 4, 4]
  /** Header, rectangle, offset, resource_id, padding. */
  const TransferShape: seq<nat> := [4, 4, 8, 4, 4, 4, 4, 4, 4, 8, 4, 4]

  /** The widths of a command's structure. */
  function Shape(c: Cmd): (ws: seq<nat>)
    ensures ShapeOf(CmdType(c)) == Some(ws) && ws[..5] == HeaderShape
  {
    ShapeOf(CmdType(c)).value
  }

  /** The field values, header first; every field not named by the
      command holds 0. */
  function FieldValues(c: Cmd): (vs: seq<nat>)
    ensures |vs| == |Shape(c)| && vs[0] == CmdType(c)
  {
    match c
    case GetDisplayInfo => [CmdGetDisplayInfo, 0, 0, 0, 0]
    case Create2D(rid, fmt, w, h) =>
      [CmdResourceCreate2D, 0, 0, 0, 0, rid, fmt, w, h]
    case AttachBacking(rid, n, addr, len) =>
      [CmdResourceAttachBacking, 0, 0, 0, 0, rid, n, addr, len, 0]
    case SetScanout(r, sid, rid) =>
      [CmdSetScanout, 0, 0, 0, 0, r.x, r.y, r.w, r.h, sid, rid]
    case TransferToHost2D(r, off, rid) =>
      [CmdTransferToHost2D, 0, 0, 0, 0, r.x, r.y, r.w, r.h, off, rid, 0]
    case ResourceFlush(r, rid) =>
      [CmdResourceFlush, 0, 0, 0, 0, r.x, r.y, r.w, r.h, rid, 0]
  }

  /** The bytes the device reads from the command's out-buffer. */
  function Encode(c: Cmd): (bs: seq<u8>)
  {
    Pack(Shape(c), FieldValues(c))
  }

  /** sizeof of each packed structure. */
  function WireSize(c: Cmd): (n: nat)
  {
    match c
    case GetDisplayInfo => 24
    case Create2D(_, _, _, _) => 40
    case AttachBacking(_, _, _, _) => 48
    case SetScanout(_, _, _) => 48
    case TransferToHost2D(_, _, _) => 56
    case ResourceFlush(_, _) => 48
  }

  /** A packed structure starts with the bytes of its first field. */
  lemma PackFirst(ws: seq<nat>, vs: seq<nat>)
    requires |ws| == |vs| && |ws| > 0 && ws[0] == 4 && vs[0] < TWO32
    ensures |Pack(ws, vs)| >= 4 && FromLe(Pack(ws, vs)[..4]) == vs[0]
  {
    var w := ws[0];
    assert Pack(ws, vs)[..w] == LeBytes(vs[0], w);
    LoadStored(vs[0], w);
    ShapeSum(ws);
  }

  /** Loading the bytes of a value that fits gives the value back. */
  lemma LoadStored(v: nat, n: nat)
    requires n == 4 && v < TWO32
    ensures FromLe(LeBytes(v, n)) == v
  {
    LeRoundTrip(v, n);
    Pow256Facts();
  }

  /** Every field is at least one byte wide. */
  lemma {:induction false} ShapeSum(ws: seq<nat>)
    requires |ws| > 0
    ensures Sum(ws) >= ws[0]
  {
    if |ws| > 1 {
      ShapeSum(ws[1..]);
    }
  }

  /** The encoding is exactly sizeof the structure and begins with the
      command type in its first four bytes. */
  lemma EncodeSize(c: Cmd)
    ensures |Encode(c)| == WireSize(c)
    ensures FromLe(Encode(c)[..4]) == CmdType(c)
  {
    PackFirst(Shape(c), FieldValues(c));
    ShapeSize(c);
  }

  /** The widths of each structure add up to its sizeof. */
  lemma ShapeSize(c: Cmd)
    ensures Sum(Shape(c)) == WireSize(c)
  {
    var ws := Shape(c);
    match c
    case GetDisplayInfo => SumHeader(ws);
    case Create2D(_, _, _, _) => SumCreate2D(ws);
    case AttachBacking(_, _, _, _) => SumAttach(ws);
    case SetScanout(_, _, _) => SumRectCmd(ws);
    case TransferToHost2D(_, _, _) => SumTransfer(ws);
    case ResourceFlush(_, _) => SumRectCmd(ws);
  }

  lemma SumHeader(ws: seq<nat>) requires ws == HeaderShape ensures Sum(ws) == 24 {}
  lemma SumCreate2D(ws: seq<nat>) requires ws == Create2DShape ensures Sum(ws) == 40 {}
  lemma SumAttach(ws: seq<nat>) requires ws == AttachShape ensures Sum(ws) == 48 {}
  lemma SumRectCmd(ws: seq<nat>) requires ws == RectCmdShape ensures Sum(ws) == 48 {}
  lemma SumTransfer(ws: seq<nat>) requires ws == TransferShape ensures Sum(ws) == 56 {}

  /** The command a device reads from a buffer: the type from the header,
      then the fields that type has. */
  function Decode(bs: seq<u8>): (r: Option<Cmd>)
  {
    if |bs| < 4 then None
    else
      var t := FromLe(bs[..4]);
      match ShapeOf(t)
      case None => None
      case Some(ws) =>
        match Unpack(bs, ws)
        case None => None
        case Some(vs) => Some(Build(t, ws, vs))
  }

  /** The command of type t from its field values (none of which can
      exceed its field's width). */
  function Build(t: nat, ws: seq<nat>, vs: seq<nat>): (c: Cmd)
    requires ShapeOf(t) == Some(ws) && |vs| == |ws|
    requires forall k :: 0 <= k < |ws| ==> vs[k] < Pow256(ws[k])
  {
    Pow256Facts();
    if t == CmdGetDisplayInfo as nat then GetDisplayInfo
    else if t == CmdResourceCreate2D as nat then Create2D(vs[5], vs[6], vs[7], vs[8])
    else if t == CmdResourceAttachBacking as nat then AttachBacking(vs[5], vs[6], vs[7], vs[8])
    else if t == CmdSetScanout as nat then SetScanout(Rect(vs[5], vs[6], vs[7], vs[8]), vs[9], vs[10])
    else if t == CmdTransferToHost2D as nat then
      TransferToHost2D(Rect(vs[5], vs[6], vs[7], vs[8]), vs[9], vs[10])
    else ResourceFlush(Rect(vs[5], vs[6], vs[7], vs[8]), vs[9])
  }

  /** The device reads back exactly the command the driver wrote. */
  lemma DecodeEncode(c: Cmd)
    ensures Decode(Encode(c)) == Some(c)
  {
    var ws := Shape(c);
    var vs := FieldValues(c);
    var bs := Encode(c);
    EncodeSize(c);
    UnpackPack(ws, vs);
    assert Unpack(bs, ws) == Some(Truncated(ws, vs));
    BuildTruncated(c);
  }

  /** Building a command from its own values, each cut to its width,
      gives the command. */
  lemma BuildTruncated(c: Cmd)
    ensures Build(CmdType(c), Shape(c), Truncated(Shape(c), FieldValues(c))) == c
  {
    match c
    case GetDisplayInfo => BuildGetDisplayInfo(c);
    case Create2D(_, _, _, _) => BuildCreate2D(c);
    case AttachBacking(_, _, _, _) => BuildAttachBacking(c);
    case SetScanout(_, _, _) => BuildSetScanout(c);
    case TransferToHost2D(_, _, _) => BuildTransferToHost2D(c);
    case ResourceFlush(_, _) => BuildResourceFlush(c);
  }

  lemma BuildGetDisplayInfo(c: Cmd)
    requires c.GetDisplayInfo?
    ensures Build(CmdType(c), Shape(c), Truncated(Shape(c), FieldValues(c))) == c
  {
  }

  lemma BuildCreate2D(c: Cmd)
    requires c.Create2D?
    ensures Build(CmdType(c), Shape(c), Truncated(Shape(c), FieldValues(c))) == c
  {
    var ts := Truncated(Shape(c), FieldValues(c));
    var vs := FieldValues(c);
    Pow256Facts();
    assert ts[5] == vs[5] && ts[6] == vs[6] && ts[7] == vs[7] && ts[8] == vs[8];
  }

  lemma BuildAttachBacking(c: Cmd)
    requires c.AttachBacking?
    ensures Build(CmdType(c), Shape(c), Truncated(Shape(c), FieldValues(c))) == c
  {
    var ts := Truncated(Shape(c), FieldValues(c));
    var vs := FieldValues(c);
    Pow256Facts();
    assert ts[5] == vs[5] && ts[6] == vs[6] && ts[7] == vs[7] && ts[8] == vs[8];
  }

  lemma BuildSetScanout(c: Cmd)
    requires c.SetScanout?
    ensures Build(CmdType(c), Shape(c), Truncated(Shape(c), FieldValues(c))) == c
  {
    var ts := Truncated(Shape(c), FieldValues(c));
    var vs := FieldValues(c);
    Pow256Facts();
    assert ts[5] == vs[5] && ts[6] == vs[6] && ts[7] == vs[7] && ts[8] == vs[8];
    assert ts[9] == vs[9] && ts[10] == vs[10];
  }

  lemma BuildTransferToHost2D(c: Cmd)
    requires c.TransferToHost2D?
    ensures Build(CmdType(c), Shape(c), Truncated(Shape(c), FieldValues(c))) == c
  {
    var ts := Truncated(Shape(c), FieldValues(c));
    var vs := FieldValues(c);
    Pow256Facts();
    assert ts[5] == vs[5] && ts[6] == vs[6] && ts[7] == vs[7] && ts[8] == vs[8];
    assert ts[9] == vs[9] && ts[10] == vs[10];
  }

  lemma BuildResourceFlush(c: Cmd)
    requires c.ResourceFlush?
    ensures Build(CmdType(c), Shape(c), Truncated(Shape(c), FieldValues(c))) == c
  {
    var ts := Truncated(Shape(c), FieldValues(c));
    var vs := FieldValues(c);
    Pow256Facts();
    assert ts[5] == vs[5] && ts[6] == vs[6] && ts[7] == vs[7] && ts[8] == vs[8];
    assert ts[9] == vs[9];
  }

  /** Different commands never share an encoding. */
  lemma EncodeInjective(c1: Cmd, c2: Cmd)
    requires Encode(c1) == Encode(c2)
    ensures c1 == c2
  {
    DecodeEncode(c1);
    DecodeEncode(c2);
  }

  /** The response's type: the first field of the header at the start of
      the in-buffer. */
  function RespType(inbuf: seq<u8>): (t: u32)
    requires |inbuf| >= 4
  {
    FromLeBound(inbuf[..4]);
    Pow256Facts();
    FromLe(inbuf[..4])
  }

  /** A response whose header has type t reads as type t, whatever follows
      the header. */
  lemma RespTypeOfHeader(t: u32, rest: seq<u8>)
    ensures |Pack(HeaderShape, [t, 0, 0, 0, 0]) + rest| >= 4
    ensures RespType(Pack(HeaderShape, [t, 0, 0, 0, 0]) + rest) == t
  {
    var hdr := Pack(HeaderShape, [t, 0, 0, 0, 0]);
    PackFirst(HeaderShape, [t, 0, 0, 0, 0]);
    assert (hdr + rest)[..4] == hdr[..4];
  }

  // ---------------------------------------------------------------------
  // The scripts

  /** Where the linker put the static buffers of a driver: the
      framebuffer, one out-buffer per command, the header response buffer
      and the display-info response buffer. */
  datatype Statics = Statics(fb: u64, info: u64, create: u64, attach: u64, scan: u64,
                             xfer: u64, flush: u64, respHdr: u64, respDisp: u64)

  /** One submit_out_in: the command in the out-buffer at `out`, the
      response buffer at `resp` of `respLen` bytes, the response type the
      driver insists on. */
  datatype Request = Request(cmd: Cmd, out: u64, resp: u64, respLen: u32, want: u32)

  /** sizeof(virtio_gpu_resp_display_info): a header and 16 modes of a
      rectangle, enabled and flags. */
  const DisplayInfoBytes: nat := 24 + 16 * 24

  /** The display-info response buffer: `uint8_t resp_disp[256]` in the
      virtio-gpu build, the full structure in the virt build. */
  function DisplayRespLen(b: Build): (n: u32)
    ensures n == (if b == VirtGpu then 256 else 408)
  {
    if b == VirtGpu then 256 else DisplayInfoBytes
  }

  /** Only the virt build gives the device room for the whole display-info
      response; the virtio-gpu build's 256 bytes hold the header and the
      first nine modes. */
  lemma DisplayRespRoom(b: Build)
    ensures DisplayRespLen(b) >= DisplayInfoBytes <==> b == Virt
    ensures DisplayRespLen(b) >= 24 + 9 * 24
  {
  }

  const FullScreen: Rect := Rect(0, 0, FbW, FbH)

  /** GET_DISPLAY_INFO, RESOURCE_CREATE_2D, RESOURCE_ATTACH_BACKING and
      SET_SCANOUT, as virtio_gpu_init and virtio_gpu_init_800x600 send
      them. */
  function BringUp(b: Build, st: Statics): (rs: seq<Request>)
    ensures |rs| == 4
  {
    [Request(GetDisplayInfo, st.info, st.respDisp, DisplayRespLen(b), RespOkDisplayInfo),
     Request(Create2D(ResourceId, FmtBgra, FbW, FbH), st.create, st.respHdr, 24, RespOkNodata),
     Request(AttachBacking(ResourceId, 1, st.fb, FbSize), st.attach, st.respHdr, 24, RespOkNodata),
     Request(SetScanout(FullScreen, 0, ResourceId), st.scan, st.respHdr, 24, RespOkNodata)]
  }

  /** TRANSFER_TO_HOST_2D then RESOURCE_FLUSH of the whole screen, as
      gpu_present and gpu_present_full send them. */
  function Present(st: Statics): (rs: seq<Request>)
    ensures |rs| == 2
  {
    [Request(TransferToHost2D(FullScreen, 0, ResourceId), st.xfer, st.respHdr, 24, RespOkNodata),
     Request(ResourceFlush(FullScreen, ResourceId), st.flush, st.respHdr, 24, RespOkNodata)]
  }

  /** The bring-up describes one consistent scanout: the resource created
      is BGRA and as large as the screen rectangle, its backing is the
      framebuffer with exactly width * height * 4 bytes, the scanout shows
      that resource over that rectangle, and its commands go out in the
      order the device needs (create before attach before scanout). The
      out lengths are sizeof each command (EncodeSize). */
  lemma BringUpConsistent(b: Build, st: Statics)
    ensures var rs := BringUp(b, st);
      rs[0].cmd == GetDisplayInfo && rs[0].want == RespOkDisplayInfo &&
      rs[1].cmd.Create2D? && rs[2].cmd.AttachBacking? && rs[3].cmd.SetScanout? &&
      rs[1].cmd.fmt == FmtBgra &&
      rs[1].cmd.width == rs[3].cmd.r.w && rs[1].cmd.height == rs[3].cmd.r.h &&
      rs[3].cmd.r.x == 0 && rs[3].cmd.r.y == 0 &&
      rs[2].cmd.addr == st.fb && rs[2].cmd.entries == 1 &&
      rs[2].cmd.len == rs[1].cmd.width * rs[1].cmd.height * 4 &&
      rs[1].cmd.rid == rs[2].cmd.rid == rs[3].cmd.rid &&
      WireSize(rs[0].cmd) == 24 && WireSize(rs[1].cmd) == 40 &&
      WireSize(rs[2].cmd) == 48 && WireSize(rs[3].cmd) == 48 &&
      forall k :: 1 <= k < 4 ==> rs[k].want == RespOkNodata && rs[k].respLen == 24
  {
  }

  /** Presenting copies and flushes exactly the resource and rectangle the
      bring-up set up for scanout, from offset 0 of the backing. */
  lemma PresentMatchesScanout(b: Build, st: Statics)
    ensures var up := BringUp(b, st); var pr := Present(st);
      pr[0].cmd.TransferToHost2D? && pr[1].cmd.ResourceFlush? &&
      pr[0].cmd.r == up[3].cmd.r && pr[1].cmd.r == up[3].cmd.r &&
      pr[0].cmd.rid == up[3].cmd.rid && pr[1].cmd.rid == up[3].cmd.rid &&
      pr[0].cmd.offset == 0 && WireSize(pr[0].cmd) == 56 && WireSize(pr[1].cmd) == 48 &&
      pr[0].want == RespOkNodata && pr[1].want == RespOkNodata
  {
  }

  // ---------------------------------------------------------------------
  // Sending a script

  /** What one request comes to: submit_out_in needs two free descriptors
      and a device that completes the chain, then the response type must
      be the one wanted. */
  function StepOutcome(req: Request, a: DeviceAnswer, last: u16, nFree: nat): (r: Outcome<()>)
  {
    if nFree < 2 then Halted(OutOfDescriptors)
    else if FirstAdvance(a.polls, last) == |a.polls| then Hung
    else Expect(a.respType, req.want)
  }

  /** What sending the requests in order comes to: the first request that
      does not succeed decides. */
  function ScriptOutcome(rs: seq<Request>, ans: seq<DeviceAnswer>, last: u16, nFree: nat): (r: Outcome<()>)
    requires |ans| == |rs|
    decreases |rs|
  {
    if rs == [] then Ok(())
    else if !StepOutcome(rs[0], ans[0], last, nFree).Ok? then StepOutcome(rs[0], ans[0], last, nFree)
    else ScriptOutcome(rs[1..], ans[1..], UsedAt(last, 1), nFree)
  }

  /** A script succeeds exactly when there are two free descriptors, the
      device completes every request and every response has the expected
      type. */
  lemma {:induction false} ScriptOkIff(rs: seq<Request>, ans: seq<DeviceAnswer>, last: u16, nFree: nat)
    requires |ans| == |rs|
    ensures ScriptOutcome(rs, ans, last, nFree) == Ok(()) <==>
      (rs == [] || nFree >= 2) &&
      forall k :: 0 <= k < |rs| ==>
        FirstAdvance(ans[k].polls, UsedAt(last, k)) < |ans[k].polls| && ans[k].respType == rs[k].want
    decreases |rs|
  {
    if rs != [] && nFree >= 2 {
      var last' := UsedAt(last, 1);
      ScriptOkIff(rs[1..], ans[1..], last', nFree);
      forall k | 0 <= k < |rs| - 1
        ensures UsedAt(last', k) == UsedAt(last, k + 1)
      {
        ModAdd(last + 1, k);
      }
      assert UsedAt(last, 0) == last;
    }
  }

  /** The used index k completions after `last`, in uint16. */
  function UsedAt(last: u16, k: nat): (u: u16)
  {
    (last + k) % TWO16
  }

  /** Reducing modulo 2^16 before an addition changes nothing. */
  lemma ModAdd(x: nat, y: nat)
    ensures (x % TWO16 + y) % TWO16 == (x + y) % TWO16
  {
    var r := x % TWO16;
    var q := x / TWO16;
    var v := r + y;
    assert v == v / TWO16 * TWO16 + v % TWO16;
    assert x + y == (q + v / TWO16) * TWO16 + v % TWO16;
    Numerals.LemmaModUnique(x + y, TWO16, q + v / TWO16, v % TWO16);
  }

  /** expect / the check in gpu_send: halt unless the response type is the
      one wanted. */
  function Expect(got: u32, want: u32): (r: Outcome<()>)
    ensures r == Ok(()) <==> got == want
  {
    if got == want then Ok(()) else Halted(BadResponse(got, want))
  }

  /** gpu_send in the virt build, submit_out_in followed by expect in the
      virtio-gpu build: one command out, its response back, the response
      type checked. */
  method Send(q: Queue, b: Build, qsel: u32, req: Request, a: DeviceAnswer) returns (r: Outcome<()>)
    requires q.Valid()
    modifies q.desc, q.availRing, q`freeHead, q`free, q`availIdx, q`log, q`usedIdx, q`usedLast
    ensures q.Valid()
    ensures r == StepOutcome(req, a, old(q.usedLast), |old(q.free)|)
    ensures r.Ok? ==> multiset(q.free) == multiset(old(q.free)) && |q.free| == |old(q.free)|
    ensures r.Ok? ==> q.usedLast == UsedAt(old(q.usedLast), 1) && q.availIdx == UsedAt(old(q.availIdx), 1)
  {
    EncodeSize(req.cmd);
    ghost var f := q.free;
    var t := q.Submit(b, qsel, req.out, |Encode(req.cmd)|, req.resp, req.respLen, a);
    if t.Hung? {
      return Hung;
    } else if t.Halted? {
      return Halted(OutOfDescriptors);
    }
    SubmitKeepsFreeSlots(f);
    r := Expect(t.value, req.want);
  }

  /** Sends the requests one by one, as the bring-up and the present
      sequence do; the first failure halts. */
  method SendAll(q: Queue, b: Build, qsel: u32, rs: seq<Request>, ans: seq<DeviceAnswer>)
    returns (r: Outcome<()>)
    requires q.Valid() && |ans| == |rs|
    modifies q.desc, q.availRing, q`freeHead, q`free, q`availIdx, q`log, q`usedIdx, q`usedLast
    ensures q.Valid()
    ensures r == ScriptOutcome(rs, ans, old(q.usedLast), |old(q.free)|)
    ensures r.Ok? ==> multiset(q.free) == multiset(old(q.free))
    ensures r.Ok? ==> q.usedLast == UsedAt(old(q.usedLast), |rs|)
    ensures r.Ok? ==> q.availIdx == UsedAt(old(q.availIdx), |rs|)
  {
    var i := 0;
    ghost var n0 := |q.free|;
    ghost var last0 := q.usedLast;
    ghost var idx0 := q.availIdx;
    while i < |rs|
      invariant 0 <= i <= |rs|
      invariant q.Valid() && |q.free| == n0 && multiset(q.free) == multiset(old(q.free))
      invariant ScriptOutcome(rs, ans, last0, n0) == ScriptOutcome(rs[i..], ans[i..], q.usedLast, n0)
      invariant q.usedLast == UsedAt(last0, i) && q.availIdx == UsedAt(idx0, i)
      decreases |rs| - i
    {
      assert rs[i..][0] == rs[i] && ans[i..][0] == ans[i];
      assert rs[i..][1..] == rs[i + 1..] && ans[i..][1..] == ans[i + 1..];
      var e := Send(q, b, qsel, rs[i], ans[i]);
      if !e.Ok? {
        return e;
      }
      ModAdd(last0 + i, 1);
      ModAdd(idx0 + i, 1);
      i := i + 1;
    }
    r := Ok(());
  }
}
