# Heat2D bare-metal drivers and fixed-point engine, modelled in Dafny

This project models the integer core of a set of bare-metal heat-diffusion demos.

- **virtio-gpu guest driver, two builds.** `metal/Heat2D_virt_gpu.cpp` finds the device among 64 virtio-mmio slots and supports both the legacy and the modern transport. `metal/Heat2D_virt.cpp` uses the first slot and needs the modern transport. Both drivers, following the OASIS VIRTIO 1.1 standard:
  - perform the device-status handshake (sections 2.1 and 3.1);
  - register one split virtqueue of 16 descriptors (sections 2.6 and 4.2);
  - manage the descriptor free list;
  - submit two-descriptor OUT/IN chains and poll the used index;
  - run the 2D GPU bring-up (display info, create 2D, attach backing, set scanout) and the present cycle (transfer, flush) (section 5.7).
- **Fixed-point engine of the UEFI build (`Heat2D.c`).**
  - Q16.16 clamping and colour-table index;
  - GOP pixel packing, including bit-mask formats;
  - the three boundary modes;
  - max-stamping of disks and rectangles;
  - clipped rectangle, cursor and 8x8 glyph drawing;
  - the copper heatsink mask and harmonic face conductivities;
  - the stencil update with its A/B swap;
  - key handling and the pointer-position logic.
- **ramfb build (`metal/Heat2D_ramfb.cpp`).**
  - byte swaps, `memcpy` and `memset`;
  - XRGB packing and the DRM fourcc;
  - the fw_cfg file-name match and DMA control words;
  - the DMA completion rule;
  - the big-endian ramfb configuration record.
- **Matrix kernel (`matrix-mul/kernel.c`).** The linear congruential generator and the signed decimal printer.
- **Rust hello world (`hello.world/rust/src/main.rs`).** The CR/LF-translating `uart_puts` and the u64 decimal printer.

## How the hardware is modelled

- **Register reads** come from the environment, as a function `Regs` from addresses to 32-bit values.
- **Register stores** are appended to a trace `seq<MmioWrite>` held by each driver object. Properties of the handshake and queue registration are lemmas about that trace.
- **Publication order.** The queue keeps a log of ring events: descriptor writes, the ring entry, each barrier, the avail-index store and the doorbell. The ordering the source relies on is stated over this log.
- **The device's side of a request** is a `DeviceAnswer`: the successive values of `used.idx` the driver reads while polling, and the response type the device wrote.
  - If no value in the sequence differs from `used_last`, the submit ends as `Hung`. The source would spin forever in that case.
  - Every `while(1){}` halt of the source is a `Halted` outcome carrying its reason.
- **Descriptor table and free list.** The descriptor table is an `array<Desc>` of the class `Virtqueue.Queue`, and so is the avail ring. The free list is tied to the table by a ghost sequence `free`: the order in which the free slots are linked from `free_head`.
- **Heat grids.** They are `array2` values, row `j` and column `i`. For grids of at least 3 by 3, the source's flat index `j*NX + i` addresses the same cell. Integer widths are explicit: `u16`, `u32`, `i32` and `i64` are subset types, and a UINT32 product that can wrap is written modulo 2^32.

## Model

| member | source | states |
|---|---|---|
| Mmio.StatusStepsValues | metal/Heat2D_virt_gpu.cpp:40 | the handshake status values are 0, 1, 3, 11, 15; each keeps every bit of the ones before; FAILED is never among them |
| Mmio.HandshakeStatuses | metal/Heat2D_virt_gpu.cpp:222-224 | reset, ACKNOWLEDGE, ACKNOWLEDGE\|DRIVER store 0, 1, 3 to the status register |
| Mmio.Set64 | metal/Heat2D_virt.cpp:209-216 | set64 is two stores, the low word to the low register and then the high word to the high register, with low + high * 2^32 equal to the value |
| Mmio.WritesToAppend | metal/Heat2D_virt_gpu.cpp:4 | the stores to one register in a concatenated trace are those of each part, in order |
| VringLayout.AlignUpLeastMultiple | metal/Heat2D_virt_gpu.cpp:45 | for a power-of-two alignment a, align_up(x, a) is the least multiple of a that is at least x |
| VringLayout.AlignUpRoundsDown | metal/Heat2D_virt_gpu.cpp:45 | align_up's `(x + a - 1) & ~(a - 1)` equals rounding x + a - 1 down to a multiple of a |
| VringLayout.RingSizes | metal/Heat2D_virt_gpu.cpp:51-54 | DESC_BYTES = 256, AVAIL_BYTES = 38, USED_BYTES = 134, the used ring at offset align_up(294, 4096) = 4096, VRING_BYTES = 8192 |
| VringLayout.PtrsFromBase | metal/Heat2D_virt_gpu.cpp:90-102 | ring_ptrs_from_base places the descriptor table at the base |
| VringLayout.RingPartsDisjoint | metal/Heat2D_virt_gpu.cpp:90-102 | the avail ring starts right after the 256 descriptor bytes and ends before the used ring, which ends inside the 8192-byte region |
| VringLayout.LegacyLayoutAgrees | metal/Heat2D_virt_gpu.cpp:251-253 | for page-aligned ring memory, the pointers the driver computes equal the layout a legacy device derives from the PFN, QUEUE_NUM 16 and alignment 4096 |
| VringLayout.ModernAvailMisplaced | metal/Heat2D_virt_gpu.cpp:244-247 | with page-aligned areas, the driver's avail pointer (desc_v2 + 256) is never the avail area registered with the device |
| VringLayout.ModernPtrs | metal/Heat2D_virt_gpu.cpp:246-248 | corrected modern pointers: the descriptor, avail and used pointers are the three registered areas |
| VringLayout.ModernPtrsRegistered | metal/Heat2D_virt_gpu.cpp:94-101 | with the corrected pointers, the idx fields sit 2 bytes and the rings 4 bytes into the registered avail and used areas |
| VringLayout.Set64Words | metal/Heat2D_virt.cpp:210-211 | `(uint32_t)(v & 0xffffffff)` and `(uint32_t)(v >> 32)` recombine to v |
| VringLayout.LowBits | metal/Heat2D_virt.cpp:210 | masking with 2^k - 1 is reduction modulo 2^k |
| Virtqueue.FreeListPop | metal/Heat2D_virt_gpu.cpp:114-119 | popping a well-formed free list yields its first slot and leaves a well-formed list of the rest headed by that slot's next |
| Virtqueue.FreeListPush | metal/Heat2D_virt_gpu.cpp:124-126 | linking a slot that is not free in front of the head, with flags 0, gives a well-formed free list one longer |
| Virtqueue.FreeListFrame | metal/Heat2D_virt_gpu.cpp:137-145 | writing a descriptor that is not on the free list keeps the free list well-formed |
| Virtqueue.InitialFreeList | metal/Heat2D_virt_gpu.cpp:104-108 | the table 0 -> 1 -> ... -> 15 -> 0xffff with every flags field 0 is the well-formed free list of all 16 slots in order |
| Virtqueue.HasNextIsLowBit | metal/Heat2D_virt_gpu.cpp:123 | `flags & VRING_DESC_F_NEXT` is the low bit; NEXT has it, WRITE and 0 do not |
| Virtqueue.FirstAdvance | metal/Heat2D_virt_gpu.cpp:155 | the first poll that differs from used_last: every earlier poll equals it and the one found differs |
| Virtqueue.FirstAdvanceUnique | metal/Heat2D_virt_gpu.cpp:155 | FirstAdvance is the only index with that characterisation |
| Virtqueue.DoorbellValue | metal/Heat2D_virt_gpu.cpp:131 | the virt_gpu build always writes 0 to QUEUE_NOTIFY; the virt build writes the queue index there (metal/Heat2D_virt.cpp:258) |
| Virtqueue.PublishOrder | metal/Heat2D_virt.cpp:279-284 | in both builds the ring entry is stored, then a barrier, then the avail index, then a barrier, then the doorbell |
| Virtqueue.PublishDoorbellLast | metal/Heat2D_virt_gpu.cpp:147-152 | the doorbell is the last event of a publication and occurs only there |
| Virtqueue.PublishEntryFirst | metal/Heat2D_virt_gpu.cpp:147-148 | the ring entry is the first event of a publication and no other entry is written |
| Virtqueue.SlotsFollowIndex | metal/Heat2D_virt_gpu.cpp:148-150 | the ring slot of the 16-bit index a + 1 is the slot after that of a, modulo 16 |
| Virtqueue.SubmitKeepsFreeSlots | metal/Heat2D_virt_gpu.cpp:135-174 | after two pops and freeing the chain, the free list holds the same slots as before, the two swapped at its front |
| Virtqueue.ChainStep | metal/Heat2D_virt_gpu.cpp:120-129 | one step of free_chain's walk keeps the freed prefix reversed in front of the old free list and never frees a slot twice |
| Virtqueue.Queue.constructor | metal/Heat2D_virt.cpp:114-119 | a zeroed 16-entry table and avail ring, all indices 0 |
| Virtqueue.Queue.InitFreeList | metal/Heat2D_virt_gpu.cpp:104-112 | freelist_init (and virt.cpp 221-234 with `clear`): every slot linked to the next, the last to 0xffff, flags 0, free_head 0, avail and used flags and idx 0, used_last 0, free list all slots in order; addr and len zeroed exactly when `clear` |
| Virtqueue.Queue.LinkTable | metal/Heat2D_virt.cpp:222-228 | the initialisation loop links slot i to i + 1, the last to 0xffff, clears flags and (for the virt build) addr and len |
| Virtqueue.Queue.AllocDesc | metal/Heat2D_virt_gpu.cpp:114-119 | on an empty list halts with OutOfDescriptors and changes nothing; otherwise returns the old head, which was the first free slot, and moves free_head to its next |
| Virtqueue.Queue.WriteChain | metal/Heat2D_virt_gpu.cpp:137-145 | d0 becomes (out buffer, NEXT, next d1) and d1 (in buffer, WRITE, next 0); nothing else changes; [d0, d1] is a chain |
| Virtqueue.Queue.Notify | metal/Heat2D_virt.cpp:256-259 | a barrier, then the doorbell store |
| Virtqueue.Queue.Publish | metal/Heat2D_virt_gpu.cpp:147-152 | avail_ring[a mod 16] = head, avail idx = a + 1 mod 2^16, and the events of the ordered publication |
| Virtqueue.Queue.WaitUsed | metal/Heat2D_virt_gpu.cpp:155-168 | served exactly when some poll differs from used_last; then used_last advances by exactly one mod 2^16; otherwise nothing changes |
| Virtqueue.Queue.PushFree | metal/Heat2D_virt_gpu.cpp:124-126 | the slot is linked in front of the free list with flags 0 and becomes free_head |
| Virtqueue.Queue.FreeChain | metal/Heat2D_virt_gpu.cpp:120-130 | walking NEXT links, every slot of the chain is pushed on the free list (the list becomes the reversed chain followed by the old list); other slots and all addr/len fields are unchanged |
| Virtqueue.Queue.PostChain | metal/Heat2D_virt.cpp:266-284 | halts with OutOfDescriptors exactly when fewer than two slots are free; otherwise takes the first two free slots as d0 and d1, writes the chain and publishes d0 |
| Virtqueue.Queue.Reclaim | metal/Heat2D_virt.cpp:287-298 | when the used index advances, used_last advances by one and d1, d0 are pushed back on the free list; other slots unchanged |
| Virtqueue.Queue.Submit | metal/Heat2D_virt_gpu.cpp:134-175 | submit_out_in: halts exactly when fewer than two slots are free; hangs exactly when no poll advances; on success returns the device's response type, leaves the same free slots with the two swapped in front, sets the ring entry, avail idx + 1 and used_last + 1, with the ordered event log and only d0/d1 changed |
| VirtGpuDriver.FirstMatch | metal/Heat2D_virt_gpu.cpp:80-84 | the first slot from `from` on with magic "virt" and the wanted device id; every earlier slot fails |
| VirtGpuDriver.DevBaseFirst | metal/Heat2D_virt_gpu.cpp:79-86 | 0 exactly when no slot of the 64 matches; otherwise MMIO_BASE + i * 0x200 for the least matching i |
| VirtGpuDriver.FindDev | metal/Heat2D_virt_gpu.cpp:79-86 | the loop of find_dev returns DevBase and only reads |
| VirtGpuDriver.FirstMatchIs | metal/Heat2D_virt_gpu.cpp:80-84 | a matching slot with no earlier match is the one find_dev picks |
| VirtGpuDriver.PutU32 | metal/Heat2D_virt_gpu.cpp:15 | uart_put_u32 emits the canonical decimal numeral of v, which spells v |
| VirtGpuDriver.FillU32 | metal/Heat2D_virt_gpu.cpp:15 | the digit loop leaves at most 10 digits, least significant first, that reversed are the decimal numeral |
| VirtGpuDriver.U32Digits | metal/Heat2D_virt_gpu.cpp:15 | a u32 has at most 10 decimal digits, so the `i<10` bound never cuts a number |
| VirtGpuDriver.PutHex64 | metal/Heat2D_virt_gpu.cpp:16 | uart_put_hex64 emits "0x" and 16 lower-case hex digits, most significant first, that spell v |
| VirtGpuDriver.Nibble | metal/Heat2D_virt_gpu.cpp:16 | `(v >> (i*4)) & 0xF` is digit i of v in base 16 |
| VirtGpuDriver.Hex64RoundTrip | metal/Heat2D_virt_gpu.cpp:16 | reading the 16 emitted digits back gives v |
| VirtGpuDriver.DriverRings | metal/Heat2D_virt_gpu.cpp:243-251 | the driver's rings start at desc_v2 for a modern device and at vring_mem for a legacy one |
| VirtGpuDriver.InitStatuses | metal/Heat2D_virt_gpu.cpp:222-258 | a successful bring-up stores exactly 0, 1, 3, 11, 15 to status, each a superset of the one before |
| VirtGpuDriver.NegotiateStatuses | metal/Heat2D_virt_gpu.cpp:222-234 | before the queue is set up the status goes 0, 1, 3, 11 |
| VirtGpuDriver.DriverOkLast | metal/Heat2D_virt_gpu.cpp:258 | DRIVER_OK (15) is the last store of the bring-up and no earlier status store has DRIVER_OK |
| VirtGpuDriver.QueueNumFirst | metal/Heat2D_virt_gpu.cpp:237-241 | QUEUE_SEL 0 and QUEUE_NUM 16 are stored before any ring address register |
| VirtGpuDriver.LegacyRegistration | metal/Heat2D_virt_gpu.cpp:250-254 | on a legacy device: QUEUE_NUM 16, QUEUE_ALIGN 4096, QUEUE_PFN vring_mem / 4096, and no modern queue register |
| VirtGpuDriver.LegacyDeviceView | metal/Heat2D_virt_gpu.cpp:251-253 | the legacy device, from the registers stored, derives exactly the ring pointers the driver uses |
| VirtGpuDriver.ModernRegistration | metal/Heat2D_virt_gpu.cpp:243-249 | on a modern device: QUEUE_NUM 16, QUEUE_READY 1, no PFN or ALIGN, and the three address pairs read back as the three areas |
| VirtGpuDriver.ModernSetup | metal/Heat2D_virt_gpu.cpp:241-249 | the modern queue setup is 8 stores with each address pair recombining to its area |
| VirtGpuDriver.ModernSetupControl | metal/Heat2D_virt_gpu.cpp:241-249 | the modern setup stores QUEUE_NUM 16 and QUEUE_READY 1 and no legacy register |
| VirtGpuDriver.ModernSetupAddrs | metal/Heat2D_virt_gpu.cpp:245-248 | the desc, avail and used register pairs hold the low and high words of the three areas |
| VirtGpuDriver.OnlyInSetup | metal/Heat2D_virt_gpu.cpp:236-254 | queue registers are stored only during queue setup |
| VirtGpuDriver.ModernAvailAsWritten | metal/Heat2D_virt_gpu.cpp:244-247 | as written, the device is given avail_v2_mem while the driver's avail pointer lies elsewhere |
| VirtGpuDriver.ModernRingsFixed | metal/Heat2D_virt_gpu.cpp:243-248 | with the corrected pointers, the device reads each ring where the driver writes it |
| VirtGpuDriver.Driver.constructor | metal/Heat2D_virt_gpu.cpp:61-73 | no device, version 0, empty trace, null ring pointers |
| VirtGpuDriver.Driver.Store | metal/Heat2D_virt_gpu.cpp:4 | a register store appends one write at dev_base + reg |
| VirtGpuDriver.Driver.Store64 | metal/Heat2D_virt_gpu.cpp:245 | the set64 lambda appends the two word stores |
| VirtGpuDriver.Driver.Negotiation | metal/Heat2D_virt_gpu.cpp:222-237 | the status handshake, feature word 0 set to 0, guest page size, FEATURES_OK and QUEUE_SEL 0 |
| VirtGpuDriver.Driver.SetupQueue | metal/Heat2D_virt_gpu.cpp:241-254 | the queue setup stores of the device's version, and the driver's ring pointers |
| VirtGpuDriver.Driver.Init | metal/Heat2D_virt_gpu.cpp:214-276 | virtio_gpu_init: halts NoDevice with no stores when find_dev fails; halts QueueTooSmall after the negotiation stores when QUEUE_NUM_MAX < 16; otherwise the full store trace and the outcome of the four-command bring-up, leaving the free list intact and both indices at 4 |
| VirtGpuDriver.Driver.Transport | metal/Heat2D_virt_gpu.cpp:222-258 | the transport part of init: succeeds exactly when QUEUE_NUM_MAX >= 16, with its store trace, ring pointers and a fresh free list |
| VirtGpuDriver.Driver.Present | metal/Heat2D_virt_gpu.cpp:278-285 | gpu_present: the outcome of transfer then flush; on success the free slots are the same and used_last advanced by 2 |
| VirtDriver.Admit | metal/Heat2D_virt.cpp:333-338 | proceeds exactly when magic is 0x74726976 and version >= 2; BadMagic exactly on a wrong magic, OldVersion exactly on a good magic and version < 2 |
| VirtDriver.DeviceIdIgnored | metal/Heat2D_virt.cpp:335-338 | the device id register has no influence on the admission decision |
| VirtDriver.InitStatuses | metal/Heat2D_virt.cpp:341-357 | status goes 0, 1, 3, 11, 15, cumulatively |
| VirtDriver.NegotiateStatuses | metal/Heat2D_virt.cpp:341-351 | before queue init the status goes 0, 1, 3, 11 |
| VirtDriver.NoFeatures | metal/Heat2D_virt.cpp:346-349 | DRIVER_FEAT_SEL is given 0 then 1 |
| VirtDriver.FeatureStores | metal/Heat2D_virt.cpp:346-349 | feature words 0 and 1 are both written as 0 |
| VirtDriver.Registration | metal/Heat2D_virt.cpp:199-218 | QUEUE_SEL 0, QUEUE_NUM 16, QUEUE_READY 1, no legacy register, and the address pairs read back as the three areas |
| VirtDriver.OnlyInQueueInit | metal/Heat2D_virt.cpp:355 | queue registers are stored only by virtio_queue_init |
| VirtDriver.QueueInitControl | metal/Heat2D_virt.cpp:200-218 | queue init is 9 stores: QUEUE_SEL, QUEUE_NUM 16, three address pairs, QUEUE_READY 1 |
| VirtDriver.QueueInitNoLegacy | metal/Heat2D_virt.cpp:199-235 | queue init never stores guest page size, PFN or ALIGN |
| VirtDriver.QueueInitAddrs | metal/Heat2D_virt.cpp:214-216 | each address pair holds the low and high words of its area |
| VirtDriver.QueueOrder | metal/Heat2D_virt.cpp:206-218 | QUEUE_NUM 16 precedes every address store, QUEUE_READY follows them, then DRIVER_OK |
| VirtDriver.DriverOkLast | metal/Heat2D_virt.cpp:357 | DRIVER_OK is the last store and no earlier status store has it |
| VirtDriver.Driver.constructor | metal/Heat2D_virt.cpp:114-119 | an empty store trace over the given queue |
| VirtDriver.Driver.Store | metal/Heat2D_virt.cpp:9 | a register store appends one write |
| VirtDriver.Driver.Store64 | metal/Heat2D_virt.cpp:209-212 | set64 appends the two word stores |
| VirtDriver.Driver.QueueInit | metal/Heat2D_virt.cpp:199-235 | halts after QUEUE_SEL exactly when QUEUE_NUM_MAX < 16; otherwise the queue stores, all descriptors zeroed and linked, free_head 0, avail/used flags and idx and used_last 0 |
| VirtDriver.Driver.Negotiation | metal/Heat2D_virt.cpp:341-351 | reset, ACK, DRIVER, both feature words 0, FEATURES_OK |
| VirtDriver.Driver.Transport | metal/Heat2D_virt.cpp:341-357 | succeeds exactly when QUEUE_NUM_MAX >= 16, with the whole store trace and a fresh free list |
| VirtDriver.Driver.Init | metal/Heat2D_virt.cpp:331-389 | virtio_gpu_init_800x600: the admission halts with no stores; QueueTooSmall after the negotiation and QUEUE_SEL; otherwise the full trace and the outcome of the four-command bring-up |
| VirtDriver.Driver.PresentFull | metal/Heat2D_virt.cpp:392-405 | gpu_present_full: the outcome of transfer then flush; the free slots are kept and used_last advances by 2 |
| GpuProto.Pack | metal/Heat2D_virt.cpp:135-196 | packing little-endian fields gives as many bytes as the field widths sum to |
| GpuProto.UnpackPack | metal/Heat2D_virt.cpp:135-196 | unpacking packed fields gives back each value truncated to its width |
| GpuProto.EncodeSize | metal/Heat2D_virt_gpu.cpp:190-197 | the encoding of each command is exactly the size of its packed struct |
| GpuProto.DecodeEncode | metal/Heat2D_virt_gpu.cpp:190-197 | decoding the encoding of any command gives the command back |
| GpuProto.EncodeInjective | metal/Heat2D_virt_gpu.cpp:190-197 | two commands with the same wire bytes are the same command |
| GpuProto.RespTypeOfHeader | metal/Heat2D_virt.cpp:293-296 | the response type read from the in-buffer is the `type` field of its header |
| GpuProto.DisplayRespLen | metal/Heat2D_virt_gpu.cpp:208 | the display-info response buffer is 256 bytes in the virt_gpu build and 408 in the virt build |
| GpuProto.DisplayRespRoom | metal/Heat2D_virt.cpp:189-196 | only the virt build's buffer holds a whole 408-byte display-info response |
| GpuProto.BringUp | metal/Heat2D_virt_gpu.cpp:260-275 | the bring-up is four requests |
| GpuProto.BringUpConsistent | metal/Heat2D_virt_gpu.cpp:260-275 | GET_DISPLAY_INFO expecting 0x1101, then CREATE_2D (fmt 1), ATTACH_BACKING (1 entry at the framebuffer, width * height * 4 bytes) and SET_SCANOUT at (0, 0) of the created size, all for one resource id and each expecting 0x1100 with a 24-byte response |
| GpuProto.Present | metal/Heat2D_virt_gpu.cpp:278-285 | the present cycle is two requests |
| GpuProto.PresentMatchesScanout | metal/Heat2D_virt.cpp:392-405 | TRANSFER_TO_HOST_2D (offset 0) then RESOURCE_FLUSH, both over the scanout rectangle and resource, each expecting 0x1100 |
| GpuProto.ScriptOkIff | metal/Heat2D_virt.cpp:322-329 | a request script succeeds exactly when two descriptors are free and, for every request, the device advances the used index and answers the expected type |
| GpuProto.Expect | metal/Heat2D_virt_gpu.cpp:210-212 | expect passes exactly when the got and wanted types are equal, and halts otherwise |
| GpuProto.Send | metal/Heat2D_virt.cpp:322-329 | gpu_send: the outcome of one request; on success the same free slots and both indices one further |
| GpuProto.SendAll | metal/Heat2D_virt.cpp:359-389 | a sequence of gpu_send calls: the script outcome; on success the same free slots and both indices advanced by the script length |
| Pixels.Clamp | Heat2D.c:43-47 | ClampI32: within [lo, hi] when lo <= hi, v itself when inside, lo below lo, hi above hi (the lower test first) |
| Pixels.ClampMonotone | Heat2D.c:43-47 | clamping preserves order |
| Pixels.Scale8ToMask | Heat2D.c:49-71 | the two loops of Scale8ToMask compute Scale8ToMaskValue: the channel scaled into the mask's lowest run of ones, with the UINT32 product, shifted and masked |
| Pixels.ScaleInMask | Heat2D.c:49-71 | no bit outside the mask is ever set |
| Pixels.ScaleOfZero | Heat2D.c:50 | c = 0 and mask = 0 both give 0 |
| Pixels.ScaleByteField | Heat2D.c:49-71 | for an 8-bit field at shift s <= 24 the result is c << s |
| Pixels.ScaleWideFieldWraps | Heat2D.c:69 | as written, c = 255 in the 25-bit field 0x1FFFFFF gives 16711422, not the field maximum |
| Pixels.Scale8ToMaskWide | Heat2D.c:68-70 | corrected with a 64-bit product: stays within the mask and gives 0 for c = 0 |
| Pixels.ScaleWideFull | Heat2D.c:68-70 | corrected: full intensity fills a low field of any width |
| Pixels.ScaleNarrowAgrees | Heat2D.c:68-70 | for fields of at most 24 bits, the as-written and corrected values agree |
| Pixels.PackPixel | Heat2D.c:73-90 | RGB-reserved format: bytes r, g, b, 0xFF from least significant up; BGR and unknown formats: b, g, r, 0xFF; bit-mask format: no bit outside the union of the masks, and every reserved bit set |
| Pixels.PackMasked | Heat2D.c:80-85 | the OR of the scaled channels stays inside the mask union and includes the reserved bits |
| Pixels.PackBitMaskChannels | Heat2D.c:79-86 | with pairwise disjoint masks, each channel's field of the packed pixel holds exactly that channel's scaled value |
| Pixels.LutIndex | Heat2D.c:130-137 | the colour index lies in [0, 255], is 0 for t <= 0 and 255 for t >= 65536 |
| Pixels.LutIndexRounds | Heat2D.c:136 | for t in [0, 65536] the index is t * 255 / 65536 rounded to nearest |
| Pixels.LutIndexMonotone | Heat2D.c:130-137 | a hotter temperature never has a lower index |
| HeatField.BoundaryRule | Heat2D.c:145-187 | interior cells keep their value; copies come from interior cells; Dirichlet zeroes exactly the border; Neumann takes each edge cell from its inward neighbour and each corner from its diagonal neighbour; Mixed zeroes exactly the left and right columns, and the other top and bottom cells take the row inward |
| HeatField.BoundaryIdempotent | Heat2D.c:145-187 | a cell a border cell is copied from keeps its own value |
| HeatField.ApplyBoundaryQ16 | Heat2D.c:145-187 | every cell ends with the value its boundary rule names from the grid before the call |
| HeatField.ZeroBorder | Heat2D.c:148-154 | Dirichlet: border cells 0, others unchanged |
| HeatField.InsulateBorder | Heat2D.c:155-170 | Neumann: each cell takes the old value of its inward cell |
| HeatField.MixedBorder | Heat2D.c:171-186 | Mixed: left and right columns 0, others take the old value of the row inward |
| HeatField.StampDiskQ16 | Heat2D.c:190-207 | cells of the disk inside the grid become max(old, val); others unchanged; no cell decreases |
| HeatField.DiskBoxCovers | Heat2D.c:193-203 | the clamped bounding box loses no grid cell of the disk |
| HeatField.StampRectMaxQ16 | Heat2D.c:209-224 | cells of the clamped box become max(old, val); others unchanged; no cell decreases |
| HeatField.RectInsideExact | Heat2D.c:210-221 | for a rectangle inside the grid the clamped box is exactly the rectangle |
| HeatField.RectRightOfGridStampsEdge | Heat2D.c:210-216 | a rectangle wholly right of the grid still stamps column NX - 1 |
| HeatField.RectBelowGridStampsEdge | Heat2D.c:210-216 | a rectangle wholly below the grid still stamps row NY - 1 |
| HeatField.StencilOut | Heat2D.c:761-786 | the new value of a cell is clamped into [0, 65536] |
| HeatField.StencilMaxPrinciple | Heat2D.c:770-786 | with temperatures in [0, 65536] and face values below 2^16, the new value lies between the least and greatest of the five cells and equals tC + (baseR * flux_sum) >> 16, so the clamp never changes it |
| HeatField.StencilUniform | Heat2D.c:770-786 | a uniform neighbourhood stays at its temperature |
| HeatField.StencilInsulated | Heat2D.c:770-786 | with all four faces 0 a cell keeps its temperature |
| HeatField.FluxI64 | Heat2D.c:770-773 | the INT64 `(k * d) >> 16` is the floor quotient and lies in [-65536, 65536] |
| HeatField.DeltaFits | Heat2D.c:778 | baseR * flux_sum fits INT64 and the shifted delta lies in [-65536, 65536] |
| HeatField.StencilCell | Heat2D.c:756-786 | the interior value the stencil loop writes is a Q16.16 temperature in [0, 65536] |
| HeatField.StencilAt | Heat2D.c:759-786 | the loop body computes StencilCell with INT64 arithmetic |
| HeatField.Stencil | Heat2D.c:756-788 | every interior cell of B gets its stencil value from A; the border of B is unchanged |
| HeatSim.NextMode | Heat2D.c:719 | `(bc + 1) % BC_COUNT` always changes the mode |
| HeatSim.NextModeCycle | Heat2D.c:719 | three presses of 'b' return to the starting mode, two do not |
| HeatSim.SourcesOnBase | Heat2D.c:656-670 | on the 520 by 440 grid the three 48 by 22 sources lie on the base, end on its last row and do not overlap |
| HeatSim.GridCoord | Heat2D.c:736-739 | the grid coordinate of a pointer position is in [0, n - 1] |
| HeatSim.GridCoordCell | Heat2D.c:736-737 | for a position inside the drawn area, the coordinate is the cell containing it |
| HeatSim.DrawExtent | Heat2D.c:680-688 | the drawn extent is between 1 and the screen size |
| HeatSim.HeatState.constructor | Heat2D.c:624-677 | zeroed grids, the comb mask's face conductivities, the source rectangles, Dirichlet mode, not paused, brush radius NX / 70 and full brush temperature |
| HeatSim.HeatState.HandleKey | Heat2D.c:705-730 | Esc quits; space toggles pause; r clears both grids, c clears A; b advances the mode; +/= and -/_ move the radius by 2 within [2, NX / 8]; 1, 2, 3 set the brush temperature; dirty is set exactly on a known key |
| HeatSim.HeatState.Brush | Heat2D.c:741-743 | a press stamps the brush disk at maximum brush temperature and sets dirty |
| HeatSim.HeatState.StampSources | Heat2D.c:751-753 | the three source rectangles are raised to 1.0 and every other cell is unchanged |
| HeatSim.HeatState.Diffuse | Heat2D.c:756-793 | after the stencil, the boundary on B and the swap, each cell of A is 0 or the stencil value of the cell its boundary rule names; the grids are swapped; dirty is set |
| HeatSim.HeatState.Simulate | Heat2D.c:749-794 | when paused nothing changes and dirty keeps its value; otherwise the grids are swapped and each cell of the new A is 0 or, by its boundary rule, the stencil value over the old A with the three sources raised to 1.0, and dirty is set; mode, pause and brush are unchanged |
| HeatSim.HeatState.StampedStencil | Heat2D.c:751-784 | once the sources are stamped, the stencil of each interior cell is the stencil of the earlier grid with the sources raised |
| HeatSim.HeatState.SourceCoreStaysHot | Heat2D.c:751-784 | a cell whose five-cell neighbourhood lies in the sources is exactly 1.0 after the stencil |
| HeatSim.ZeroGrid | Heat2D.c:712-716 | SetMem to zero clears every cell |
| Heatsink.BaseGeom | Heat2D.c:486-520 | the base lies within the grid and ends 10 rows above the bottom |
| Heatsink.FinsOnBase | Heat2D.c:520-548 | every fin cell stands on the base, within its columns and above it |
| Heatsink.DieBelowBase | Heat2D.c:548-560 | the die lies below the base |
| Heatsink.PaintCopper | Heat2D.c:486-500 | cells of the rectangle become copper (Mat 1, k 65535); others unchanged |
| Heatsink.BuildHeatsinkCombMask | Heat2D.c:486-564 | every cell ends as copper (Mat 1, k 65535) exactly when it is in the base, a fin or the die, and as air (Mat 0, k 655) otherwise |
| Heatsink.CombK | Heat2D.c:486-564 | the cell conductivity is copper exactly on copper cells |
| Heatsink.KFaceHarmonic | Heat2D.c:568-573 | KFaceHarmonic_U16 with the UINT32 product: 0 for (0, 0) |
| Heatsink.KFaceSymmetric | Heat2D.c:568-573 | the face value does not depend on the order of the two cells |
| Heatsink.KFaceNoWrap | Heat2D.c:568-573 | when 2 * k0 * k1 < 2^32 the face value is floor(2 k0 k1 / (k0 + k1)), between min and max |
| Heatsink.HarmonicBounds | Heat2D.c:570-572 | the harmonic mean of two naturals lies between them |
| Heatsink.KFaceCopperWraps | Heat2D.c:571 | as written, a copper/copper face wraps and gives 32766 instead of 65535 |
| Heatsink.KFaceHarmonicWide | Heat2D.c:568-573 | corrected with a 64-bit product: floor(2 k0 k1 / (k0 + k1)) |
| Heatsink.KFaceWideSame | Heat2D.c:568-573 | corrected: two equal cells give their own value |
| Heatsink.KFaceAgrees | Heat2D.c:568-573 | without wrap-around the as-written and corrected values agree |
| Heatsink.MaskFaceValues | Heat2D.c:568-573 | on the comb mask, air/air faces are 655, air/copper 1297, copper/copper 32766 |
| Heatsink.PrecomputeFaceK | Heat2D.c:575-586 | Kx is the face value with the right neighbour, 0 in the last column; Ky the face with the cell below, 0 in the last row |
| Heatsink.CombFaceK | Heat2D.c:647-648 | the mask followed by the face precomputation, as fresh grids |
| Drawing.ClipOnScreen | Heat2D.c:229-233 | a clipped pixel is on the screen |
| Drawing.ClipExact | Heat2D.c:229-236 | when the origin is on screen, the clipped box is exactly the rectangle cut at the screen |
| Drawing.DrawRect | Heat2D.c:227-238 | px exactly at the pixels of the clipped rectangle, nothing when the origin is off screen, everything else unchanged |
| Drawing.CursorIsCross | Heat2D.c:240-245 | away from the edges the cursor is the five-pixel horizontal and vertical cross at (x, y) |
| Drawing.DrawCursor | Heat2D.c:240-245 | white exactly on the two clipped cursor bars, everything else unchanged |
| Drawing.FontRows | Heat2D.c:250-285 | every glyph of gFont8 has 8 rows |
| Drawing.GlyphIndex | Heat2D.c:289-291 | the first glyph from i on with the character, or the font size |
| Drawing.FindGlyph8 | Heat2D.c:287-294 | the linear search returns the rows of the upper-cased character's first glyph, or the blank glyph |
| Drawing.GlyphIndexFirst | Heat2D.c:289-291 | a glyph with no earlier one for the character is the one found |
| Drawing.GlyphIndexNone | Heat2D.c:289-293 | a character not in the font is not found |
| Drawing.GlyphRowsFound | Heat2D.c:290 | a found glyph's rows are returned |
| Drawing.GlyphRowsBlank | Heat2D.c:292-293 | an unknown character draws as blank |
| Drawing.GlyphCaseless | Heat2D.c:288 | a lower-case letter draws as its capital |
| Drawing.GlyphBitMsbFirst | Heat2D.c:307 | `bits & (0x80 >> rx)` tests bit 7 - rx: the leftmost pixel is the most significant bit |
| Drawing.DrawGlyphRow | Heat2D.c:304-308 | fg exactly at the set bits of the row on screen, everything else unchanged |
| Drawing.DrawChar8 | Heat2D.c:296-310 | fg exactly at the set glyph pixels that are on screen, everything else unchanged |
| Drawing.PenAfter | Heat2D.c:314-319 | the pen never moves up |
| Drawing.LinePlacements | Heat2D.c:314-319 | on a line without newlines, character k is drawn at x + 8k |
| Drawing.NewlineReturns | Heat2D.c:316 | after a newline the pen is back at column x, ten rows lower |
| Drawing.DrawString8 | Heat2D.c:312-320 | fg exactly at the pixels the placed glyphs cover, everything else unchanged |
| Input.AbsCoord | Heat2D.c:425-440 | the absolute position is on the screen |
| Input.AbsCoordEnds | Heat2D.c:425-440 | the minimum reading maps to 0 and the maximum to screen - 1 |
| Input.AbsCoordMonotone | Heat2D.c:425-440 | a larger reading never gives a smaller position |
| Input.AbsCoordInRange | Heat2D.c:425-440 | in range, the position is (a - min) * (screen - 1) / (max - min) |
| Input.RelDelta | Heat2D.c:455-470 | the relative step of an INT32 motion fits INT32 and is 0 for no motion |
| Input.Poll | Heat2D.c:413-478 | the position stays on screen; an event exactly on press or move; pressed exactly when an absolute button or the relative left button is down |
| Input.AbsPressWins | Heat2D.c:425-448 | a pressed absolute pointer sets the position from the reading and reports a press |
| Input.RelMotionMoves | Heat2D.c:450-476 | relative motion moves the position by the scaled step, clamped to the screen |
| Input.NoInputNoEvent | Heat2D.c:413-478 | with no readings nothing changes and no event is reported |
| Input.RepeatedAbsIdle | Heat2D.c:425-448 | an unchanged absolute reading without buttons reports no second event |
| Input.PointerState.constructor | Heat2D.c:390-411 | InitPointer: centred position, relative scale 8, the absolute ranges from the mode, no last reading |
| Input.PointerState.PollPointer | Heat2D.c:413-478 | the new pointer fields, event and pressed are those of Poll |
| ByteOrder.LeRoundTrip | metal/Heat2D_ramfb.cpp:17-26 | reading back n little-endian bytes gives v modulo 256^n |
| ByteOrder.BeRoundTrip | metal/Heat2D_ramfb.cpp:17-26 | reading back n big-endian bytes gives v modulo 256^n |
| ByteOrder.Bswap | metal/Heat2D_ramfb.cpp:17-19 | a byte swap stays within n bytes |
| ByteOrder.BswapStored | metal/Heat2D_ramfb.cpp:17-19 | a swapped value stored little-endian is the big-endian bytes of the original |
| ByteOrder.BswapInvolution | metal/Heat2D_ramfb.cpp:17-19 | swapping twice gives the value back |
| ByteOrder.Bswap16 | metal/Heat2D_ramfb.cpp:17 | bswap16 stores as the big-endian bytes of v |
| ByteOrder.Bswap32 | metal/Heat2D_ramfb.cpp:18 | bswap32 stores as the big-endian bytes of v |
| ByteOrder.Bswap64 | metal/Heat2D_ramfb.cpp:19 | bswap64 stores as the big-endian bytes of v |
| ByteOrder.BeConversionRoundTrips | metal/Heat2D_ramfb.cpp:21-26 | be*_to_cpu and cpu_to_be* are inverse to each other for 16, 32 and 64 bits |
| MemOps.Memcpy | metal/Heat2D_ramfb.cpp:28-33 | the first n bytes of dst are those of src, the rest unchanged, dst returned |
| MemOps.Memset | metal/Heat2D_ramfb.cpp:34-38 | the first n bytes are c mod 256, the rest unchanged, dst returned |
| Ramfb.PackXrgb | metal/Heat2D_ramfb.cpp:323-325 | the top byte is zero and bytes 2, 1, 0 are r, g, b |
| Ramfb.DrmFormatValue | metal/Heat2D_ramfb.cpp:242-243 | DRM_FORMAT_XRGB8888 is 0x34325258 |
| Ramfb.DrmFourccBytes | metal/Heat2D_ramfb.cpp:242-243 | its little-endian bytes spell "XR24" |
| Ramfb.Control | metal/Heat2D_ramfb.cpp:203-290 | a control word carries the selector in its high half and the flags in its low half |
| Ramfb.ControlWords | metal/Heat2D_ramfb.cpp:144-150 | the directory read is 0x0019000A; the config write is (sel << 16) \| 0x18 and has no error bit |
| Ramfb.CString | metal/Heat2D_ramfb.cpp:195-199 | the bytes before the first NUL |
| Ramfb.NameMatchIsEquality | metal/Heat2D_ramfb.cpp:217-221 | for a name of at most 55 non-NUL bytes, an entry matches exactly when its C string equals the name |
| Ramfb.MatchName | metal/Heat2D_ramfb.cpp:217-221 | the match loop computes the match predicate |
| Ramfb.FindFile | metal/Heat2D_ramfb.cpp:201-228 | not found exactly when none of the `count` entries matches; otherwise the BE-decoded select and size of the first match, the entry at `FindIndex` |
| Ramfb.FindIndexFirst | metal/Heat2D_ramfb.cpp:213-226 | the lookup index is `count` exactly when no entry matches, and otherwise a matching entry with no match before it |
| Ramfb.DmaWait | metal/Heat2D_ramfb.cpp:160-170 | completes at the first poll reading 0, fails at the first nonzero poll with the error bit set, and times out exactly when all 100000 polls are busy; the result is `WaitResult` of the polls |
| Ramfb.WaitResultFirst | metal/Heat2D_ramfb.cpp:160-170 | the wait is decided by its first poll that is not busy: completion when it reads 0, failure when it has the error bit, and a timeout exactly when every poll is busy |
| Ramfb.CpuWordsAt | metal/Heat2D_ramfb.cpp:163 | the word read at poll k is be32_to_cpu of the stored control word k |
| Ramfb.RamfbRecordFields | metal/Heat2D_ramfb.cpp:272-277 | the record holds, big-endian, the framebuffer address, 0x34325258, 0, 800, 600, 3200 |
| Ramfb.RecordFields | metal/Heat2D_ramfb.cpp:233-240 | each field of the packed record reads back big-endian as its value |
| Ramfb.StoredRecord | metal/Heat2D_ramfb.cpp:272-277 | storing the cpu_to_be fields in memory gives the big-endian record |
| Ramfb.RamfbCfg.Image | metal/Heat2D_ramfb.cpp:233-240 | the configuration struct is 28 bytes |
| Ramfb.RamfbCfg.Build | metal/Heat2D_ramfb.cpp:272-277 | filling g_ramfb_cfg gives the ramfb record of the framebuffer address |
| Ramfb.RamfbInit | metal/Heat2D_ramfb.cpp:252-300 | no entry named etc/ramfb: the not-found panic; otherwise, by the final wait, the DMA write with (sel << 16) \| SELECT \| WRITE of the first match and the 28-byte record when it completes, the "fw_cfg DMA error" panic when it fails, the "fw_cfg DMA timeout" panic when it times out |
| Ramfb.SendConfig | metal/Heat2D_ramfb.cpp:272-299 | g_ramfb_cfg holds the ramfb record; the outcome is the configured write, the DMA error panic or the timeout panic, as the wait's result says |
| MatrixKernel.LcgOutput | matrix-mul/kernel.c:52 | my_rand's result is in [0, 32767] |
| MatrixKernel.LcgOutputBits | matrix-mul/kernel.c:52 | it is bits 16 to 30 of the state |
| MatrixKernel.Lcg.constructor | matrix-mul/kernel.c:49 | the state starts at 1 |
| MatrixKernel.Lcg.Rand | matrix-mul/kernel.c:50-53 | the state becomes next * 1103515245 + 12345 mod 2^64, and the result is in [0, 32767] |
| MatrixKernel.SignedRoundTrip | matrix-mul/kernel.c:22-34 | the emitted text is a signed numeral that denotes the value |
| MatrixKernel.PrintInt | matrix-mul/kernel.c:22-34 | "0" for 0; '-' and the digits of -val for a negative value; for a positive value canonical digits spelling it |
| MatrixKernel.FillBuffer | matrix-mul/kernel.c:29-32 | the digit loop leaves at most 19 digits, least significant first |
| MatrixKernel.I64Digits | matrix-mul/kernel.c:25 | a positive long has at most 19 digits, so the 20-byte buffer suffices |
| MatrixKernel.EmitBuffer | matrix-mul/kernel.c:33 | the buffer is emitted in reverse |
| RustHello.Emit | hello.world/rust/src/main.rs:28-33 | LF is emitted as CR LF, any other byte as itself |
| RustHello.Puts | hello.world/rust/src/main.rs:27-34 | uart_puts emits the CR/LF translation of the string |
| RustHello.CrLfRoundTrip | hello.world/rust/src/main.rs:27-34 | removing the inserted CRs gives the input back |
| RustHello.CrLfPrecedes | hello.world/rust/src/main.rs:29-31 | every LF emitted is immediately preceded by CR |
| RustHello.PrintNum | hello.world/rust/src/main.rs:51-70 | print_num emits at most 20 canonical decimal digits spelling n, "0" for 0 |
| RustHello.FillDigits | hello.world/rust/src/main.rs:60-64 | the digit loop leaves at most 20 digits, least significant first |
| RustHello.U64Digits | hello.world/rust/src/main.rs:52 | a u64 has at most 20 digits, so the buffer never overflows |
| RustHello.EmitDigits | hello.world/rust/src/main.rs:66-69 | the buffer is emitted in reverse |
| Numerals.DecimalRoundTrip | metal/Heat2D_virt_gpu.cpp:15 | the decimal numeral of n denotes n |
| Numerals.DecimalCanonical | hello.world/rust/src/main.rs:55-69 | it has no leading zero |
| Numerals.DecimalOfValue | matrix-mul/kernel.c:29-33 | a canonical numeral is the numeral of its value |
| Numerals.DecimalLength | hello.world/rust/src/main.rs:52 | n < 10^k exactly when its numeral has at most k digits |
| Numerals.HexFixedRoundTrip | metal/Heat2D_virt_gpu.cpp:16 | n fixed hex digits denote v modulo 16^n |
| Numerals.HexFixedChars | metal/Heat2D_virt_gpu.cpp:16 | every digit comes from "0123456789abcdef" |

## Left out

- Volatile MMIO accesses, the `dmb`/`dsb`/`isb`/`wfe` barriers, the PL011 UART registers and `uart_init`, and the delay loops are not modelled as hardware. Register reads are an environment function, stores are a trace, and barriers are events in the queue's log.
- What the device does is an environment. Each submit gets the sequence of `used.idx` values the driver reads and the response type of the in-buffer. A sequence in which the index never advances ends the submit as `Hung`; this stands in for the source's unbounded spin.
- The diagnostic watchdog inside the polling loop (metal/Heat2D_virt_gpu.cpp:154-164) only prints, so it is not modelled. Neither is the used-ring entry that is read and discarded (lines 166-167).
- The non-volatile polling of `g_used.idx` in metal/Heat2D_virt.cpp:287 is a compiler concern: the model reads a fresh value at each poll.
- The UART text the drivers print is not modelled, except that `uart_put_u32` and `uart_put_hex64` are modelled as digit sequences.
- Floating-point code is outside the model:
  - the heat simulations, palettes and rendering of the three metal builds;
  - `LerpU8`, `BuildViridisLikeLut` and the float-derived constants of Heat2D.c. The brush temperatures from keys 1 and 2 are the constants the conversions yield.
  - the double-precision matrix multiply of matrix-mul/kernel.c.
- The UEFI protocol calls of Heat2D.c are not modelled. Their results are parameters instead:
  - GOP mode, pixel format and masks;
  - key and pointer readings;
  - `AllocateZeroPool`, whose zeroed grids are the zeroed arrays of the constructor.
- The rendering, legend and footer drawing of `UefiMain` are not modelled. Neither is its out-of-memory path.
- metal/Heat2D.c, metal/Heat2D.cpp, uefi/MemCWrappers.c, hello.world/rust/build.rs and hello.world/c are not part of this model.
- The ramfb build's DMA transfer stores (`fwcfg_dma_transfer`) and the hex dump of the record are not modelled. The selector and length of each transfer are given as results of `Ramfb.RamfbInit`.
- Ramfb.FindFile / Ramfb.RamfbInit: the count read and every directory-entry read go through `fwcfg_dma_wait` (metal/Heat2D_ramfb.cpp:203-204 and 214), which can panic with "fw_cfg DMA error" or "fw_cfg DMA timeout". The model takes these directory reads to complete; only the wait of the final configuration write is modelled.
- RustHello.Puts: the argument is the byte sequence `s.bytes()` of the `&str`, one char per byte; the UTF-8 encoding that turns a non-ASCII character into 2 to 4 bytes is not modelled. The CR/LF rule is per byte and unaffected.
- HeatField.StampDiskQ16 / HeatField.StampRectMaxQ16: the coordinates, radius and sizes are unbounded integers, so the INT32 overflow of `cx - rad`, `x0 + w - 1` or `dx*dx + dy*dy` is not modelled. The callers pass grid cells clamped to the grid, a radius within [2, NX / 8] and the fixed source rectangles, which stay far from that range.
- MatrixKernel.PrintInt: requires val != LONG_MIN, because negating LONG_MIN overflows in C and the source's behaviour there is undefined.
- Virtqueue.Queue.Submit: the descriptor writes of the chain produce no barrier events of their own. The log holds only the publication: in metal/Heat2D_virt_gpu.cpp the ring entry, a barrier, the index and two barriers before the doorbell (three barriers); in metal/Heat2D_virt.cpp the ring entry, a barrier, the index and one barrier before the doorbell (two barriers).
- VirtGpuDriver.Driver.Init: the outcome of the four GPU requests is stated through `GpuProto.ScriptOutcome` rather than as a trace of ring-memory writes.
- Differences from the written description of the system, where the model follows the code:
  - In metal/Heat2D_virt_gpu.cpp, feature word 1 is never written, even on a modern device (lines 227-228).
  - The same file writes the guest page size on every transport version (line 232), while metal/Heat2D_virt.cpp writes it on none.
  - Neither driver checks a device-error status bit.

## Findings

| source | as written | input that shows it | evidently intended | confidence | as-written member | corrected member |
|---|---|---|---|---|---|---|
| metal/Heat2D_virt_gpu.cpp:244-248 | on a modern device the driver computes its avail and used pointers from `desc_v2` with the legacy layout, but registers `avail_v2_mem` and `used_v2_mem` | any mmio version >= 2 with page-aligned areas: the driver publishes at desc_v2 + 256, the device reads avail_v2_mem | the driver uses the three areas it registers | not executed | VirtGpuDriver.ModernAvailAsWritten | VirtGpuDriver.ModernRingsFixed |
| Heat2D.c:571 | `2u*k0*k1` is computed in UINT32 and wraps | k0 = k1 = 65535 (copper/copper) gives 32766 | a 64-bit product, giving 65535 for two equal cells | not executed | Heatsink.KFaceCopperWraps | Heatsink.KFaceWideSame |
| Heat2D.c:69 | `c * maxVal + 127` is computed in UINT32 and wraps for fields of 25 bits or more | c = 255, mask 0x1FFFFFF gives 16711422 | a 64-bit product, so full intensity fills the field | not executed | Pixels.ScaleWideFieldWraps | Pixels.ScaleWideFull |
