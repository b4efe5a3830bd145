# Raspberry Pi framebuffer X driver: blit back ends and X hooks, in Dafny

This project models the acceleration core of the xf86-video-rpifb X driver and
proves properties about it. The core has three layers.

- **The CPU back end** (`src/cpu_backend.c`). `twopass_memmove_arm` is a memmove
  for a source in slow, uncached display memory. It fetches 32-byte aligned
  blocks of up to 2048 + 32 bytes into an aligned stack scratch buffer, then
  writes the wanted bytes back. It walks upwards when the source lies above
  the destination and downwards otherwise. `twopass_blt_8bpp_arm` runs it once
  per rectangle row, bottom-up when the rows overlap downwards.
  `overlapped_blt_arm` decides whether to take a blit and converts pixel units
  into bytes. `standard_blt` copies 16 and 32 bpp rows left to right in
  32-byte aligned chunks. When the two sides differ in alignment within a
  word, it shifts and merges half-words. `cpu_backend_init` never installs it
  (`src/cpu_backend.c:653`), so its defects (see Findings) are latent. The back
  end also has always-declining entry points.
- **The display back end** (`src/rpi_disp.c`). `rpi_blt` and `rpi_fill` only
  ever complete empty requests. `rpi_disp_init` and `rpi_disp_close` choose the
  device, check that the primary layer fits the framebuffer, reuse or create
  the mapping, and publish the entry points.
- **The X hooks** (`src/rpi_x.c`).
  - CopyArea and CopyWindow hand each box to a cascade of strategies: the
    primary back end, then the CPU back end, then pixman, then fb.
  - PolyFillRect and PutImage clip rectangles against the clip extents and
    the clip boxes before handing them on.
  - xCreateGC builds one shared hook table.
  - RPIAccel_Init and RPIAccel_Close wrap the screen hooks and put them back.

Memory is a sequence of bytes indexed by natural-number addresses.
`Memory.Moved` gives memmove semantics. `Memory.Apply` performs a list of
copies one after another. The blit methods work on an `array<bv8>` and are
proved equal to `Apply` of a copy list that a function describes. Lemmas then
say what those lists do. For example, a blit within one surface writes every
destination pixel with the original source pixel, whatever the overlap,
provided every row lies within its line: its start column plus the width is at
most the stride.

Device I/O is not modelled. Its outcomes are parameters: open, ioctl and mmap
results; allocation failure; what pixman answers. Entry points are tags
(`Blt2d.OverlappedEntry`, `Blt2d.FillEntry`) rather than function pointers.
`RpiX.BltAnswer` and `RpiX.FillAnswer` give each tag the meaning the back-end
modules define.

## Model

| member | source | states |
|---|---|---|
| Memmove.TwopassMemmove | src/cpu_backend.c:80-124 | afterwards memory is the original with `[dst, dst+size)` replaced by the original `[src, src+size)` (memmove semantics, any overlap, nothing else changes), and the helper calls made are exactly `Schedule(dst, src, size)`; the source need only be readable up to the aligned over-fetch limit |
| Memmove.MoveUpwards | src/cpu_backend.c:90-104 | the upward walk, taken when the source lies above the destination (whole 2048-byte chunks from the bottom, then the partial rest), is a memmove of `size` bytes and makes exactly the chunks `ForwardChunks` lists |
| Memmove.MoveDownwards | src/cpu_backend.c:105-123 | the downward walk (the partial remainder at the top end first, then whole chunks from the top down) is a memmove of `size` bytes and makes exactly the chunks of `Schedule` |
| Memmove.MoveWholeChunksDown | src/cpu_backend.c:115-122 | the `while (size > 0)` loop over a multiple of 2048 bytes, from the top chunk down, is a memmove of those bytes and makes exactly the chunks `BackwardChunks` lists |
| Memmove.FetchAndWriteBack | src/cpu_backend.c:92-94 | one fetch into the separate scratch buffer followed by one write-back is a memmove of the chunk, whatever the overlap |
| Memmove.AlignedFetchToScratch | src/cpu_backend.c:63-65 | the scratch range receives the fetched bytes and nothing else in scratch changes |
| Memmove.WritebackScratchToMem | src/cpu_backend.c:52-54 | the destination range receives the scratch bytes and nothing else in memory changes |
| Memmove.ScratchOffset | src/cpu_backend.c:83-84 | the scratch area starts at a 32-byte aligned address less than 32 bytes into the stack array |
| Memmove.ScheduleFetchesAligned | src/cpu_backend.c:87-123 | every fetch starts 32-byte aligned and is at most 2048+32 bytes; it covers the bytes its chunk writes back; it stays within `[src rounded down to 32, FetchEnd)`; every chunk keeps the source-destination distance |
| Memmove.ScheduleCount | src/cpu_backend.c:91-122 | the move makes `size/2048` whole-chunk steps plus one partial step when 2048 does not divide size |
| Memmove.ScheduleOrder | src/cpu_backend.c:90-123 | upwards (exactly when `src > dst`), chunk i writes at `dst + 2048 i` and only the last may be partial; downwards, the partial remainder at the top end goes first, then whole chunks from the top down |
| Memmove.ChunkStepsKeepAlignment | src/cpu_backend.c:95-97 | advancing the source by whole chunks keeps its offset within its aligned block, so one `alignshift` serves every step |
| Memory.NaiveMemmoveIsMoved | src/cpu_backend.c:71-73 | a byte-at-a-time memmove (upwards when the source is above, else downwards) equals `Moved`; this is an independent reference for the routine "similar to memmove" |
| Memory.ApplyIsSnapshot | src/cpu_backend.c:143-157 | when no row copy reads what an earlier one wrote, doing the rows in order equals doing all of them from the original memory |
| Memory.SnapshotAt | src/cpu_backend.c:143-157 | with pairwise disjoint destinations, each written byte holds the original byte its copy reads |
| Memory.ApplyUntouched | src/cpu_backend.c:143-157 | a byte no row writes keeps its value |
| Memory.MovedAsSplice | src/cpu_backend.c:80-124 | a memmove replaces the destination range by the source bytes and keeps the rest |
| Blt8.TwopassBlt8bpp | src/cpu_backend.c:126-158 | memory afterwards is `Apply` of `RowOrder(...)`: one memmove per row, rows bottom-up exactly when `src < dst + width && src + srcStride*height > dst` and then with the inner test's loop; top-down otherwise |
| Blt8.RowLoop | src/cpu_backend.c:143-148 | the row loop with strides that may be negated performs its rows in order, each row in bounds |
| Blt8.RowOrderPairsRows | src/cpu_backend.c:134-157 | row k of the order is row `height-1-k` when bottom-up and row k otherwise; there is one memmove per row, none when `height <= 0` |
| Blt8.ReversedRowsWalk | src/cpu_backend.c:137-140 | after the pointers move to the last row and the strides are negated, the loop visits exactly the rows in reverse |
| Blt8.SurfaceOrderIsSafe | src/cpu_backend.c:134-157 | within one surface, when each row fits in the stride, the chosen order never reads a row an earlier row wrote, and no two rows write the same bytes |
| Blt8.SurfaceBltCopiesSnapshot | src/cpu_backend.c:126-158 | within one surface, when both rectangles' rows lie within their lines (start column plus width at most the stride), every destination pixel ends with the original source pixel, whatever the overlap |
| Blt8.BltLeavesRestAlone | src/cpu_backend.c:126-158 | a byte outside every destination row keeps its value |
| Blt8.LinesApart | src/cpu_backend.c:134-135 | a row that fits in the stride ends before any later line starts |
| CpuBackend.CpuBackend.OverlappedBltArm | src/cpu_backend.c:160-205 | returns 1 exactly when the admission checks accept; when declining, memory is unchanged and no copy is made; when accepting, memory is `Apply` of the rows of the byte-unit rectangle |
| CpuBackend.Admission | src/cpu_backend.c:180-194 | the checks of overlapped_blt_arm in the order it makes them, giving the first that fails or acceptance; `AdmissionOrder` and `AcceptedRequests` state its meaning |
| CpuBackend.AdmissionOrder | src/cpu_backend.c:180-194 | each refusal names the first failed check, in source order: too narrow (16 bpp < 60, 32 bpp < 40, unless a rightward overlap in one row), source outside the uncached area, unsupported format; accepted exactly when all pass |
| CpuBackend.AcceptedRequests | src/cpu_backend.c:180-194 | an accepted blit reads an uncached source, has equal whole-byte depths and non-negative strides, and is narrow only when it overlaps rightwards within one row |
| CpuBackend.RightwardOverlapNeverTooNarrow | src/cpu_backend.c:180-183 | a rightward overlap in one row is never refused for width |
| CpuBackend.WideUncachedAccepted | src/cpu_backend.c:180-194 | a wide enough 16/32 bpp blit from the uncached area with equal depths and non-negative strides is accepted |
| CpuBackend.RowArgsInSurface | src/cpu_backend.c:187-203 | the unit conversion: rows of `width*bpp` bytes, `4*stride` bytes apart, starting at byte column `x*bpp` of line `y` |
| CpuBackend.OverlappedBltCopiesSnapshot | src/cpu_backend.c:196-204 | an accepted blit within one surface writes every destination pixel with the original source pixel |
| CpuBackend.AcceptedRowsInBounds | src/cpu_backend.c:196-203 | the rows an accepted, fitting blit performs are all in bounds |
| CpuBackend.OverlappedBltNoop | src/cpu_backend.c:209-226 | declines every blit |
| CpuBackend.FillNoop | src/cpu_backend.c:611-623 | declines every fill; unreachable, since cpu_backend_init publishes no fill entry (line 642) and nothing else refers to `fill_noop` |
| CpuBackend.CpuBackend.constructor | src/cpu_backend.c:633-653 | records `[buffer, buffer+size)` as the uncached area and publishes `overlapped_blt_arm` on ARM (no-op otherwise), no standard blit and no fill |
| CpuBackend.CpuBackendInit | src/cpu_backend.c:626-657 | NULL exactly when allocation fails, otherwise a fresh back end as the constructor describes |
| StandardBlt.AlignShift | src/cpu_backend.c:528-529 | `(uintptr_t)p & 31`: an offset within a 32-byte block, below 32 |
| StandardBlt.ClassifyAsWritten | src/cpu_backend.c:528-541 | as written, the same-alignment path is taken exactly when the two block offsets are equal, the word-aligned helper exactly when they differ but agree modulo 4, and the destination-word-aligned helper never |
| StandardBlt.ClassifyAsWrittenMisroutes | src/cpu_backend.c:535-540 | a source 2 bytes off a word (block offsets 2 and 4) is handed to the helper for a word-aligned source |
| StandardBlt.Classify | src/cpu_backend.c:530-541 | the corrected choice of helper, with the else arm calling the destination-word-aligned helper; `ClassifyMatchesHelpers` states what it picks |
| StandardBlt.ClassifyMatchesHelpers | src/cpu_backend.c:528-541 | with the else arm calling the destination-word-aligned helper, every 16-bit aligned pair reaches the helper whose comment names its case: equal offsets, equal word offsets, source word aligned with destination half-way, or the reverse; both directions of each |
| StandardBlt.LeftWordsAsWritten | src/cpu_backend.c:545-548 | the number of leading word stores as written: none for an aligned row, at most 8 otherwise; `LeftWordsAsWrittenValue` gives its value |
| StandardBlt.LeftWordsAsWrittenValue | src/cpu_backend.c:543-548 | `8 - ((alignshift & 0x1B) >> 2)` depends only on the offset's multiple of 8: it is `8 - 2 * (a / 8)` |
| StandardBlt.LeftWords | src/cpu_backend.c:543-548 | the corrected count of leading word stores: none for an aligned row, and after the leading 16-bit store they end exactly at the next 32-byte boundary |
| StandardBlt.BulkPlan | src/cpu_backend.c:573-576 | the bulk counts: `rest >> 5` chunks, then `>> 2` words and `& 2` bytes of what is left; `BulkPlanWidth` states what it stores |
| StandardBlt.BulkPlanWidth | src/cpu_backend.c:573-576 | the bulk plan stores exactly the leading bytes plus `rest`, and its chunks start right after the leading stores |
| StandardBlt.SmallPlanAsWritten | src/cpu_backend.c:552-553 | the small-path counts as written: `leftmost_words -= (-bw) >> 2`, `rightmost_short = (-bw) & 2`; `SmallPlanAsWrittenWidth` states what it stores |
| StandardBlt.SmallPlanAsWrittenWidth | src/cpu_backend.c:552-553 | the small plan as written stores the leading bytes less the shortfall, plus 4 more when the shortfall has bit 1 set |
| StandardBlt.SmallPlan | src/cpu_backend.c:552-553 | the corrected small-path counts, with the word count rounded up so that the trailing 16-bit store replaces a word; `SmallPlanWidth` states what it stores |
| StandardBlt.SmallPlanWidth | src/cpu_backend.c:552-553 | the corrected small plan stores exactly the leading bytes less the shortfall |
| StandardBlt.PlanAsWritten | src/cpu_backend.c:543-576 | the plan of a row as written: the leading 16-bit store, the leading words by the `0x1B` mask, then the small-path or bulk counts; `PlanAsWrittenWidth` states what it stores |
| StandardBlt.OvercopyAsWritten | src/cpu_backend.c:549-553 | the bytes the plan as written stores past the row: 4 when the row ends within the leading stores and `-bw` has bit 1 set, none otherwise |
| StandardBlt.PlanOf | src/cpu_backend.c:543-576 | the corrected plan of a row; `PlanWidth` states what it stores |
| StandardBlt.PlanWidth | src/cpu_backend.c:543-576 | the corrected plan of a row stores exactly `bw` bytes, and its chunks start on a 32-byte boundary |
| StandardBlt.PlanAsWrittenWidth | src/cpu_backend.c:549-576 | the plan as written stores the row and `OvercopyAsWritten` bytes more: exactly the row in the bulk path, 4 bytes too many in the small path exactly when the shortfall `-bw` has bit 1 set |
| StandardBlt.SmallPlanAsWrittenOvercopies | src/cpu_backend.c:549-566 | a two-pixel row at 16 bpp starting 2 bytes into a block (bw 4) is planned as 2 + 4 + 2 = 8 bytes of stores, an over-copy of 4 |
| StandardBlt.PlanAsWrittenMisalignsChunks | src/cpu_backend.c:545-573 | a 64-byte row starting 4 bytes into a block gets 8 leading words, so its chunk starts 4 bytes into a block |
| StandardBlt.StoreRow | src/cpu_backend.c:580-603 | the direct stores of one row (leading 16-bit store, leading words, chunks, trailing words, trailing 16-bit store, each at the offset the earlier ones reached) are a memmove of the plan's width, provided the source does not start inside the destination to its left |
| StandardBlt.DirectRowAsWritten | src/cpu_backend.c:549-603 | run against memory with the plan as written, one row of direct stores (same-alignment path, standard_word_aligned_blt) is a memmove of the row plus `OvercopyAsWritten` bytes: exactly the row in the bulk path, 4 bytes past it in the small path when the shortfall has bit 1 set |
| StandardBlt.StoreNext | src/cpu_backend.c:585-586 | one direct store, all its bytes loaded before any is stored, extends the row's memmove by its length |
| StandardBlt.StoreWord | src/cpu_backend.c:281 | `*(uint32_t *)p = v` writes the four little-endian bytes of `v` at `p` and nothing else |
| StandardBlt.StoreHalf | src/cpu_backend.c:276 | `*(uint16_t *)p = (uint16_t)v` writes the two low bytes of `v` at `p` and nothing else |
| StandardBlt.Half | src/cpu_backend.c:377 | a little-endian 16-bit load, zero-extended; `HalfBytes` states that storing it back gives the same bytes |
| StandardBlt.Word | src/cpu_backend.c:275 | a little-endian 32-bit load; `LowHalf` and `HighHalf` state what its halves hold |
| StandardBlt.Le16 | src/cpu_backend.c:276 | the bytes of a 16-bit store: two of them |
| StandardBlt.Le32 | src/cpu_backend.c:281 | the bytes of a 32-bit store: four of them |
| StandardBlt.LowHalf | src/cpu_backend.c:276 | `(uint16_t)pix` of a loaded word stores the word's first two bytes |
| StandardBlt.HighHalf | src/cpu_backend.c:277 | `pix >>= 16` of a loaded word is the half-word load of its last two bytes |
| StandardBlt.HalfBytes | src/cpu_backend.c:321 | a carried half-word stored with a 16-bit store gives back the bytes it was loaded from |
| StandardBlt.Merge | src/cpu_backend.c:281 | `pix + (pix2 << 16)` stores the carried half-word's bytes followed by the first two bytes of the next word |
| StandardBlt.MergeHalf | src/cpu_backend.c:319 | `pix + (*(uint16_t *)… << 16)` stores the carried half-word's bytes followed by the two loaded bytes |
| StandardBlt.MergeBytes | src/cpu_backend.c:280-282 | at source offset `p`, the carried half-word at `p` merged with the word at `p + 2` stores exactly the four bytes at `p`, and the word's upper half is the half-word at `p + 4`, the next carry |
| StandardBlt.MergeAt | src/cpu_backend.c:280-282 | the same facts at the offsets one merged store of a row reads and writes |
| StandardBlt.MergeLastBytes | src/cpu_backend.c:318-319 | the trailing merge with a 16-bit load stores exactly the four bytes at the carry's offset |
| StandardBlt.FirstWordBytes | src/cpu_backend.c:275-277 | of the first word of a word-aligned source, the 16-bit store writes its first two bytes and `pix >>= 16` carries its last two |
| StandardBlt.SplitFirstWord | src/cpu_backend.c:275-278 | the first word of a word-aligned source: the row's memmove covers its first 2 bytes, nothing else changes, and the carry is the half-word at offset 2 |
| StandardBlt.FirstMerge | src/cpu_backend.c:274-278 | the start of a shifting row: a word-aligned source has its first word's lower half stored and its upper half carried; otherwise a 16-bit load starts the carry; nothing else is stored |
| StandardBlt.MergeNext | src/cpu_backend.c:279-283 | one merged store (carried half-word plus the lower half of the next source word) extends the row's memmove by 4 bytes and carries the word's upper half |
| StandardBlt.MergeLast | src/cpu_backend.c:318-319 | the last merged store with a trailing 16-bit load completes the row's memmove |
| StandardBlt.StoreCarry | src/cpu_backend.c:320-321 | storing the carried half-word alone completes the row's memmove |
| StandardBlt.ShiftMergeRow | src/cpu_backend.c:271-325 | the corrected row of a shifting helper, for either helper: every merged store lands where its bytes belong, and the whole row is a memmove of `bw` bytes |
| StandardBlt.PixelAddressEven | src/cpu_backend.c:525-526 | a pixel address in a word-aligned 16 or 32 bpp surface is 16-bit aligned, as the helpers assume |
| StandardBlt.PixelAddress | src/cpu_backend.c:525-526 | the byte address of a pixel, with the stride in words; `PixelAddressEven` states its alignment |
| StandardBlt.RowBytes | src/cpu_backend.c:527 | `w * (src_bpp / 8)`: at 16 or 32 bpp and `w >= 2`, at least 4 bytes and even, as the helpers assume |
| StandardBlt.BltRow | src/cpu_backend.c:530-541 | one row with the helper chosen for the blit, direct stores or shift-and-merge stores; either way a memmove of the row |
| StandardBlt.BltRows | src/cpu_backend.c:577-607 | the `while (h > 0)` loop that steps both line pointers by their strides performs its rows in order, each a memmove |
| StandardBlt.StandardBltArm | src/cpu_backend.c:511-609 | with the corrected choice of helper and plans, standard_blt returns 1 and memory is `Apply` of the rows walked from the first line down, `w * (bpp / 8)` bytes each, when no row's source starts inside its destination to its left |
| StandardBlt.Merged | src/cpu_backend.c:281 | one merged store as two half-word copies: the carried half-word, then the lower half of the word just loaded |
| StandardBlt.WordLoop | src/cpu_backend.c:279-283 | a word loop of a shifting helper as written, as half-word copies |
| StandardBlt.ChunkAsWritten | src/cpu_backend.c:285-311 | one unrolled chunk as written, as half-word copies; `ChunkAsWrittenMisplaces` states its defect |
| StandardBlt.ChunkLoopAsWritten | src/cpu_backend.c:285-311 | the chunk loop as written, chunk after chunk |
| StandardBlt.LastAsWritten | src/cpu_backend.c:318-321 | the last store of a shifting row as written; it starts with the carried half-word two bytes before the offset |
| StandardBlt.ShiftRowAsWritten | src/cpu_backend.c:271-325 | the stores of one bulk row of either shifting helper as written, as half-word copies; the lemmas below state where they go wrong |
| StandardBlt.ChunkAsWrittenMisplaces | src/cpu_backend.c:285-291 | the second merged store of every chunk goes to `offset + 4` with the half-word from `offset + 2`, and no store of the chunk covers destination offset `offset + 2` |
| StandardBlt.SourceAlignedRowAsWrittenSkips | src/cpu_backend.c:275-287 | the source-word-aligned helper runs `leftmost_words - 1` word steps but advances by `leftmost_words` words, so the next store puts the half-word from `4 * leftmost_words - 2` at `4 * leftmost_words + 2` |
| StandardBlt.ShiftRowAsWrittenEnd | src/cpu_backend.c:317-321 | as written, a source-word-aligned row's last store ends 4 bytes past the row, and a destination-word-aligned row's last store ends exactly at the row's end |
| StandardBlt.SourceAlignedRowAsWrittenExample | src/cpu_backend.c:271-325 | for a 12-byte row, source 24 bytes into a block and destination 2 bytes off a word, the stores as written are listed: destination bytes 6 to 9 are never written, bytes 10 and 11 get source bytes 6 and 7, and the stores reach offset 16 |
| RpiDisp.RpiBlt | src/rpi_disp.c:482-517 | rpi_blt's answer: declined when either base lies outside the framebuffer, done when empty, declined otherwise; `RpiBltAccepts` states it as an if-and-only-if |
| RpiDisp.RpiFill | src/rpi_disp.c:441-445 | rpi_fill's answer: done exactly for an empty fill; `RpiFillAccepts` states it |
| RpiDisp.RpiBltAccepts | src/rpi_disp.c:482-517 | rpi_blt succeeds exactly for empty blits whose source and destination bases both lie in the framebuffer |
| RpiDisp.RpiBltEmptyOutsideDeclined | src/rpi_disp.c:505-514 | the residency check comes before the emptiness test: an empty blit outside the framebuffer is declined |
| RpiDisp.RpiBltNeverCopies | src/rpi_disp.c:513-517 | no non-empty blit is ever done |
| RpiDisp.RpiFillAccepts | src/rpi_disp.c:441-445 | rpi_fill succeeds exactly when `w <= 0 || h <= 0`, wherever the target lies |
| RpiDisp.FbIdOf | src/rpi_disp.c:51-65 | NULL and "/dev/fb0" give framebuffer 0, "/dev/fb1" gives 1, anything else is refused |
| RpiDisp.GfxLayerSize | src/rpi_disp.c:112 | the layer size is below 2^32: the 32-bit unsigned product wraps before the division by 8 |
| RpiDisp.LayerCheckWithoutWrap | src/rpi_disp.c:112-119 | when the product does not wrap, the size check passes exactly when the framebuffer holds all `xres*yres*bpp` bits, rounded down to bytes |
| RpiDisp.RpiDispInit | src/rpi_disp.c:41-160 | succeeds exactly when the device is known, open and both ioctls succeed, `smem_len >= gfx_layer_size`, and a mapping exists (supplied or mmapped); then the context holds the screen's `xres`, `yres` and `bits_per_pixel`, `smem_start` as physical address, `smem_len` as size, the wrapped layer size, the supplied mapping if non-NULL or else the mmap result as address, the cursor off at (-1,-1), and the table `rpi_blt`, no standard blit, `rpi_fill` |
| RpiDisp.RpiDisp.constructor | src/rpi_disp.c:105-157 | stores the screen info, the layer size, the mapping, the cursor state and the published entry points |
| RpiDisp.RpiDisp.Close | src/rpi_disp.c:162-184 | returns 0 and unmaps `[framebuffer_addr, +framebuffer_size)` exactly when no X server mapping was supplied |
| Boxes.Intersect | src/rpi_x.c:499-509 | the clamped box holds exactly the pixels both boxes hold |
| Boxes.EmptyHasNoPixel | src/rpi_x.c:469-470 | the `x1 >= x2 \|\| y1 >= y2` test is exact: such a box holds no pixel, any other holds one; the piece test at line 513 is its negation |
| Boxes.PiecesAreParts | src/rpi_x.c:495-527 | every piece handed on is non-empty and is the intersection of the rectangle with one clip box |
| Boxes.PiecesCover | src/rpi_x.c:495-527 | the pieces hold exactly the pixels of the rectangle that some clip box holds |
| Boxes.CoversAppend | src/rpi_x.c:495-527 | the pixels covered by two lists of areas are those covered by either |
| RpiX.BltAnswer | src/rpi_x.c:207-225 | what a cached overlapped-blit entry answers when called with its back end's `self`: the CPU back end's admission, rpi_blt's answer, or the no-op's refusal |
| RpiX.FillAnswer | src/rpi_x.c:478-481 | what the cached fill entry answers when called with its back end's `self`: rpi_fill's answer |
| RpiX.Cascade | src/rpi_x.c:207-258 | the strategies a chain of `if (!done)` tests calls, in order: each enabled strategy until one succeeds, and fb when none does; never empty |
| RpiX.CascadeIsFirstSuccess | src/rpi_x.c:207-258 | a cascade calls every enabled strategy up to the first that succeeds, in order, and then stops; if none succeeds it calls fb last |
| RpiX.FbStageIffAllDecline | src/rpi_x.c:242-253 | the fb fallback runs exactly when every enabled strategy declines |
| RpiX.RpiAccel.CopyNtoN | src/rpi_x.c:153-266 | for each box in order, the strategies called are the cascade: primary, CPU back end when present, pixman only when neither reversed nor upside down, then fbBlt; the blit is the box moved by `(dx,dy)` and the drawable offsets |
| RpiX.RpiAccel.CopyBox | src/rpi_x.c:207-258 | the nested `if (!done)` tests of one box call exactly the cascade's strategies |
| RpiX.RpiAccel.CopyFallsBackToFb | src/rpi_x.c:207-258 | fbBlt runs for a box exactly when the primary, the CPU back end (if any) and pixman (if allowed) all decline; the primary is always called first |
| RpiX.RpiAccel.ShippedCopyCascade | src/rpi_x.c:207-258 | with rpi_blt as primary and overlapped_blt_arm as fallback, every non-empty box passes the primary and goes to the CPU back end; that back end does it when its admission accepts, otherwise pixman (if allowed) and fbBlt follow |
| RpiX.RpiAccel.CopyWindowProc | src/rpi_x.c:56-120 | the same cascade per box without pixman: primary, CPU back end when present, fbBlt |
| RpiX.RpiAccel.WindowBox | src/rpi_x.c:85-112 | one box of xCopyWindowProc calls exactly the cascade's strategies |
| RpiX.CopyAreaRoute | src/rpi_x.c:268-288 | the accelerated path is taken exactly when the plane mask is all ones, the alu is GXcopy (a missing GC counts as both), and both depths are equal and 16 or 32 |
| RpiX.AcceleratedCopyHasCpuFormat | src/rpi_x.c:277-283 | every blit of an accelerated copy has the equal, whole-byte depths the CPU back end requires |
| RpiX.BoxBlt | src/rpi_x.c:226-232 | the blit of a box has the box's size and is displaced by `(dx,dy)` plus the difference of the drawable offsets |
| RpiX.PolyFillRoute | src/rpi_x.c:416-419 | xPolyFillRect does the work itself exactly for solid fills with an all-ones plane mask and a zero `and` |
| RpiX.Clamped | src/rpi_x.c:451-467 | the clamped rectangle holds exactly the pixels of the translated rectangle that lie in the clip extents |
| RpiX.RectAreasCover | src/rpi_x.c:469-527 | a pixel is filled for one rectangle exactly when it lies in the clamped rectangle and, if the clip has several boxes, in one of them |
| RpiX.RectAreasNonEmpty | src/rpi_x.c:469-527 | no empty area is handed on |
| RpiX.FilledPixelHasRect | src/rpi_x.c:451-527 | every filled pixel lies in the areas of some rectangle |
| RpiX.RectPixelIsFilled | src/rpi_x.c:451-527 | every pixel in the areas of some rectangle is filled |
| RpiX.FillAreasNonEmpty | src/rpi_x.c:469-527 | every area handed to the fill strategies is non-empty |
| RpiX.AreaFill | src/rpi_x.c:476-481 | the fill request has the area's size and is displaced by the drawable offset |
| RpiX.RpiAccel.PolyFillRect | src/rpi_x.c:391-533 | falls back exactly when `PolyFillRoute` says so; otherwise the fills issued are one per area of `FillAreas`, in order, each with the cascade blt2d_fill (when present), pixman_fill, fbSolid |
| RpiX.RpiAccel.FillRect | src/rpi_x.c:469-528 | one rectangle: nothing when empty, the whole rectangle when the clip has one box, otherwise the non-empty pieces in clip order |
| RpiX.RpiAccel.FillPieces | src/rpi_x.c:490-527 | the inner loop issues one fill per non-empty piece, in clip order |
| RpiX.RpiAccel.FillArea | src/rpi_x.c:478-486 | the strategies called for one area are blt2d_fill if non-NULL, then pixman_fill, then fbSolid, stopping at the first success |
| RpiX.RpiAccel.RpiFillPassesAreasOn | src/rpi_x.c:478-486 | with rpi_fill as the fill entry, every area goes on to pixman, and on to fbSolid when pixman declines |
| RpiX.PutImageRoute | src/rpi_x.c:311-321 | xPutImage does the work itself exactly for Z-format images on drawables at their natural depth, with all-ones plane mask and GXcopy |
| RpiX.ImageBlt | src/rpi_x.c:369-373 | the piece's blit reads the image at offset `(x1 - x, y1 - y)` and writes at the piece plus the drawable offset |
| RpiX.ImagePiecesReadInside | src/rpi_x.c:338-361 | every image piece is non-empty and reads inside the `w x h` image |
| RpiX.RpiAccel.PutImage | src/rpi_x.c:294-387 | falls back exactly when `PutImageRoute` says so; otherwise one blit per non-empty intersection of the image with a clip box, in clip order, by pixman and then fbBlt when pixman declines |
| RpiX.Hooked | src/rpi_x.c:547-555 | the shared table has the three driver hooks and keeps every other fb operation |
| RpiX.RpiAccel.CreateGC | src/rpi_x.c:535-560 | fails without changes when fbCreateGC fails; otherwise the first call builds the shared table from this GC's fb table and every call gives the GC the shared table (the unchecked calloc is taken to succeed) |
| RpiX.RpiAccel.constructor | src/rpi_x.c:565-578 | caches the primary back end's self and entry points unchanged, and the CPU back end |
| RpiX.RpiAccelInit | src/rpi_x.c:564-589 | NULL exactly when allocation fails; otherwise the entries are cached unchanged, the previous CopyWindow and CreateGC are saved, and the driver's hooks are installed |
| RpiX.RpiAccel.Close | src/rpi_x.c:591-602 | puts back the saved CopyWindow and CreateGC and frees the shared table when there is one, leaving the pointer to it (and every GC given it) dangling |
| RpiX.InitThenClose | src/rpi_x.c:564-602 | init followed by close leaves the screen's hooks as they were |

## Left out

- Device I/O and system calls are not modelled: open, ioctl, mmap, munmap, close, calloc and free. The outcomes of open, ioctl and mmap, and of the checked callocs in `cpu_backend_init` and `RPIAccel_Init`, are parameters. `rpi_disp_init` does not check its own calloc; the model assumes that allocation succeeds.
- RpiX.RpiAccel.CreateGC: assumes that the calloc of the shared table (`src/rpi_x.c:547`) succeeds. The source does not check it, and on failure the following memcpy writes through NULL; the model has no outcome for that.
- RpiX.RpiAccel.Close: `free` is represented by the ghost flag `gcOpsFreed`. The model does not forbid later use of the freed table by the GCs that still refer to it.
- The hardware-accelerated parts of `src/rpi_disp.c` are not modelled. Cursor and layer handling and the G2D paths are all in `#if 0` blocks. The size thresholds after `return 0` in `rpi_blt` and `rpi_fill` are unreachable.
- `framebuffer_height` (`src/rpi_disp.c:110-111`) is not modelled. Nothing in the core reads it, and it divides by zero when `xres * bpp < 8`.
- RpiDisp.RpiDispInit: takes `smem_len` as an unbounded number rather than a `__u32`.
- pixman, fbBlt, fbSolid, fbCopyArea, fbPutImage, fbPolyFillRect and miDoCopy belong to the X server and pixman, so they are not part of this model. pixman's answers are parameters, and the fb functions always complete.
- `xCopyWindow`'s region arithmetic and `PixmapBytePad` are left out. Both are X server functions; the stride is a parameter.
- `xPolyFillRect`'s branch for a non-zero `and` value is not modelled. The earlier fallback test makes it unreachable.
- The `USE_STANDARD_BLT` variants are not modelled; that macro is not defined.
- `cpuinfo_init`/`cpuinfo_close` and `arm_asm.h` are left out. The core never uses what they report.
- Negative strides, negative widths and negative coordinates are not modelled. Addresses are natural numbers, and pointer arithmetic never wraps.
- Memmove.TwopassMemmove: the stack scratch buffer is a separate array, so scratch and memory never alias. Its alignment is proved about `ScratchOffset`, not about real addresses.
- Blt8.TwopassBlt8bpp: `height <= 0` makes no rows, as the `while (--height >= 0)` loop does. The unsigned wrap of `src_stride * height` for a negative height is not modelled.
- RpiX.BltAnswer: answers false for an entry point paired with another back end's state. Such a pairing cannot occur, because every back end publishes `self` together with its own entry points.
- The alias `blt2d.self == ctx` is represented by a `BackendSelf` value that holds the fields the entry points read.
- StandardBlt.StandardBltArm: requires every row to be walkable from left to right: the source does not start inside the destination to its left. The C code walks left to right whatever the overlap, so an overlapping rightward blit within one row is not a memmove there. The model does not describe what it produces in that case.
- StandardBlt.StandardBltArm: takes the rows the line pointers walk through as a ghost parameter. It requires 16-bit aligned pixel addresses: word-aligned surfaces at 16 or 32 bpp, and `w >= 2`, as the comment at `src/cpu_backend.c:503-507` demands.
- StandardBlt.ShiftMergeRow: the corrected row does all its merged stores in one word loop. It does not keep the source's split into leading words, unrolled chunks and trailing words, which matters only for speed.
- StandardBlt.StoreRow: the `double` loads and stores of a chunk are modelled as a copy of 32 bytes, all loaded before any is stored. Floating-point registers play no part in it.
- StandardBlt.ShiftRowAsWritten: the shifting rows as written are lists of half-word copies and are not run against memory; only the corrected `ShiftMergeRow` is. The direct stores with the plan as written are run, by `DirectRowAsWritten`. `StandardBltArm` uses the corrected plans throughout.
- The small path of the shifting helpers uses direct, possibly unaligned 32-bit accesses, as the source does. Unaligned-access behaviour of the hardware is not modelled, and memory is byte-addressed.

## Findings

All five defects are in `standard_blt` and its helpers. That entry point is never published, so none of them can be reached in the shipped driver. `StandardBlt.StandardBltArm` uses the corrected definitions.

| source | as written | input that shows it | evidently intended | confidence | as-written member | corrected member |
|---|---|---|---|---|---|---|
| src/cpu_backend.c:552-553 | the small path drops `(-bw) >> 2` leading words and adds a 16-bit store of `(-bw) & 2` bytes | a two-pixel row at 16 bpp (bw 4) starting 2 bytes into a 32-byte block: 8 bytes are stored, 4 of them past the row | the trailing 16-bit store takes the place of a dropped word: drop `(-bw + 3) >> 2` words | not executed | StandardBlt.SmallPlanAsWrittenOvercopies | StandardBlt.PlanWidth |
| src/cpu_backend.c:545-548 | `leftmost_words = 8 - ((alignshift & 0x1B) >> 2)` ignores bit 2 of the offset | a 64-byte row starting 4 bytes into a block: 8 leading words, so the chunk starts 4 bytes into a block | leading stores that end at the next 32-byte boundary, as the "aligned 32-byte chunks" comment says | not executed | StandardBlt.PlanAsWrittenMisalignsChunks | StandardBlt.PlanWidth |
| src/cpu_backend.c:279-284 | the source-word-aligned helper makes `leftmost_words - 1` merged stores and then advances the offset by `leftmost_words * 4` | a 12-byte row, source 24 bytes into a block, destination 2 bytes off a word: destination bytes 6 to 9 are never written, bytes 10 and 11 get source bytes 6 and 7, and the stores reach offset 16 | the offset advances by the words the leading stores consumed, so the row is a memmove | not executed | StandardBlt.SourceAlignedRowAsWrittenExample | StandardBlt.ShiftMergeRow |
| src/cpu_backend.c:289-290 | the second merged store of every chunk goes to `dstlinep + offset + 4`; the same line is at 389-390 in the other helper | any shifting row with at least one chunk: destination offset `offset + 2` is never written, and the half-word from `offset + 2` lands at `offset + 4` | `dstlinep + offset + 2`, in step with the other seven stores | not executed | StandardBlt.ChunkAsWrittenMisplaces | StandardBlt.ShiftMergeRow |
| src/cpu_backend.c:535-540 | both arms of the inner test call `standard_source_word_aligned_blt` | block offsets 2 (source) and 4 (destination): a source that is not word aligned goes to the helper for a word-aligned source | the else arm calls `standard_destination_word_aligned_blt` | not executed | StandardBlt.ClassifyAsWrittenMisroutes | StandardBlt.ClassifyMatchesHelpers |
