/**
 * The X server hooks of the driver: the per-box cascade of copy
 * strategies behind CopyArea and CopyWindow, the clipping that PolyFillRect
 * and PutImage do before handing rectangles to the fill and blit
 * strategies, and the hook tables installed at GC creation and at init.
 *
 * pixman and fb are not part of this model: the answer of `pixman_blt` and
 * `pixman_fill` is a parameter, and the fb fallbacks (fbBlt, fbSolid) always
 * complete the work.  The back-end entry points answer as the RpiDisp and
 * CpuBackend modules define them.
 */
module RpiX {
  import opened Blt2d
  import opened Boxes
  import CpuBackend
  import RpiDisp

  // ---------------------------------------------------------------------------
  // Back ends as the hooks see them

  /** The `self` pointer published with a back end's entry points. */
  datatype BackendSelf =
    | DispSelf(fbAddr: nat, fbSize: nat)
    | CpuSelf(uncachedBegin: nat, uncachedEnd: nat)

  /** A blt2d_i interface: the state and the entry points of one back end. */
  datatype Backend = Backend(self: BackendSelf, table: Table)

  /**
   * The answer of an overlapped-blit entry point called with its `self`.
   * A back end only ever publishes its entry points beside its own state;
   * a mismatched pair does not occur and answers false here.
   */
  function BltAnswer(e: OverlappedEntry, self: BackendSelf, r: BltRequest): bool
  {
    match (e, self)
    case (NoopBltEntry, _) => CpuBackend.OverlappedBltNoop(r)
    case (ArmBltEntry, CpuSelf(b, e)) => CpuBackend.Admission(b, e, r) == CpuBackend.Accepted
    case (RpiBltEntry, DispSelf(a, n)) => RpiDisp.RpiBlt(a, n, r)
    case _ => false
  }

  /** The answer of a fill entry point called with its `self`. */
  function FillAnswer(e: FillEntry, self: BackendSelf, f: FillRequest): bool
  {
    match (e, self)
    case (NoopFillEntry, _) => CpuBackend.FillNoop(f)
    case (RpiFillEntry, DispSelf(a, n)) => RpiDisp.RpiFill(a, n, f)
    case _ => false
  }

  // ---------------------------------------------------------------------------
  // Cascades of strategies

  /** The strategies a box can be handed to; the fb one always completes. */
  datatype Stage = Blt2dStage | CpuBackendStage | PixmanStage | FbStage

  /** One strategy of a cascade: whether it is tried at all, and what it answers if it is. */
  datatype Attempt = Attempt(stage: Stage, enabled: bool, answer: bool)

  /**
   * The strategies called, in order, by a cascade of `if (!done)` tests:
   * each enabled attempt is called until one answers true, and the fb
   * fallback is called when none does.
   */
  function Cascade(attempts: seq<Attempt>): (called: seq<Stage>)
    ensures |called| >= 1
    decreases |attempts|
  {
    if attempts == [] then [FbStage]
    else if !attempts[0].enabled then Cascade(attempts[1..])
    else if attempts[0].answer then [attempts[0].stage]
    else [attempts[0].stage] + Cascade(attempts[1..])
  }

  /** The position of the first enabled attempt that answers true, or the number of attempts. */
  function FirstSuccess(attempts: seq<Attempt>): (k: nat)
    ensures k <= |attempts|
    ensures forall i :: 0 <= i < k ==> !(attempts[i].enabled && attempts[i].answer)
    ensures k < |attempts| ==> attempts[k].enabled && attempts[k].answer
    decreases |attempts|
  {
    if attempts == [] then 0
    else if attempts[0].enabled && attempts[0].answer then 0
    else 1 + FirstSuccess(attempts[1..])
  }

  /** The stages of the enabled attempts, in order. */
  function Enabled(attempts: seq<Attempt>): (stages: seq<Stage>)
    ensures |stages| <= |attempts|
    decreases |attempts|
  {
    if attempts == [] then []
    else (if attempts[0].enabled then [attempts[0].stage] else []) + Enabled(attempts[1..])
  }

  /**
   * The cascade calls every enabled strategy before the first one that
   * succeeds, then that one; when none succeeds, every enabled one and
   * then the fb fallback.
   */
  lemma {:induction false} CascadeIsFirstSuccess(attempts: seq<Attempt>)
    ensures Cascade(attempts) ==
      Enabled(attempts[..FirstSuccess(attempts)]) +
      [if FirstSuccess(attempts) < |attempts| then attempts[FirstSuccess(attempts)].stage else FbStage]
    decreases |attempts|
  {
    if attempts != [] {
      var rest := attempts[1..];
      CascadeIsFirstSuccess(rest);
      var k := FirstSuccess(attempts);
      if !(attempts[0].enabled && attempts[0].answer) {
        assert k == 1 + FirstSuccess(rest);
        assert attempts[..k][1..] == rest[..k - 1];
        assert attempts[..k][0] == attempts[0];
      } else {
        assert attempts[..k] == [];
      }
    }
  }

  /** The fb fallback runs exactly when every enabled strategy declines. */
  lemma FbStageIffAllDecline(attempts: seq<Attempt>)
    requires forall i :: 0 <= i < |attempts| ==> attempts[i].stage != FbStage
    ensures FbStage in Cascade(attempts) <==>
              forall i :: 0 <= i < |attempts| ==> !(attempts[i].enabled && attempts[i].answer)
  {
    CascadeIsFirstSuccess(attempts);
    var k := FirstSuccess(attempts);
    EnabledOmitsFb(attempts[..k]);
  }

  lemma {:induction false} EnabledOmitsFb(attempts: seq<Attempt>)
    requires forall i :: 0 <= i < |attempts| ==> attempts[i].stage != FbStage
    ensures FbStage !in Enabled(attempts)
    decreases |attempts|
  {
    if attempts != [] {
      EnabledOmitsFb(attempts[1..]);
    }
  }

  // ---------------------------------------------------------------------------
  // Copies: xCopyNtoN, xCopyWindowProc, xCopyArea

  /** What fbGetDrawable reports: base, stride in words, depth, and the offset of the drawable in its pixmap. */
  datatype Drawable = Drawable(bits: nat, stride: int, bpp: int, xoff: int, yoff: int)

  /** The blit the copy hooks request for one box, moved by `(dx, dy)` on the source side. */
  function BoxBlt(src: Drawable, dst: Drawable, b: Box, dx: int, dy: int): (r: BltRequest)
    ensures r.width == b.x2 - b.x1 && r.height == b.y2 - b.y1
    ensures r.srcX - r.dstX == dx + src.xoff - dst.xoff && r.srcY - r.dstY == dy + src.yoff - dst.yoff
  {
    BltRequest(src.bits, dst.bits, src.stride, dst.stride, src.bpp, dst.bpp,
               b.x1 + dx + src.xoff, b.y1 + dy + src.yoff, b.x1 + dst.xoff, b.y1 + dst.yoff,
               b.x2 - b.x1, b.y2 - b.y1)
  }

  const GXcopy: int := 3
  const FbAllOnes: bv32 := 0xFFFF_FFFF

  /** Which implementation a GC operation ends up in. */
  datatype Route = Accelerated | Fallback

  /** The raster operation and plane mask of a GC. */
  datatype GcMode = GcMode(alu: int, pm: bv32)

  /**
   * xCopyArea: plain copies (all planes, GXcopy; a missing GC counts as
   * such) between drawables of the same 16 or 32 bpp depth go through the
   * accelerated cascade; everything else goes to fbCopyArea.
   */
  function CopyAreaRoute(gc: Option<GcMode>, srcBpp: int, dstBpp: int): (route: Route)
    ensures route == Accelerated <==>
      (gc == None || (gc.value.pm == FbAllOnes && gc.value.alu == GXcopy)) &&
      srcBpp == dstBpp && (srcBpp == 16 || srcBpp == 32)
  {
    var alu := if gc != None then gc.value.alu else GXcopy;
    var pm := if gc != None then gc.value.pm else FbAllOnes;
    if pm == FbAllOnes && alu == GXcopy && srcBpp == dstBpp && (srcBpp == 32 || srcBpp == 16) then Accelerated
    else Fallback
  }

  /** Every blit of an accelerated copy has the equal, whole-byte depths the CPU back end asks for. */
  lemma AcceleratedCopyHasCpuFormat(gc: Option<GcMode>, src: Drawable, dst: Drawable, b: Box, dx: int, dy: int)
    requires CopyAreaRoute(gc, src.bpp, dst.bpp) == Accelerated
    requires src.stride >= 0 && dst.stride >= 0
    ensures CpuBackend.SupportedFormat(BoxBlt(src, dst, b, dx, dy))
  {
  }

  /** The answers of pixman_blt and pixman_fill, which are not part of this model. */
  datatype Pixman = Pixman(blt: BltRequest -> bool, fill: FillRequest -> bool)

  // ---------------------------------------------------------------------------
  // GC operations and screen hooks

  /** An entry of a GCOps table: one of the hooks of this driver, or an fb operation. */
  datatype Op = XCopyAreaOp | XPutImageOp | XPolyFillRectOp | FbOp(id: nat)

  /** A GCOps table: the three operations the driver replaces and the rest, kept as they are. */
  datatype GcOps = GcOps(copyArea: Op, putImage: Op, polyFillRect: Op, others: seq<Op>)

  /** The GCOps table xCreateGC builds from the fb table. */
  function Hooked(fb: GcOps): (ops: GcOps)
    ensures ops.copyArea == XCopyAreaOp && ops.putImage == XPutImageOp && ops.polyFillRect == XPolyFillRectOp
    ensures ops.others == fb.others
  {
    fb.(copyArea := XCopyAreaOp, putImage := XPutImageOp, polyFillRect := XPolyFillRectOp)
  }

  class Gc {
    var ops: GcOps
    constructor (ops: GcOps)
      ensures this.ops == ops
    {
      this.ops := ops;
    }
  }

  /** A screen hook: one installed by this driver, or the previous one. */
  datatype ScreenHook = XCopyWindowHook | XCreateGCHook | PreviousHook(id: nat)

  class Screen {
    var copyWindow: ScreenHook
    var createGC: ScreenHook
    constructor (copyWindow: ScreenHook, createGC: ScreenHook)
      ensures this.copyWindow == copyWindow && this.createGC == createGC
    {
      this.copyWindow := copyWindow;
      this.createGC := createGC;
    }
  }

  // ---------------------------------------------------------------------------
  // Fills: xPolyFillRect

  /** An xRectangle: a 16-bit signed corner and a 16-bit unsigned size. */
  datatype Rect = Rect(x: int, y: int, width: nat, height: nat)

  /** A composite clip: its extents and its boxes. */
  datatype Clip = Clip(extents: Box, boxes: seq<Box>)

  /** The fill state of a GC: solid or not, plane mask, and the and/xor pair of the reduced raster op. */
  datatype FillGc = FillGc(solid: bool, pm: bv32, and: bv32, xor: bv32)

  /** xPolyFillRect does the work itself only for solid fills on all planes that plainly store the colour. */
  function PolyFillRoute(gc: FillGc): (route: Route)
    ensures route == Accelerated <==> gc.solid && gc.pm == FbAllOnes && gc.and == 0
  {
    if !gc.solid || gc.pm != FbAllOnes || gc.and != 0 then Fallback else Accelerated
  }

  /** A rectangle moved to the drawable's origin and clamped to the clip extents. */
  function Clamped(r: Rect, xorg: int, yorg: int, extents: Box): (full: Box)
    ensures forall px, py :: Contains(full, px, py) <==>
      Contains(Box(r.x + xorg, r.y + yorg, r.x + xorg + r.width, r.y + yorg + r.height), px, py) &&
      Contains(extents, px, py)
  {
    Intersect(Box(r.x + xorg, r.y + yorg, r.x + xorg + r.width, r.y + yorg + r.height), extents)
  }

  /**
   * The areas filled for one clamped rectangle: none when it is empty, the
   * whole of it when the clip has a single box, and otherwise its
   * non-empty intersections with the clip boxes.
   */
  function RectAreas(full: Box, clip: Clip): seq<Box>
  {
    if IsEmpty(full) then []
    else if |clip.boxes| == 1 then [full]
    else Pieces(full, clip.boxes)
  }

  /** The areas filled for a list of rectangles, rectangle by rectangle. */
  function FillAreas(rects: seq<Rect>, xorg: int, yorg: int, clip: Clip): seq<Box>
    decreases |rects|
  {
    if rects == [] then []
    else
      FillAreas(rects[..|rects| - 1], xorg, yorg, clip) +
      RectAreas(Clamped(rects[|rects| - 1], xorg, yorg, clip.extents), clip)
  }

  /**
   * A pixel is filled for one rectangle exactly when it lies in the
   * rectangle, in the clip extents and, for a clip of several boxes, in one
   * of them.
   */
  lemma RectAreasCover(full: Box, clip: Clip, px: int, py: int)
    ensures Covers(RectAreas(full, clip), px, py) <==>
      Contains(full, px, py) && (|clip.boxes| == 1 || Covers(clip.boxes, px, py))
  {
    EmptyHasNoPixel(full);
    if !IsEmpty(full) && |clip.boxes| != 1 {
      PiecesCover(full, clip.boxes, px, py);
    }
    if !IsEmpty(full) && |clip.boxes| == 1 && Contains(full, px, py) {
      assert RectAreas(full, clip)[0] == full;
    }
  }

  /** Every area handed on for one rectangle is non-empty. */
  lemma RectAreasNonEmpty(full: Box, clip: Clip, k: nat)
    requires k < |RectAreas(full, clip)|
    ensures !IsEmpty(RectAreas(full, clip)[k])
  {
    if |clip.boxes| != 1 {
      PiecesAreParts(full, clip.boxes, k);
    }
  }

  /** Whether the areas filled for rectangle `r` hold the pixel. */
  predicate RectCovers(r: Rect, xorg: int, yorg: int, clip: Clip, px: int, py: int)
  {
    Covers(RectAreas(Clamped(r, xorg, yorg, clip.extents), clip), px, py)
  }

  /** Every filled pixel lies in the areas of some rectangle: the one this lemma names. */
  lemma {:induction false} FilledPixelHasRect(rects: seq<Rect>, xorg: int, yorg: int, clip: Clip, px: int, py: int)
    returns (i: nat)
    requires Covers(FillAreas(rects, xorg, yorg, clip), px, py)
    ensures i < |rects| && RectCovers(rects[i], xorg, yorg, clip, px, py)
    decreases |rects|
  {
    var init := rects[..|rects| - 1];
    var areas := FillAreas(init, xorg, yorg, clip);
    var tail := RectAreas(Clamped(rects[|rects| - 1], xorg, yorg, clip.extents), clip);
    assert FillAreas(rects, xorg, yorg, clip) == areas + tail;
    CoversAppend(areas, tail, px, py);
    if Covers(areas, px, py) {
      i := FilledPixelHasRect(init, xorg, yorg, clip, px, py);
      assert rects[i] == init[i];
    } else {
      i := |rects| - 1;
    }
  }

  /** Every pixel in the areas of one of the rectangles is filled. */
  lemma {:induction false} RectPixelIsFilled(rects: seq<Rect>, xorg: int, yorg: int, clip: Clip, px: int, py: int, i: nat)
    requires i < |rects| && RectCovers(rects[i], xorg, yorg, clip, px, py)
    ensures Covers(FillAreas(rects, xorg, yorg, clip), px, py)
    decreases |rects|
  {
    var init := rects[..|rects| - 1];
    var areas := FillAreas(init, xorg, yorg, clip);
    var tail := RectAreas(Clamped(rects[|rects| - 1], xorg, yorg, clip.extents), clip);
    assert FillAreas(rects, xorg, yorg, clip) == areas + tail;
    CoversAppend(areas, tail, px, py);
    if i < |init| {
      assert init[i] == rects[i];
      RectPixelIsFilled(init, xorg, yorg, clip, px, py, i);
    }
  }

  /** Every area handed to the fill strategies is non-empty. */
  lemma {:induction false} FillAreasNonEmpty(rects: seq<Rect>, xorg: int, yorg: int, clip: Clip, k: nat)
    requires k < |FillAreas(rects, xorg, yorg, clip)|
    ensures !IsEmpty(FillAreas(rects, xorg, yorg, clip)[k])
    decreases |rects|
  {
    var init := rects[..|rects| - 1];
    var full := Clamped(rects[|rects| - 1], xorg, yorg, clip.extents);
    var areas := FillAreas(init, xorg, yorg, clip);
    assert FillAreas(rects, xorg, yorg, clip) == areas + RectAreas(full, clip);
    if k < |areas| {
      FillAreasNonEmpty(init, xorg, yorg, clip, k);
    } else {
      RectAreasNonEmpty(full, clip, k - |areas|);
    }
  }

  /** The fill request for one area: the area moved by the drawable's offset, with the GC's colour. */
  function AreaFill(dst: Drawable, a: Box, color: bv32): (f: FillRequest)
    ensures f.width == a.x2 - a.x1 && f.height == a.y2 - a.y1
    ensures f.x - a.x1 == dst.xoff && f.y - a.y1 == dst.yoff
  {
    FillRequest(dst.bits, dst.stride, dst.bpp, a.x1 + dst.xoff, a.y1 + dst.yoff, a.x2 - a.x1, a.y2 - a.y1, color)
  }

  /** One fill handed on: the request and the strategies called for it. */
  datatype FillCall = FillCall(request: FillRequest, called: seq<Stage>)

  // ---------------------------------------------------------------------------
  // Images: xPutImage

  datatype ImageFormat = XYBitmap | XYPixmap | ZPixmap

  /**
   * xPutImage does the work itself only for Z-format images on drawables
   * whose depth is stored at its natural pixel size, with all planes and
   * GXcopy.
   */
  function PutImageRoute(format: ImageFormat, drawableBpp: int, depthBpp: int, gc: GcMode): (route: Route)
    ensures route == Accelerated <==>
      format.ZPixmap? && drawableBpp == depthBpp && gc.pm == FbAllOnes && gc.alu == GXcopy
  {
    if format == XYBitmap || format == XYPixmap || drawableBpp != depthBpp then Fallback
    else if gc.pm != FbAllOnes || gc.alu != GXcopy then Fallback
    else Accelerated
  }

  /**
   * The blit for one clipped piece of an image placed at `(x, y)` in screen
   * coordinates: the source is the image itself, read from the piece's
   * offset inside it.
   */
  function ImageBlt(image: nat, imageStride: int, dst: Drawable, x: int, y: int, a: Box): (r: BltRequest)
    ensures r.srcX == a.x1 - x && r.srcY == a.y1 - y
    ensures r.dstX - a.x1 == dst.xoff && r.dstY - a.y1 == dst.yoff
    ensures r.width == a.x2 - a.x1 && r.height == a.y2 - a.y1
  {
    BltRequest(image, dst.bits, imageStride, dst.stride, dst.bpp, dst.bpp,
               a.x1 - x, a.y1 - y, a.x1 + dst.xoff, a.y1 + dst.yoff, a.x2 - a.x1, a.y2 - a.y1)
  }

  /** The screen area an image of `w x h` pixels occupies at `(x, y)`. */
  function ImageBox(x: int, y: int, w: int, h: int): Box
  {
    Box(x, y, x + w, y + h)
  }

  /**
   * Every piece of an image blit is non-empty and reads inside the image:
   * the source rectangle starts at a non-negative offset and ends within
   * `w x h`.
   */
  lemma ImagePiecesReadInside(image: nat, imageStride: int, dst: Drawable, x: int, y: int, w: int, h: int,
                              boxes: seq<Box>, k: nat)
    requires k < |Pieces(ImageBox(x, y, w, h), boxes)|
    ensures var r := ImageBlt(image, imageStride, dst, x, y, Pieces(ImageBox(x, y, w, h), boxes)[k]);
      0 <= r.srcX && r.srcX + r.width <= w && 0 <= r.srcY && r.srcY + r.height <= h &&
      r.width > 0 && r.height > 0
  {
    var full := ImageBox(x, y, w, h);
    PiecesAreParts(full, boxes, k);
    var a := Pieces(full, boxes)[k];
    var j :| 0 <= j < |boxes| && a == Intersect(boxes[j], full);
    assert a.x1 >= x && a.x2 <= x + w && a.y1 >= y && a.y2 <= y + h;
  }

  /** One image piece handed on: the blit and the strategies called for it. */
  datatype ImageCall = ImageCall(request: BltRequest, called: seq<Stage>)

  // ---------------------------------------------------------------------------
  // The driver's private state

  /**
   * RPIAccel: the cached entry points of the primary back end, the optional
   * CPU back end used as fallback, the wrapped screen hooks and the GCOps
   * table shared by every GC.
   */
  class RpiAccel {
    const blt2dSelf: BackendSelf
    const cpuBackend: Option<Backend>
    const overlappedBlt: OverlappedEntry
    const standardBlt: Option<StandardEntry>
    const fill: Option<FillEntry>
    var savedCopyWindow: ScreenHook
    var savedCreateGC: ScreenHook
    var gcOps: Option<GcOps>
    /**
     * Whether the table `gcOps` points to has been freed.  RPIAccel_Close
     * frees it without clearing the pointer, so `gcOps` keeps its value and
     * every GC given the table still refers to it.
     */
    ghost var gcOpsFreed: bool

    /** The cached entry points: those of the primary back end, unchanged. */
    constructor (blt2d: Backend, cpuBackend: Option<Backend>, savedCopyWindow: ScreenHook, savedCreateGC: ScreenHook)
      ensures blt2dSelf == blt2d.self && this.cpuBackend == cpuBackend
      ensures overlappedBlt == blt2d.table.overlapped && standardBlt == blt2d.table.standard && fill == blt2d.table.fill
      ensures this.savedCopyWindow == savedCopyWindow && this.savedCreateGC == savedCreateGC
      ensures gcOps == None && !gcOpsFreed
    {
      blt2dSelf := blt2d.self;
      this.cpuBackend := cpuBackend;
      overlappedBlt := blt2d.table.overlapped;
      standardBlt := blt2d.table.standard;
      fill := blt2d.table.fill;
      this.savedCopyWindow := savedCopyWindow;
      this.savedCreateGC := savedCreateGC;
      gcOps := None;
      gcOpsFreed := false;
    }

    /** The strategies of xCopyNtoN for one blit: primary, CPU back end, pixman if allowed, fb. */
    function CopyAttempts(r: BltRequest, tryPixman: bool, pixman: Pixman): seq<Attempt>
    {
      [Attempt(Blt2dStage, true, BltAnswer(overlappedBlt, blt2dSelf, r)),
       Attempt(CpuBackendStage, cpuBackend != None,
               cpuBackend != None && BltAnswer(cpuBackend.value.table.overlapped, cpuBackend.value.self, r)),
       Attempt(PixmanStage, tryPixman, pixman.blt(r))]
    }

    /** The strategies of xCopyWindowProc for one blit: primary, CPU back end, fb. */
    function WindowAttempts(r: BltRequest): seq<Attempt>
    {
      [Attempt(Blt2dStage, true, BltAnswer(overlappedBlt, blt2dSelf, r)),
       Attempt(CpuBackendStage, cpuBackend != None,
               cpuBackend != None && BltAnswer(cpuBackend.value.table.overlapped, cpuBackend.value.self, r))]
    }

    /** The strategies of xPolyFillRect for one area: the back end's fill if it has one, pixman, fb. */
    function FillAttempts(f: FillRequest, pixman: Pixman): seq<Attempt>
    {
      [Attempt(Blt2dStage, fill != None, fill != None && FillAnswer(fill.value, blt2dSelf, f)),
       Attempt(PixmanStage, true, pixman.fill(f))]
    }

    /**
     * xCopyNtoN: for each box, in order, the strategies it is handed to.
     * pixman is allowed only when the copy runs neither backwards nor
     * upside down.
     */
    method CopyNtoN(src: Drawable, dst: Drawable, boxes: seq<Box>, dx: int, dy: int,
                    reverse: bool, upsidedown: bool, pixman: Pixman)
      returns (calls: seq<seq<Stage>>)
      ensures |calls| == |boxes|
      ensures forall i :: 0 <= i < |boxes| ==>
        calls[i] == Cascade(CopyAttempts(BoxBlt(src, dst, boxes[i], dx, dy), !reverse && !upsidedown, pixman))
    {
      var tryPixman := !reverse && !upsidedown;
      calls := [];
      var i := 0;
      while i < |boxes|
        invariant 0 <= i <= |boxes| && |calls| == i
        invariant forall k :: 0 <= k < i ==>
          calls[k] == Cascade(CopyAttempts(BoxBlt(src, dst, boxes[k], dx, dy), tryPixman, pixman))
      {
        var called := CopyBox(BoxBlt(src, dst, boxes[i], dx, dy), tryPixman, pixman);
        calls := calls + [called];
        i := i + 1;
      }
    }

    /** The body of the box loop of xCopyNtoN: the strategies called for one blit. */
    method CopyBox(r: BltRequest, tryPixman: bool, pixman: Pixman) returns (called: seq<Stage>)
      ensures called == Cascade(CopyAttempts(r, tryPixman, pixman))
    {
      called := [Blt2dStage];
      var done := BltAnswer(overlappedBlt, blt2dSelf, r);
      if !done {
        if cpuBackend != None {
          called := called + [CpuBackendStage];
          done := BltAnswer(cpuBackend.value.table.overlapped, cpuBackend.value.self, r);
        }
        if !done {
          if tryPixman {
            called := called + [PixmanStage];
            done := pixman.blt(r);
          }
          if !done {
            called := called + [FbStage];
          }
        }
      }
      CopyCascadeSteps(r, tryPixman, pixman);
    }

    /** The three `if (!done)` levels of xCopyNtoN unfold the cascade one strategy at a time. */
    lemma CopyCascadeSteps(r: BltRequest, tryPixman: bool, pixman: Pixman)
      ensures var a := CopyAttempts(r, tryPixman, pixman);
        Cascade(a) ==
          if a[0].answer then [Blt2dStage]
          else [Blt2dStage] + Cascade(a[1..])
      ensures var a := CopyAttempts(r, tryPixman, pixman)[1..];
        Cascade(a) ==
          if !a[0].enabled then Cascade(a[1..])
          else if a[0].answer then [CpuBackendStage]
          else [CpuBackendStage] + Cascade(a[1..])
      ensures var a := CopyAttempts(r, tryPixman, pixman)[2..];
        Cascade(a) ==
          if !tryPixman then [FbStage]
          else if pixman.blt(r) then [PixmanStage]
          else [PixmanStage, FbStage]
    {
      var a := CopyAttempts(r, tryPixman, pixman);
      assert a[2..][1..] == [];
    }

    /** xCopyWindowProc: the cascade of xCopyNtoN without pixman, box by box. */
    method CopyWindowProc(src: Drawable, dst: Drawable, boxes: seq<Box>, dx: int, dy: int)
      returns (calls: seq<seq<Stage>>)
      ensures |calls| == |boxes|
      ensures forall i :: 0 <= i < |boxes| ==>
        calls[i] == Cascade(WindowAttempts(BoxBlt(src, dst, boxes[i], dx, dy)))
    {
      calls := [];
      var i := 0;
      while i < |boxes|
        invariant 0 <= i <= |boxes| && |calls| == i
        invariant forall k :: 0 <= k < i ==>
          calls[k] == Cascade(WindowAttempts(BoxBlt(src, dst, boxes[k], dx, dy)))
      {
        var called := WindowBox(BoxBlt(src, dst, boxes[i], dx, dy));
        calls := calls + [called];
        i := i + 1;
      }
    }

    /** The body of the box loop of xCopyWindowProc. */
    method WindowBox(r: BltRequest) returns (called: seq<Stage>)
      ensures called == Cascade(WindowAttempts(r))
    {
      called := [Blt2dStage];
      var done := BltAnswer(overlappedBlt, blt2dSelf, r);
      if !done {
        if cpuBackend != None {
          called := called + [CpuBackendStage];
          done := BltAnswer(cpuBackend.value.table.overlapped, cpuBackend.value.self, r);
        }
        if !done {
          called := called + [FbStage];
        }
      }
      WindowCascadeSteps(r);
    }

    lemma WindowCascadeSteps(r: BltRequest)
      ensures var a := WindowAttempts(r);
        Cascade(a) ==
          if a[0].answer then [Blt2dStage]
          else if !a[1].enabled then [Blt2dStage, FbStage]
          else if a[1].answer then [Blt2dStage, CpuBackendStage]
          else [Blt2dStage, CpuBackendStage, FbStage]
    {
      var a := WindowAttempts(r);
      assert a[1..][1..] == [];
      assert Cascade(a[1..]) ==
        if !a[1].enabled then [FbStage]
        else if a[1].answer then [CpuBackendStage]
        else [CpuBackendStage, FbStage];
    }

    /**
     * Cascade order of xCopyNtoN: fbBlt runs exactly when the primary back
     * end, the CPU back end (when there is one) and pixman (when allowed) all
     * decline; and it is the last strategy called.
     */
    lemma CopyFallsBackToFb(r: BltRequest, tryPixman: bool, pixman: Pixman)
      ensures FbStage in Cascade(CopyAttempts(r, tryPixman, pixman)) <==>
        !BltAnswer(overlappedBlt, blt2dSelf, r) &&
        !(cpuBackend != None && BltAnswer(cpuBackend.value.table.overlapped, cpuBackend.value.self, r)) &&
        !(tryPixman && pixman.blt(r))
      ensures Cascade(CopyAttempts(r, tryPixman, pixman))[0] == Blt2dStage
    {
      var a := CopyAttempts(r, tryPixman, pixman);
      FbStageIffAllDecline(a);
      CopyCascadeSteps(r, tryPixman, pixman);
      if !(a[0].answer || (a[1].enabled && a[1].answer) || (a[2].enabled && a[2].answer)) {
        assert forall i :: 0 <= i < |a| ==> !(a[i].enabled && a[i].answer);
      }
    }

    /**
     * With the display back end as primary and the ARM CPU back end as
     * fallback, every non-empty box is declined by the primary and handed to
     * the CPU back end, which does it when its admission rules accept it;
     * otherwise pixman (when allowed) and then fbBlt follow.
     */
    lemma ShippedCopyCascade(r: BltRequest, tryPixman: bool, pixman: Pixman)
      requires blt2dSelf.DispSelf? && overlappedBlt == RpiBltEntry
      requires cpuBackend.Some? && cpuBackend.value.self.CpuSelf? && cpuBackend.value.table.overlapped == ArmBltEntry
      requires r.width > 0 && r.height > 0
      ensures var cpu := cpuBackend.value.self;
        Cascade(CopyAttempts(r, tryPixman, pixman)) ==
          [Blt2dStage, CpuBackendStage] +
          if CpuBackend.Admission(cpu.uncachedBegin, cpu.uncachedEnd, r) == CpuBackend.Accepted then []
          else if !tryPixman then [FbStage]
          else if pixman.blt(r) then [PixmanStage]
          else [PixmanStage, FbStage]
    {
      RpiDisp.RpiBltNeverCopies(blt2dSelf.fbAddr, blt2dSelf.fbSize, r);
      CopyCascadeSteps(r, tryPixman, pixman);
    }

    /**
     * With rpi_fill as the back end's fill, no area xPolyFillRect hands on
     * is filled by it: each goes on to pixman, and to fbSolid when pixman
     * declines.
     */
    lemma RpiFillPassesAreasOn(dst: Drawable, rects: seq<Rect>, xorg: int, yorg: int, clip: Clip,
                                color: bv32, pixman: Pixman, k: nat)
      requires fill == Some(RpiFillEntry) && blt2dSelf.DispSelf?
      requires k < |FillAreas(rects, xorg, yorg, clip)|
      ensures var f := AreaFill(dst, FillAreas(rects, xorg, yorg, clip)[k], color);
        Cascade(FillAttempts(f, pixman)) == (if pixman.fill(f) then [Blt2dStage, PixmanStage] else [Blt2dStage, PixmanStage, FbStage])
    {
      FillAreasNonEmpty(rects, xorg, yorg, clip, k);
      var f := AreaFill(dst, FillAreas(rects, xorg, yorg, clip)[k], color);
      RpiDisp.RpiFillAccepts(blt2dSelf.fbAddr, blt2dSelf.fbSize, f);
      var a := FillAttempts(f, pixman);
      assert a[1..][1..] == [];
      assert Cascade(a[1..]) == if pixman.fill(f) then [PixmanStage] else [PixmanStage, FbStage];
    }

    /** The cascade of one fill area: the back end's fill if there is one, then pixman, then fbSolid. */
    method FillArea(dst: Drawable, a: Box, color: bv32, pixman: Pixman) returns (call: FillCall)
      ensures call == FillCall(AreaFill(dst, a, color), Cascade(FillAttempts(AreaFill(dst, a, color), pixman)))
    {
      var f := AreaFill(dst, a, color);
      var called := [];
      var done := false;
      if fill != None {
        called := called + [Blt2dStage];
        done := FillAnswer(fill.value, blt2dSelf, f);
      }
      if !done {
        called := called + [PixmanStage];
        done := pixman.fill(f);
        if !done {
          called := called + [FbStage];
        }
      }
      var attempts := FillAttempts(f, pixman);
      assert attempts[1..][1..] == [];
      assert Cascade(attempts[1..]) == if pixman.fill(f) then [PixmanStage] else [PixmanStage, FbStage];
      call := FillCall(f, called);
    }

    /**
     * xPolyFillRect, when it does the work itself: each rectangle is moved
     * to the drawable, clamped to the clip extents and, unless empty, filled
     * whole (single clip box) or piece by piece (one piece per clip box,
     * empty pieces skipped).
     */
    method PolyFillRect(dst: Drawable, xorg: int, yorg: int, gc: FillGc, clip: Clip, rects: seq<Rect>, pixman: Pixman)
      returns (route: Route, calls: seq<FillCall>)
      ensures route == PolyFillRoute(gc)
      ensures route == Fallback ==> calls == []
      ensures route == Accelerated ==> CallsFor(calls, FillAreas(rects, xorg, yorg, clip), dst, gc.xor, pixman)
    {
      calls := [];
      if !gc.solid || gc.pm != FbAllOnes || gc.and != 0 {
        return Fallback, [];
      }
      route := Accelerated;
      var i := 0;
      while i < |rects|
        invariant 0 <= i <= |rects|
        invariant CallsFor(calls, FillAreas(rects[..i], xorg, yorg, clip), dst, gc.xor, pixman)
      {
        var full := Clamped(rects[i], xorg, yorg, clip.extents);
        var more := FillRect(dst, full, clip, gc.xor, pixman);
        assert rects[..i + 1][..i] == rects[..i];
        assert FillAreas(rects[..i + 1], xorg, yorg, clip) == FillAreas(rects[..i], xorg, yorg, clip) + RectAreas(full, clip);
        CallsForAppend(calls, FillAreas(rects[..i], xorg, yorg, clip), more, RectAreas(full, clip), dst, gc.xor, pixman);
        calls := calls + more;
        i := i + 1;
      }
      assert rects[..|rects|] == rects;
    }

    /** The body of the rectangle loop of xPolyFillRect, for one clamped rectangle. */
    method FillRect(dst: Drawable, full: Box, clip: Clip, color: bv32, pixman: Pixman) returns (calls: seq<FillCall>)
      ensures CallsFor(calls, RectAreas(full, clip), dst, color, pixman)
    {
      calls := [];
      if IsEmpty(full) {
        return;
      }
      if |clip.boxes| == 1 {
        var call := FillArea(dst, full, color, pixman);
        calls := [call];
      } else {
        calls := FillPieces(dst, full, clip.boxes, color, pixman);
      }
    }

    /** The inner loop of xPolyFillRect: one fill per non-empty piece of `full`, in clip order. */
    method FillPieces(dst: Drawable, full: Box, boxes: seq<Box>, color: bv32, pixman: Pixman)
      returns (calls: seq<FillCall>)
      ensures CallsFor(calls, Pieces(full, boxes), dst, color, pixman)
    {
      calls := [];
      var j := 0;
      while j < |boxes|
        invariant 0 <= j <= |boxes|
        invariant CallsFor(calls, Pieces(full, boxes[..j]), dst, color, pixman)
      {
        var part := Intersect(boxes[j], full);
        assert boxes[..j + 1][..j] == boxes[..j];
        var more: seq<FillCall> := [];
        if !IsEmpty(part) {
          var call := FillArea(dst, part, color, pixman);
          more := [call];
        }
        CallsForAppend(calls, Pieces(full, boxes[..j]), more, if IsEmpty(part) then [] else [part], dst, color, pixman);
        calls := calls + more;
        j := j + 1;
      }
      assert boxes[..|boxes|] == boxes;
    }

    /** `calls` are the fills of `areas`, one for one. */
    predicate CallsFor(calls: seq<FillCall>, areas: seq<Box>, dst: Drawable, color: bv32, pixman: Pixman)
      reads this
    {
      |calls| == |areas| &&
      forall k :: 0 <= k < |areas| ==>
        calls[k] == FillCall(AreaFill(dst, areas[k], color), Cascade(FillAttempts(AreaFill(dst, areas[k], color), pixman)))
    }

    lemma CallsForAppend(calls: seq<FillCall>, areas: seq<Box>, more: seq<FillCall>, moreAreas: seq<Box>,
                         dst: Drawable, color: bv32, pixman: Pixman)
      requires CallsFor(calls, areas, dst, color, pixman) && CallsFor(more, moreAreas, dst, color, pixman)
      ensures CallsFor(calls + more, areas + moreAreas, dst, color, pixman)
    {
      var all := areas + moreAreas;
      forall k | 0 <= k < |all|
        ensures (calls + more)[k] == FillCall(AreaFill(dst, all[k], color), Cascade(FillAttempts(AreaFill(dst, all[k], color), pixman)))
      {
        if k >= |areas| {
          assert all[k] == moreAreas[k - |areas|];
        }
      }
    }

    /**
     * xPutImage, when it does the work itself: the image is placed at
     * `(x, y)` in the drawable, and each non-empty piece of it inside a clip
     * box is blitted by pixman, or by fbBlt when pixman declines.
     */
    method PutImage(dstDrawableX: int, dstDrawableY: int, dst: Drawable, gc: GcMode, format: ImageFormat,
                    drawableBpp: int, depthBpp: int, image: nat, imageStride: int,
                    x: int, y: int, w: int, h: int, clip: seq<Box>, pixman: Pixman)
      returns (route: Route, calls: seq<ImageCall>)
      ensures route == PutImageRoute(format, drawableBpp, depthBpp, gc)
      ensures route == Fallback ==> calls == []
      ensures route == Accelerated ==>
        var sx := x + dstDrawableX;
        var sy := y + dstDrawableY;
        var pieces := Pieces(ImageBox(sx, sy, w, h), clip);
        |calls| == |pieces| &&
        forall k :: 0 <= k < |pieces| ==>
          var r := ImageBlt(image, imageStride, dst, sx, sy, pieces[k]);
          calls[k] == ImageCall(r, if pixman.blt(r) then [PixmanStage] else [PixmanStage, FbStage])
    {
      calls := [];
      if format == XYBitmap || format == XYPixmap || drawableBpp != depthBpp {
        return Fallback, [];
      }
      if gc.pm != FbAllOnes || gc.alu != GXcopy {
        return Fallback, [];
      }
      route := Accelerated;
      var sx := x + dstDrawableX;
      var sy := y + dstDrawableY;
      var full := ImageBox(sx, sy, w, h);
      var j := 0;
      while j < |clip|
        invariant 0 <= j <= |clip|
        invariant |calls| == |Pieces(full, clip[..j])|
        invariant forall k :: 0 <= k < |calls| ==>
          var r := ImageBlt(image, imageStride, dst, sx, sy, Pieces(full, clip[..j])[k]);
          calls[k] == ImageCall(r, if pixman.blt(r) then [PixmanStage] else [PixmanStage, FbStage])
      {
        assert clip[..j + 1][..j] == clip[..j];
        var part := Intersect(clip[j], full);
        if !IsEmpty(part) {
          var r := ImageBlt(image, imageStride, dst, sx, sy, part);
          var called := [PixmanStage];
          var done := pixman.blt(r);
          if !done {
            called := called + [FbStage];
          }
          calls := calls + [ImageCall(r, called)];
        }
        j := j + 1;
      }
      assert clip[..|clip|] == clip;
    }

    /**
     * xCreateGC: after fbCreateGC succeeds, the first call builds the shared
     * table from the GC's fb operations with the three driver hooks put in;
     * every GC then gets that shared table.
     */
    method CreateGC(gc: Gc, fbCreateGCOk: bool, fbOps: GcOps) returns (ok: bool)
      modifies this, gc
      ensures ok == fbCreateGCOk
      ensures !ok ==> gcOps == old(gcOps) && gc.ops == old(gc.ops)
      ensures ok ==> gcOps == (if old(gcOps) == None then Some(Hooked(fbOps)) else old(gcOps))
      ensures ok ==> gc.ops == gcOps.value
      ensures savedCopyWindow == old(savedCopyWindow) && savedCreateGC == old(savedCreateGC)
      ensures gcOpsFreed == old(gcOpsFreed)
    {
      if !fbCreateGCOk {
        return false;
      }
      gc.ops := fbOps;
      if gcOps == None {
        gcOps := Some(Hooked(gc.ops));
      }
      gc.ops := gcOps.value;
      return true;
    }

    /**
     * RPIAccel_Close: put back the wrapped screen hooks and free the shared
     * GCOps table when there is one.  The pointer to the table is not
     * cleared: it dangles afterwards.
     */
    method Close(screen: Screen)
      modifies this, screen
      ensures screen.copyWindow == old(savedCopyWindow) && screen.createGC == old(savedCreateGC)
      ensures gcOps == old(gcOps)
      ensures gcOpsFreed == (old(gcOpsFreed) || old(gcOps) != None)
      ensures savedCopyWindow == old(savedCopyWindow) && savedCreateGC == old(savedCreateGC)
    {
      screen.copyWindow := savedCopyWindow;
      screen.createGC := savedCreateGC;
      if gcOps != None {
        gcOpsFreed := true;
      }
    }
  }

  /**
   * RPIAccel_Init: cache the primary back end's entry points and the CPU
   * back end, and wrap the screen's CopyWindow and CreateGC.
   */
  method RpiAccelInit(screen: Screen, blt2d: Backend, cpuBackend: Option<Backend>, allocationFails: bool)
    returns (accel: RpiAccel?)
    modifies screen
    ensures accel == null <==> allocationFails
    ensures accel == null ==> screen.copyWindow == old(screen.copyWindow) && screen.createGC == old(screen.createGC)
    ensures accel != null ==>
      && fresh(accel)
      && accel.blt2dSelf == blt2d.self && accel.cpuBackend == cpuBackend
      && accel.overlappedBlt == blt2d.table.overlapped && accel.standardBlt == blt2d.table.standard
      && accel.fill == blt2d.table.fill
      && accel.savedCopyWindow == old(screen.copyWindow) && accel.savedCreateGC == old(screen.createGC)
      && accel.gcOps == None && !accel.gcOpsFreed
      && screen.copyWindow == XCopyWindowHook && screen.createGC == XCreateGCHook
  {
    if allocationFails {
      return null;
    }
    accel := new RpiAccel(blt2d, cpuBackend, screen.copyWindow, screen.createGC);
    screen.copyWindow := XCopyWindowHook;
    screen.createGC := XCreateGCHook;
  }

  /** Init followed by Close leaves the screen's hooks as they were. */
  method InitThenClose(screen: Screen, blt2d: Backend, cpuBackend: Option<Backend>)
    modifies screen
    ensures screen.copyWindow == old(screen.copyWindow) && screen.createGC == old(screen.createGC)
  {
    var accel := RpiAccelInit(screen, blt2d, cpuBackend, false);
    accel.Close(screen);
  }
}
