/**
 * The CPU back end: the admission rules of `overlapped_blt_arm`, the
 * conversion of its pixel-unit arguments into the byte units of the
 * rectangle copy, the always-declining entry points, and the table
 * `cpu_backend_init` publishes.
 */
module CpuBackend {
  import opened Memory
  import opened Blt8
  import opened Blt2d

  /** Below these widths (in pixels) a blit is left to a more compact copier. */
  const WidthThreshold32Bpp: int := 40
  const WidthThreshold16Bpp: int := 60

  datatype Reason = TooNarrow | SourceNotUncached | UnsupportedFormat
  datatype Verdict = Declined(reason: Reason) | Accepted

  /** A blit within one row that moves its pixels to the right over themselves. */
  predicate RightwardOverlap(r: BltRequest)
  {
    r.srcY == r.dstY && r.srcX < r.dstX && r.srcX + r.width >= r.dstX
  }

  /** The width heuristic: narrow 16 and 32 bpp blits go elsewhere, unless they overlap rightwards. */
  predicate Narrow(r: BltRequest)
  {
    ((r.srcBpp == 16 && r.width < WidthThreshold16Bpp) || (r.srcBpp == 32 && r.width < WidthThreshold32Bpp))
    && !RightwardOverlap(r)
  }

  /** `src_bpp != dst_bpp || src_bpp & 7 || src_stride < 0 || dst_stride < 0`, negated. */
  predicate SupportedFormat(r: BltRequest)
  {
    r.srcBpp == r.dstBpp && r.srcBpp % 8 == 0 && r.srcStride >= 0 && r.dstStride >= 0
  }

  /** The checks of overlapped_blt_arm, in the order it makes them. */
  function Admission(uncachedBegin: nat, uncachedEnd: nat, r: BltRequest): Verdict
  {
    if Narrow(r) then Declined(TooNarrow)
    else if !(uncachedBegin <= r.srcBits < uncachedEnd) then Declined(SourceNotUncached)
    else if !SupportedFormat(r) then Declined(UnsupportedFormat)
    else Accepted
  }

  /** `src_bpp >> 3`: an arithmetic shift, which is floor division by 8. */
  function BytesPerPixel(bpp: int): int
  {
    bpp / 8
  }

  /** The arguments of twopass_blt_8bpp_arm, in bytes. */
  datatype RowArgs = RowArgs(width: int, height: int, dst: int, dstStride: int, src: int, srcStride: int)

  function RowArgsOf(r: BltRequest): RowArgs
  {
    var bpp := BytesPerPixel(r.srcBpp);
    RowArgs(r.width * bpp, r.height,
            r.dstBits + r.dstY * r.dstStride * 4 + r.dstX * bpp, r.dstStride * 4,
            r.srcBits + r.srcY * r.srcStride * 4 + r.srcX * bpp, r.srcStride * 4)
  }

  /** The byte arguments are addresses and sizes, and every row the memmove is given fits in memory. */
  predicate RowArgsFit(n: nat, a: RowArgs)
  {
    a.width >= 0 && a.dst >= 0 && a.src >= 0 && a.dstStride >= 0 && a.srcStride >= 0 &&
    AllRowsFit(n, TopDown(a.dst, a.dstStride, a.src, a.srcStride, a.width, RowCount(a.height)))
  }

  /** The row copies an accepted blit performs. */
  function RowsOf(a: RowArgs): seq<Copy>
    requires a.width >= 0 && a.dst >= 0 && a.src >= 0 && a.dstStride >= 0 && a.srcStride >= 0
  {
    RowOrder(a.dst, a.dstStride, a.src, a.srcStride, a.width, a.height)
  }

  /** overlapped_blt_noop: the entry point that declines everything. */
  function OverlappedBltNoop(r: BltRequest): (ok: bool)
    ensures !ok
  {
    false
  }

  /** fill_noop: declines every fill. */
  function FillNoop(f: FillRequest): (ok: bool)
    ensures !ok
  {
    false
  }

  /** The state of a CPU back end (cpu_backend_t). */
  class CpuBackend {
    var uncachedBegin: nat
    var uncachedEnd: nat
    var blt2d: Table

    /**
     * cpu_backend_init after a successful allocation: remember the uncached
     * area and publish the entry points.  On ARM the overlapped blit is
     * overlapped_blt_arm and standard_blt is left out; elsewhere the noop
     * stays.  No fill is offered.
     */
    constructor (uncachedBuffer: nat, uncachedBufferSize: nat, arm: bool)
      ensures uncachedBegin == uncachedBuffer && uncachedEnd == uncachedBuffer + uncachedBufferSize
      ensures blt2d == Table(if arm then ArmBltEntry else NoopBltEntry, None, None)
    {
      uncachedBegin := uncachedBuffer;
      uncachedEnd := uncachedBuffer + uncachedBufferSize;
      var overlapped := NoopBltEntry;
      if arm {
        overlapped := ArmBltEntry;
      }
      blt2d := Table(overlapped, None, None);
    }

    /**
     * overlapped_blt_arm: decline (0) unless Admission accepts; otherwise
     * convert to bytes and copy the rectangle row by row (1).
     */
    method OverlappedBltArm(mem: array<Byte>, r: BltRequest, stackAddr: nat)
      returns (ok: bool, ghost rows: seq<Copy>)
      requires Admission(uncachedBegin, uncachedEnd, r) == Accepted ==> RowArgsFit(mem.Length, RowArgsOf(r))
      modifies mem
      ensures ok <==> Admission(uncachedBegin, uncachedEnd, r) == Accepted
      ensures !ok ==> rows == [] && mem[..] == old(mem[..])
      ensures ok ==> rows == RowsOf(RowArgsOf(r)) && AllInBounds(mem.Length, rows) &&
                     mem[..] == Apply(old(mem[..]), rows)
    {
      rows := [];
      if (r.srcBpp == 16 && r.width < WidthThreshold16Bpp) || (r.srcBpp == 32 && r.width < WidthThreshold32Bpp) {
        if !(r.srcY == r.dstY && r.srcX < r.dstX && r.srcX + r.width >= r.dstX) {
          return false, rows;
        }
      }
      var bpp := r.srcBpp / 8;
      var uncachedSource := uncachedBegin <= r.srcBits && r.srcBits < uncachedEnd;
      if !uncachedSource {
        return false, rows;
      }
      if r.srcBpp != r.dstBpp || r.srcBpp % 8 != 0 || r.srcStride < 0 || r.dstStride < 0 {
        return false, rows;
      }
      var a := RowArgsOf(r);
      rows := TwopassBlt8bpp(mem, a.width, r.height, a.dst, a.dstStride, a.src, a.srcStride, stackAddr);
      ok := true;
    }
  }

  /**
   * cpu_backend_init: when the allocation fails there is no back end;
   * otherwise a fresh one as the constructor describes.
   */
  method CpuBackendInit(uncachedBuffer: nat, uncachedBufferSize: nat, arm: bool, allocationFails: bool)
    returns (ctx: CpuBackend?)
    ensures allocationFails <==> ctx == null
    ensures ctx != null ==>
      && fresh(ctx)
      && ctx.uncachedBegin == uncachedBuffer && ctx.uncachedEnd == uncachedBuffer + uncachedBufferSize
      && ctx.blt2d == Table(if arm then ArmBltEntry else NoopBltEntry, None, None)
  {
    if allocationFails {
      return null;
    }
    ctx := new CpuBackend(uncachedBuffer, uncachedBufferSize, arm);
  }

  // ---------------------------------------------------------------------------
  // What the admission rules promise.

  /** Accepted exactly when every check passes; each refusal names the first check that failed. */
  lemma AdmissionOrder(uncachedBegin: nat, uncachedEnd: nat, r: BltRequest)
    ensures Admission(uncachedBegin, uncachedEnd, r) == Declined(TooNarrow) <==> Narrow(r)
    ensures Admission(uncachedBegin, uncachedEnd, r) == Declined(SourceNotUncached) <==>
              !Narrow(r) && !(uncachedBegin <= r.srcBits < uncachedEnd)
    ensures Admission(uncachedBegin, uncachedEnd, r) == Declined(UnsupportedFormat) <==>
              !Narrow(r) && uncachedBegin <= r.srcBits < uncachedEnd && !SupportedFormat(r)
    ensures Admission(uncachedBegin, uncachedEnd, r) == Accepted <==>
              !Narrow(r) && uncachedBegin <= r.srcBits < uncachedEnd && SupportedFormat(r)
  {
  }

  /**
   * An accepted blit reads an uncached source, has equal depths that are
   * whole bytes and non-negative strides, and is wide enough for its depth
   * unless it moves pixels rightwards within one row.
   */
  lemma AcceptedRequests(uncachedBegin: nat, uncachedEnd: nat, r: BltRequest)
    requires Admission(uncachedBegin, uncachedEnd, r) == Accepted
    ensures uncachedBegin <= r.srcBits < uncachedEnd
    ensures r.srcBpp == r.dstBpp && r.srcBpp % 8 == 0 && r.srcStride >= 0 && r.dstStride >= 0
    ensures r.srcBpp == 16 && r.width < 60 ==> r.srcY == r.dstY && r.srcX < r.dstX <= r.srcX + r.width
    ensures r.srcBpp == 32 && r.width < 40 ==> r.srcY == r.dstY && r.srcX < r.dstX <= r.srcX + r.width
  {
  }

  /** A rightward overlap within a row is never refused for being narrow, whatever its width. */
  lemma RightwardOverlapNeverTooNarrow(uncachedBegin: nat, uncachedEnd: nat, r: BltRequest)
    requires r.srcY == r.dstY && r.srcX < r.dstX <= r.srcX + r.width
    ensures Admission(uncachedBegin, uncachedEnd, r) != Declined(TooNarrow)
  {
  }

  /** A wide enough 16 or 32 bpp blit from the uncached area with matching depths is accepted. */
  lemma WideUncachedAccepted(uncachedBegin: nat, uncachedEnd: nat, r: BltRequest)
    requires r.srcBpp == r.dstBpp && (r.srcBpp == 16 || r.srcBpp == 32)
    requires r.width >= 60 && r.srcStride >= 0 && r.dstStride >= 0
    requires uncachedBegin <= r.srcBits < uncachedEnd
    ensures Admission(uncachedBegin, uncachedEnd, r) == Accepted
  {
  }

  /**
   * The unit conversion.  Within one surface (same base, same stride), an
   * accepted blit at depth `8 * bpp` copies rows of `width * bpp` bytes, one
   * line of `4 * stride` bytes apart, starting at byte column `x * bpp` of
   * line `y`.
   */
  lemma RowArgsInSurface(r: BltRequest, bpp: nat)
    requires r.srcBits == r.dstBits && r.srcStride == r.dstStride && r.srcStride >= 0
    requires r.srcBpp == 8 * bpp
    requires r.srcX >= 0 && r.srcY >= 0 && r.dstX >= 0 && r.dstY >= 0
    ensures RowArgsOf(r) == RowArgs(r.width * bpp, r.height,
                                    Pixel(r.dstBits, 4 * r.srcStride, r.dstX * bpp, r.dstY), 4 * r.srcStride,
                                    Pixel(r.dstBits, 4 * r.srcStride, r.srcX * bpp, r.srcY), 4 * r.srcStride)
  {
    assert BytesPerPixel(r.srcBpp) == bpp;
    assert r.dstY * r.dstStride * 4 == r.dstY * (4 * r.srcStride);
    assert r.srcY * r.srcStride * 4 == r.srcY * (4 * r.srcStride);
  }

  /**
   * Overlap safety of the whole entry point: for an accepted blit within
   * one surface (its byte arguments as RowArgsInSurface gives them) whose
   * rows stay inside their lines, byte `x` of destination row `j` ends up
   * holding what byte `x` of source row `j` held before the call, however
   * the two rectangles overlap.
   */
  lemma OverlappedBltCopiesSnapshot(m0: seq<Byte>, a: RowArgs, base: nat, stride: nat, dx: nat, dy: nat,
                                    sx: nat, sy: nat, width: nat, height: int, j: nat, x: nat)
    requires a == RowArgs(width, height, Pixel(base, stride, dx, dy), stride, Pixel(base, stride, sx, sy), stride)
    requires dx + width <= stride && sx + width <= stride
    requires RowArgsFit(|m0|, a)
    requires j < RowCount(height) && x < width
    ensures Pixel(base, stride, dx + x, dy + j) < |m0| && Pixel(base, stride, sx + x, sy + j) < |m0|
    ensures AllInBounds(|m0|, RowsOf(a))
    ensures Apply(m0, RowsOf(a))[Pixel(base, stride, dx + x, dy + j)] == m0[Pixel(base, stride, sx + x, sy + j)]
  {
    AcceptedRowsInBounds(|m0|, a);
    SurfaceBltCopiesSnapshot(m0, base, stride, dx, dy, sx, sy, width, height, j, x);
  }

  /** The rows of a blit whose rows all fit are all inside memory, in whichever order they run. */
  lemma AcceptedRowsInBounds(n: nat, a: RowArgs)
    requires RowArgsFit(n, a)
    ensures AllInBounds(n, RowsOf(a))
  {
    var fwd := TopDown(a.dst, a.dstStride, a.src, a.srcStride, a.width, RowCount(a.height));
    RowsFitInBounds(n, fwd);
    ReversedRowsFit(fwd, n);
    RowsFitInBounds(n, Reverse(fwd));
  }
}
