/**
 * The blt2d interface shared by the back ends and the X hooks: the request
 * records its entry points receive and the table of entry points a back end
 * publishes.  An entry point is named by a tag rather than held as a
 * function pointer; a missing entry (a NULL pointer) is `None`.
 */
module Blt2d {
  datatype Option<T> = None | Some(value: T)

  /**
   * The arguments of an `overlapped_blt` or `standard_blt` call: surface
   * base addresses, strides in 32-bit words, depths in bits per pixel,
   * positions and sizes in pixels.
   */
  datatype BltRequest = BltRequest(
    srcBits: nat, dstBits: nat,
    srcStride: int, dstStride: int,
    srcBpp: int, dstBpp: int,
    srcX: int, srcY: int, dstX: int, dstY: int,
    width: int, height: int)

  /** The arguments of a `fill` call. */
  datatype FillRequest = FillRequest(
    bits: nat, stride: int, bpp: int,
    x: int, y: int, width: int, height: int,
    color: bv32)

  datatype OverlappedEntry = NoopBltEntry | ArmBltEntry | RpiBltEntry
  datatype StandardEntry = StandardBltEntry
  datatype FillEntry = NoopFillEntry | RpiFillEntry

  /** A back end's published entry points. */
  datatype Table = Table(overlapped: OverlappedEntry, standard: Option<StandardEntry>, fill: Option<FillEntry>)
}
