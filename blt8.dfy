/**
 * The rectangle copy of the CPU back end (`twopass_blt_8bpp_arm`): one
 * uncached-source memmove per row.  When the source rectangle starts inside
 * the first destination row and reaches below its start, the rows are walked
 * from the last to the first, by starting at the last row and negating both
 * strides, so that no source row is overwritten before it has been read.
 */
module Blt8 {
  import opened Memory
  import opened Memmove

  /** Row `i` of a rectangle copy: `width` bytes from source row `i` to destination row `i`. */
  function RowCopy(dst: nat, dstStride: nat, src: nat, srcStride: nat, width: nat, i: nat): Copy
  {
    Copy(dst + i * dstStride, src + i * srcStride, width)
  }

  /** The first `rows` rows of a rectangle copy, first row first. */
  function TopDown(dst: nat, dstStride: nat, src: nat, srcStride: nat, width: nat, rows: nat): (r: seq<Copy>)
    ensures |r| == rows
  {
    seq(rows, i requires 0 <= i < rows => RowCopy(dst, dstStride, src, srcStride, width, i))
  }

  function Reverse<T>(s: seq<T>): (r: seq<T>)
    ensures |r| == |s|
  {
    seq(|s|, i requires 0 <= i < |s| => s[|s| - 1 - i])
  }

  /** How often `while (--height >= 0)` runs its body. */
  function RowCount(height: int): nat
  {
    if height > 0 then height else 0
  }

  /**
   * The overlap test that selects the walk from the last row: the source
   * starts before the end of the first destination row, and the source
   * rectangle ends after the start of the destination.
   */
  predicate BottomUp(dst: nat, src: nat, width: nat, srcStride: nat, height: int)
  {
    src < dst + width && src + srcStride * height > dst
  }

  /** The row copies in the order twopass_blt_8bpp_arm issues them. */
  function RowOrder(dst: nat, dstStride: nat, src: nat, srcStride: nat, width: nat, height: int): seq<Copy>
  {
    var rows := TopDown(dst, dstStride, src, srcStride, width, RowCount(height));
    if BottomUp(dst, src, width, srcStride, height) then Reverse(rows) else rows
  }

  /**
   * A row the memmove can be asked to copy: the destination lies in memory
   * and the source can be read up to the memmove's over-fetch limit.
   */
  predicate RowFits(n: nat, c: Copy)
  {
    c.dst + c.len <= n && c.src <= n && (c.len > 0 ==> FetchEnd(c.src, c.len) <= n)
  }

  predicate AllRowsFit(n: nat, cs: seq<Copy>)
  {
    forall i :: 0 <= i < |cs| ==> RowFits(n, cs[i])
  }

  /** A row the memmove can copy is a copy inside memory. */
  lemma RowsFitInBounds(n: nat, cs: seq<Copy>)
    requires AllRowsFit(n, cs)
    ensures AllInBounds(n, cs)
  {
    forall i | 0 <= i < |cs| ensures CopyInBounds(n, cs[i]) {
      var a := cs[i].src % Align;
      assert a <= ExtraSize(a);
    }
  }

  // ---------------------------------------------------------------------------
  // The routine.

  /**
   * `rows` are the copies a pair of pointers passes through when they start
   * at `d0` and `s0` and step by `dStep` and `sStep`, `width` bytes each.
   */
  predicate Walks(rows: seq<Copy>, d0: int, dStep: int, s0: int, sStep: int, width: nat)
  {
    (|rows| > 0 ==> rows[0].dst == d0 && rows[0].src == s0) &&
    (forall k :: 0 < k < |rows| ==>
      rows[k].dst == rows[k - 1].dst + dStep && rows[k].src == rows[k - 1].src + sStep) &&
    (forall k :: 0 <= k < |rows| ==> rows[k].len == width)
  }

  /**
   * The row loop `while (--height >= 0)`: memmove one row, then step both
   * pointers by their (possibly negated) strides.  `rows` names the copies
   * the pointers walk through.
   */
  method RowLoop(mem: array<Byte>, width: nat, height: int, dstBytes: int, dstStride: int,
                 srcBytes: int, srcStride: int, stackAddr: nat, ghost rows: seq<Copy>)
    requires |rows| == RowCount(height)
    requires Walks(rows, dstBytes, dstStride, srcBytes, srcStride, width)
    requires AllRowsFit(mem.Length, rows)
    modifies mem
    ensures AllInBounds(mem.Length, rows)
    ensures mem[..] == Apply(old(mem[..]), rows)
  {
    RowsFitInBounds(mem.Length, rows);
    ghost var m0 := mem[..];
    ghost var k := 0;
    var h, d, s := height, dstBytes, srcBytes;
    assert rows[..0] == [];
    while h > 0
      invariant 0 <= k <= |rows| && (h > 0 ==> k + h == |rows|) && (h <= 0 ==> k == |rows|)
      invariant k < |rows| ==> d == rows[k].dst && s == rows[k].src
      invariant mem[..] == Apply(m0, rows[..k])
    {
      h := h - 1;
      ghost var _ := TwopassMemmove(mem, d, s, width, stackAddr);
      ApplyAppend(m0, rows[..k], rows[k]);
      assert rows[..k + 1] == rows[..k] + [rows[k]];
      d := d + dstStride;
      s := s + srcStride;
      k := k + 1;
    }
    assert rows[..k] == rows;
  }

  /**
   * twopass_blt_8bpp_arm: copy a `width`-byte by `height`-row rectangle,
   * one memmove per row, at the row order RowOrder gives.  Whether or not
   * the inner test holds, the same loop runs over the same rows.
   */
  method TwopassBlt8bpp(mem: array<Byte>, width: nat, height: int, dst: nat, dstStride: nat,
                        src: nat, srcStride: nat, stackAddr: nat)
    returns (ghost rows: seq<Copy>)
    requires AllRowsFit(mem.Length, TopDown(dst, dstStride, src, srcStride, width, RowCount(height)))
    modifies mem
    ensures rows == RowOrder(dst, dstStride, src, srcStride, width, height)
    ensures AllInBounds(mem.Length, rows)
    ensures mem[..] == Apply(old(mem[..]), rows)
  {
    var dstBytes: int, srcBytes: int := dst, src;
    var dStride: int, sStride: int := dstStride, srcStride;
    ghost var forward := TopDown(dst, dstStride, src, srcStride, width, RowCount(height));
    if src < dst + width && src + srcStride * height > dst {
      srcBytes := srcBytes + sStride * height - sStride;
      dstBytes := dstBytes + dStride * height - dStride;
      dStride := -dStride;
      sStride := -sStride;
      rows := Reverse(forward);
      ReversedRowsWalk(dst, dstStride, src, srcStride, width, height);
      ReversedRowsFit(forward, mem.Length);
      if srcBytes + width > dstBytes {
        RowLoop(mem, width, height, dstBytes, dStride, srcBytes, sStride, stackAddr, rows);
        return;
      }
    } else {
      rows := forward;
      ForwardRowsWalk(dst, dstStride, src, srcStride, width, RowCount(height));
    }
    RowLoop(mem, width, height, dstBytes, dStride, srcBytes, sStride, stackAddr, rows);
  }

  /** The next row is one stride further on, in both surfaces. */
  lemma RowStep(dst: nat, dstStride: nat, src: nat, srcStride: nat, width: nat, j: nat)
    ensures RowCopy(dst, dstStride, src, srcStride, width, j + 1).dst == RowCopy(dst, dstStride, src, srcStride, width, j).dst + dstStride
    ensures RowCopy(dst, dstStride, src, srcStride, width, j + 1).src == RowCopy(dst, dstStride, src, srcStride, width, j).src + srcStride
  {
    assert (j + 1) * dstStride == j * dstStride + dstStride;
    assert (j + 1) * srcStride == j * srcStride + srcStride;
  }

  /** The top-down walk starts at the first rows and steps by the strides. */
  lemma ForwardRowsWalk(dst: nat, dstStride: nat, src: nat, srcStride: nat, width: nat, h: nat)
    ensures Walks(TopDown(dst, dstStride, src, srcStride, width, h), dst, dstStride, src, srcStride, width)
  {
    var rows := TopDown(dst, dstStride, src, srcStride, width, h);
    forall k | 0 < k < |rows|
      ensures rows[k].dst == rows[k - 1].dst + dstStride && rows[k].src == rows[k - 1].src + srcStride
    {
      RowStep(dst, dstStride, src, srcStride, width, k - 1);
    }
  }

  /**
   * The bottom-up walk starts at the last rows (`+ stride * height - stride`)
   * and steps by the negated strides; the rows it passes through are those of
   * the top-down walk in reverse.
   */
  lemma ReversedRowsWalk(dst: nat, dstStride: nat, src: nat, srcStride: nat, width: nat, height: int)
    ensures Walks(Reverse(TopDown(dst, dstStride, src, srcStride, width, RowCount(height))),
                  dst + dstStride * height - dstStride, -(dstStride as int),
                  src + srcStride * height - srcStride, -(srcStride as int), width)
  {
    var h := RowCount(height);
    var fwd := TopDown(dst, dstStride, src, srcStride, width, h);
    if h > 0 {
      ForwardRowsWalk(dst, dstStride, src, srcStride, width, h);
      ReverseWalk(fwd, dst, dstStride, src, srcStride, width);
      LastRow(dst, dstStride, src, srcStride, width, h);
      assert fwd[h - 1] == RowCopy(dst, dstStride, src, srcStride, width, h - 1);
    }
  }

  /** Walking a non-empty walk backwards starts at its last copy and steps by the negated steps. */
  lemma ReverseWalk(rows: seq<Copy>, d0: int, dStep: int, s0: int, sStep: int, width: nat)
    requires |rows| > 0 && Walks(rows, d0, dStep, s0, sStep, width)
    ensures Walks(Reverse(rows), rows[|rows| - 1].dst, -dStep, rows[|rows| - 1].src, -sStep, width)
  {
    var r := Reverse(rows);
    var n := |rows|;
    forall k | 0 < k < n
      ensures r[k].dst == r[k - 1].dst + -dStep && r[k].src == r[k - 1].src + -sStep
    {
      assert r[k] == rows[n - 1 - k] && r[k - 1] == rows[n - 1 - k + 1];
    }
    forall k | 0 <= k < n ensures r[k].len == width {
      assert r[k] == rows[n - 1 - k];
    }
  }

  /** The last of `h` rows starts `stride * h - stride` past the first. */
  lemma LastRow(dst: nat, dstStride: nat, src: nat, srcStride: nat, width: nat, h: nat)
    requires h > 0
    ensures RowCopy(dst, dstStride, src, srcStride, width, h - 1).dst == dst + dstStride * h - dstStride
    ensures RowCopy(dst, dstStride, src, srcStride, width, h - 1).src == src + srcStride * h - srcStride
  {
    assert (h - 1) * dstStride == dstStride * h - dstStride;
    assert (h - 1) * srcStride == srcStride * h - srcStride;
  }

  /** Reversing the rows does not change which of them fit. */
  lemma ReversedRowsFit(fwd: seq<Copy>, n: nat)
    requires AllRowsFit(n, fwd)
    ensures AllRowsFit(n, Reverse(fwd))
  {
    var rows := Reverse(fwd);
    forall k | 0 <= k < |rows| ensures RowFits(n, rows[k]) {
      assert rows[k] == fwd[|fwd| - 1 - k];
    }
  }

  // ---------------------------------------------------------------------------
  // What the row order promises.

  /**
   * The memmove runs once per row, max(height, 0) times, always `width`
   * bytes, and always from source row j to destination row j; the rows run
   * from the last to the first exactly when the overlap test holds.
   */
  lemma RowOrderPairsRows(dst: nat, dstStride: nat, src: nat, srcStride: nat, width: nat, height: int)
    ensures var rows := RowOrder(dst, dstStride, src, srcStride, width, height);
      |rows| == RowCount(height) &&
      forall k :: 0 <= k < |rows| ==>
        rows[k] == RowCopy(dst, dstStride, src, srcStride, width,
                           if BottomUp(dst, src, width, srcStride, height) then |rows| - 1 - k else k)
  {
  }

  /** Byte address of column `x` of line `y` of a surface at `base` with `stride` bytes per line. */
  function Pixel(base: nat, stride: nat, x: nat, y: nat): nat
  {
    base + y * stride + x
  }

  lemma {:induction false} MulAtLeast(a: nat, b: nat)
    requires a >= 1
    ensures a * b >= b
  {
    if a > 1 {
      MulAtLeast(a - 1, b);
      assert a * b == (a - 1) * b + b;
    }
  }

  /** A run of `w` bytes that does not cross the end of its line ends before any later line starts. */
  lemma LinesApart(base: nat, stride: nat, x1: nat, y1: nat, x2: nat, y2: nat, w: nat)
    requires y1 < y2 && x1 + w <= stride
    ensures Pixel(base, stride, x1, y1) + w <= Pixel(base, stride, x2, y2)
  {
    MulAtLeast(y2 - y1, stride);
    assert y2 * stride == y1 * stride + (y2 - y1) * stride;
  }

  /** Row `i` of a blit within one surface runs along lines `dy + i` and `sy + i`. */
  lemma RowOnLines(base: nat, stride: nat, dx: nat, dy: nat, sx: nat, sy: nat, width: nat, i: nat)
    ensures RowCopy(Pixel(base, stride, dx, dy), stride, Pixel(base, stride, sx, sy), stride, width, i)
         == Copy(Pixel(base, stride, dx, dy + i), Pixel(base, stride, sx, sy + i), width)
  {
    assert (dy + i) * stride == dy * stride + i * stride;
    assert (sy + i) * stride == sy * stride + i * stride;
  }

  /**
   * Overlap safety.  For a blit within one surface (same base, same stride)
   * whose rows do not run past the end of a line, the order twopass_blt_8bpp_arm
   * picks never writes a row that a later row still has to read, and no two
   * rows write the same byte.
   */
  lemma SurfaceOrderIsSafe(base: nat, stride: nat, dx: nat, dy: nat, sx: nat, sy: nat, width: nat, height: int)
    requires dx + width <= stride && sx + width <= stride
    ensures var rows := RowOrder(Pixel(base, stride, dx, dy), stride, Pixel(base, stride, sx, sy), stride, width, height);
      NoReadAfterWrite(rows) && DestinationsDisjoint(rows)
  {
    var rows := RowOrder(Pixel(base, stride, dx, dy), stride, Pixel(base, stride, sx, sy), stride, width, height);
    RowOrderPairsRows(Pixel(base, stride, dx, dy), stride, Pixel(base, stride, sx, sy), stride, width, height);
    if width > 0 && height > 0 {
      LineOrder(base, stride, dx, dy, sx, sy, width, height);
      forall k, l | 0 <= k < l < |rows|
        ensures Disjoint(rows[k].dst, rows[k].len, rows[l].src, rows[l].len)
        ensures Disjoint(rows[k].dst, rows[k].len, rows[l].dst, rows[l].len)
      {
        var a := RowAt(base, stride, dx, dy, sx, sy, width, height, k);
        var b := RowAt(base, stride, dx, dy, sx, sy, width, height, l);
        LinesDisjoint(base, stride, dx, dy + a, sx, sy + b, width);
        LinesDisjoint(base, stride, dx, dy + a, dx, dy + b, width);
      }
    }
  }

  /** Copies along two different lines never touch the same byte. */
  lemma LinesDisjoint(base: nat, stride: nat, x1: nat, y1: nat, x2: nat, y2: nat, w: nat)
    requires x1 + w <= stride && x2 + w <= stride && y1 != y2
    ensures Disjoint(Pixel(base, stride, x1, y1), w, Pixel(base, stride, x2, y2), w)
  {
    if y1 < y2 {
      LinesApart(base, stride, x1, y1, x2, y2, w);
    } else {
      LinesApart(base, stride, x2, y2, x1, y1, w);
    }
  }

  /**
   * What the overlap test says about lines: it walks from the last row only
   * when the source starts on the destination's line or above it, and it
   * walks from the first row only when the source starts on that line or
   * below it, or ends above it.
   */
  lemma LineOrder(base: nat, stride: nat, dx: nat, dy: nat, sx: nat, sy: nat, width: nat, height: int)
    requires dx + width <= stride && sx + width <= stride && width > 0 && height > 0
    ensures BottomUp(Pixel(base, stride, dx, dy), Pixel(base, stride, sx, sy), width, stride, height) ==> sy <= dy
    ensures !BottomUp(Pixel(base, stride, dx, dy), Pixel(base, stride, sx, sy), width, stride, height) ==>
              sy >= dy || sy + height <= dy
  {
    var d, s := Pixel(base, stride, dx, dy), Pixel(base, stride, sx, sy);
    if sy > dy {
      LinesApart(base, stride, dx, dy, sx, sy, width);
    }
    if sy < dy && dy < sy + height {
      LinesApart(base, stride, sx, sy, dx, dy, width);
      assert s + stride * height == Pixel(base, stride, sx, sy + height);
      LinesApart(base, stride, dx, dy, sx, sy + height, width);
    }
  }

  /** Copy `k` of RowOrder runs along destination line `dy + a` and source line `sy + a`. */
  lemma RowAt(base: nat, stride: nat, dx: nat, dy: nat, sx: nat, sy: nat, width: nat, height: int, k: nat)
    returns (a: nat)
    requires k < RowCount(height)
    ensures var d, s := Pixel(base, stride, dx, dy), Pixel(base, stride, sx, sy);
      var rows := RowOrder(d, stride, s, stride, width, height);
      k < |rows| && a == (if BottomUp(d, s, width, stride, height) then |rows| - 1 - k else k) &&
      rows[k] == Copy(Pixel(base, stride, dx, dy + a), Pixel(base, stride, sx, sy + a), width)
  {
    var d, s := Pixel(base, stride, dx, dy), Pixel(base, stride, sx, sy);
    RowOrderPairsRows(d, stride, s, stride, width, height);
    a := if BottomUp(d, s, width, stride, height) then RowCount(height) - 1 - k else k;
    RowOnLines(base, stride, dx, dy, sx, sy, width, a);
  }

  /** The copy of RowOrder that handles line `j` of the rectangle. */
  lemma RowOfLine(base: nat, stride: nat, dx: nat, dy: nat, sx: nat, sy: nat, width: nat, height: int, j: nat)
    returns (k: nat)
    requires j < RowCount(height)
    ensures var rows := RowOrder(Pixel(base, stride, dx, dy), stride, Pixel(base, stride, sx, sy), stride, width, height);
      k < |rows| && rows[k] == Copy(Pixel(base, stride, dx, dy + j), Pixel(base, stride, sx, sy + j), width)
  {
    var d, s := Pixel(base, stride, dx, dy), Pixel(base, stride, sx, sy);
    RowOrderPairsRows(d, stride, s, stride, width, height);
    RowOnLines(base, stride, dx, dy, sx, sy, width, j);
    k := if BottomUp(d, s, width, stride, height) then RowCount(height) - 1 - j else j;
  }

  /**
   * Within one surface, every byte of destination row j, column x ends up
   * holding what source row j, column x held before the call, even when the
   * two rectangles overlap.
   */
  lemma SurfaceBltCopiesSnapshot(m0: seq<Byte>, base: nat, stride: nat, dx: nat, dy: nat, sx: nat, sy: nat,
                                 width: nat, height: int, j: nat, x: nat)
    requires dx + width <= stride && sx + width <= stride
    requires AllInBounds(|m0|, RowOrder(Pixel(base, stride, dx, dy), stride, Pixel(base, stride, sx, sy), stride, width, height))
    requires j < RowCount(height) && x < width
    ensures Pixel(base, stride, dx + x, dy + j) < |m0| && Pixel(base, stride, sx + x, sy + j) < |m0|
    ensures Apply(m0, RowOrder(Pixel(base, stride, dx, dy), stride, Pixel(base, stride, sx, sy), stride, width, height))
              [Pixel(base, stride, dx + x, dy + j)]
         == m0[Pixel(base, stride, sx + x, sy + j)]
  {
    var rows := RowOrder(Pixel(base, stride, dx, dy), stride, Pixel(base, stride, sx, sy), stride, width, height);
    SurfaceOrderIsSafe(base, stride, dx, dy, sx, sy, width, height);
    ApplyIsSnapshot(m0, rows);
    var k := RowOfLine(base, stride, dx, dy, sx, sy, width, height, j);
    var c := rows[k];
    assert CopyInBounds(|m0|, c);
    var at := Pixel(base, stride, dx + x, dy + j);
    assert c.dst <= at < c.dst + c.len && c.src + (at - c.dst) == Pixel(base, stride, sx + x, sy + j);
    SnapshotAt(m0, rows, k, at);
  }

  /** Every byte outside all destination rows keeps its value. */
  lemma BltLeavesRestAlone(m0: seq<Byte>, dst: nat, dstStride: nat, src: nat, srcStride: nat,
                           width: nat, height: int, a: nat)
    requires AllInBounds(|m0|, RowOrder(dst, dstStride, src, srcStride, width, height))
    requires a < |m0|
    requires forall i :: 0 <= i < RowCount(height) ==>
      !(RowCopy(dst, dstStride, src, srcStride, width, i).dst <= a < RowCopy(dst, dstStride, src, srcStride, width, i).dst + width)
    ensures Apply(m0, RowOrder(dst, dstStride, src, srcStride, width, height))[a] == m0[a]
  {
    var rows := RowOrder(dst, dstStride, src, srcStride, width, height);
    RowOrderPairsRows(dst, dstStride, src, srcStride, width, height);
    ApplyUntouched(m0, rows, a);
  }
}
