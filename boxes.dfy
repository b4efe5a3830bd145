/**
 * The rectangle arithmetic the X hooks do by hand on clip boxes: an X box
 * is the half-open area `[x1, x2) x [y1, y2)`, an intersection raises the
 * low corner and lowers the high corner, and a box with `x1 >= x2` or
 * `y1 >= y2` holds no pixel.
 */
module Boxes {
  datatype Box = Box(x1: int, y1: int, x2: int, y2: int)

  predicate IsEmpty(b: Box)
  {
    b.x1 >= b.x2 || b.y1 >= b.y2
  }

  predicate Contains(b: Box, px: int, py: int)
  {
    b.x1 <= px < b.x2 && b.y1 <= py < b.y2
  }

  function Max(a: int, b: int): int
  {
    if a < b then b else a
  }

  function Min(a: int, b: int): int
  {
    if a > b then b else a
  }

  /** The clamp of `a` to `b`: the pixels of the result are those of both boxes. */
  function Intersect(a: Box, b: Box): (c: Box)
    ensures forall px, py :: Contains(c, px, py) <==> Contains(a, px, py) && Contains(b, px, py)
  {
    Box(Max(a.x1, b.x1), Max(a.y1, b.y1), Min(a.x2, b.x2), Min(a.y2, b.y2))
  }

  /** The emptiness test of the hooks is exact: a box is empty exactly when it holds no pixel. */
  lemma EmptyHasNoPixel(b: Box)
    ensures IsEmpty(b) <==> forall px, py :: !Contains(b, px, py)
  {
    if !IsEmpty(b) {
      assert Contains(b, b.x1, b.y1);
    }
  }

  /** Whether some box of a list holds the pixel. */
  predicate Covers(bs: seq<Box>, px: int, py: int)
  {
    exists k :: 0 <= k < |bs| && Contains(bs[k], px, py)
  }

  lemma CoversAppend(a: seq<Box>, b: seq<Box>, px: int, py: int)
    ensures Covers(a + b, px, py) <==> Covers(a, px, py) || Covers(b, px, py)
  {
    if Covers(a + b, px, py) {
      var k :| 0 <= k < |a + b| && Contains((a + b)[k], px, py);
      if k < |a| {
        assert Contains(a[k], px, py);
      } else {
        assert Contains(b[k - |a|], px, py);
      }
    }
    if Covers(a, px, py) {
      var k :| 0 <= k < |a| && Contains(a[k], px, py);
      assert (a + b)[k] == a[k];
    }
    if Covers(b, px, py) {
      var k :| 0 <= k < |b| && Contains(b[k], px, py);
      assert (a + b)[|a| + k] == b[k];
    }
  }

  /**
   * The pieces of `full` cut by each box of a clip list, in the order of
   * the list, with the empty pieces skipped.
   */
  function Pieces(full: Box, boxes: seq<Box>): (ps: seq<Box>)
    ensures |ps| <= |boxes|
    decreases |boxes|
  {
    if boxes == [] then []
    else
      var part := Intersect(boxes[|boxes| - 1], full);
      Pieces(full, boxes[..|boxes| - 1]) + (if IsEmpty(part) then [] else [part])
  }

  /** Every piece is non-empty and is the intersection of `full` with one of the clip boxes. */
  lemma {:induction false} PiecesAreParts(full: Box, boxes: seq<Box>, k: nat)
    requires k < |Pieces(full, boxes)|
    ensures !IsEmpty(Pieces(full, boxes)[k])
    ensures exists j :: 0 <= j < |boxes| && Pieces(full, boxes)[k] == Intersect(boxes[j], full)
    decreases |boxes|
  {
    var init := boxes[..|boxes| - 1];
    if k < |Pieces(full, init)| {
      PiecesAreParts(full, init, k);
      var j :| 0 <= j < |init| && Pieces(full, init)[k] == Intersect(init[j], full);
      assert boxes[j] == init[j];
    } else {
      assert Pieces(full, boxes)[k] == Intersect(boxes[|boxes| - 1], full);
    }
  }

  /** The pieces hold exactly the pixels of `full` that some clip box holds. */
  lemma {:induction false} PiecesCover(full: Box, boxes: seq<Box>, px: int, py: int)
    ensures Covers(Pieces(full, boxes), px, py) <==> Contains(full, px, py) && Covers(boxes, px, py)
    decreases |boxes|
  {
    if boxes != [] {
      var init := boxes[..|boxes| - 1];
      var last := boxes[|boxes| - 1];
      var part := Intersect(last, full);
      var tail := if IsEmpty(part) then [] else [part];
      PiecesCover(full, init, px, py);
      CoversAppend(Pieces(full, init), tail, px, py);
      CoversAppend(init, [last], px, py);
      assert boxes == init + [last];
      EmptyHasNoPixel(part);
      if Contains(part, px, py) {
        assert tail[0] == part;
      }
      assert Covers(tail, px, py) <==> Contains(part, px, py);
      assert Covers([last], px, py) <==> Contains(last, px, py);
    }
  }
}
