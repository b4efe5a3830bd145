/**
 * The flat byte-addressed memory every blit works on, and the meaning of a
 * block copy over it.  Addresses are indices into one byte sequence; the
 * source and the destination of a blit may be the same buffer.
 */
module Memory {

  /** One byte of memory. */
  type Byte = bv8

  /** `len` bytes from `src` to `dst`, all read before any is written (memmove). */
  datatype Copy = Copy(dst: nat, src: nat, len: nat)

  /** Both ranges of `c` lie inside a memory of `n` bytes. */
  predicate CopyInBounds(n: nat, c: Copy)
  {
    c.dst + c.len <= n && c.src + c.len <= n
  }

  predicate AllInBounds(n: nat, cs: seq<Copy>)
  {
    forall i :: 0 <= i < |cs| ==> CopyInBounds(n, cs[i])
  }

  /** The half-open ranges [a, a + n) and [b, b + k) share no address. */
  predicate Disjoint(a: nat, n: nat, b: nat, k: nat)
  {
    n == 0 || k == 0 || a + n <= b || b + k <= a
  }

  /**
   * memmove: afterwards `dst[i]` holds what `src[i]` held before, for every
   * `i < len`, and no byte outside [dst, dst + len) changes.  The ranges may
   * overlap.  A zero length touches nothing, wherever `src` points.
   */
  function Moved(m: seq<Byte>, dst: nat, src: nat, len: nat): (r: seq<Byte>)
    requires dst + len <= |m|
    requires len == 0 || src + len <= |m|
    ensures |r| == |m|
  {
    seq(|m|, k requires 0 <= k < |m| => if dst <= k < dst + len then m[src + (k - dst)] else m[k])
  }

  /** Two memories agree everywhere when they agree byte by byte. */
  lemma SameBytes(a: seq<Byte>, b: seq<Byte>)
    requires |a| == |b|
    requires forall k :: 0 <= k < |a| ==> a[k] == b[k]
    ensures a == b
  {
  }

  /** A memmove of zero bytes changes nothing. */
  lemma MovedNothing(m: seq<Byte>, dst: nat, src: nat)
    requires dst <= |m|
    ensures Moved(m, dst, src, 0) == m
  {
    SameBytes(Moved(m, dst, src, 0), m);
  }

  /** A non-empty memmove replaces the destination range by the source bytes. */
  lemma MovedAsSplice(m: seq<Byte>, dst: nat, src: nat, len: nat)
    requires dst + len <= |m| && src + len <= |m|
    ensures Moved(m, dst, src, len) == m[..dst] + m[src..src + len] + m[dst + len..]
  {
    var r := Moved(m, dst, src, len);
    var t := m[..dst] + m[src..src + len] + m[dst + len..];
    forall k | 0 <= k < |m| ensures r[k] == t[k] {
      if k < dst {
      } else if k < dst + len {
        assert t[k] == m[src..src + len][k - dst];
      } else {
        assert t[k] == m[dst + len..][k - dst - len];
      }
    }
    SameBytes(r, t);
  }

  // ---------------------------------------------------------------------------
  // Chunked memmove: two moves in the right order make one move.

  /**
   * Forward order (source at or above the destination, or wholly below it):
   * moving the first `k` bytes and then the next `n` bytes is one memmove of
   * `k + n` bytes, because the second step reads only bytes the first did
   * not write.
   */
  lemma {:induction false} MovedExtendForward(m: seq<Byte>, dst: nat, src: nat, k: nat, n: nat)
    requires src >= dst || src + k + n <= dst
    requires dst + k + n <= |m| && src + k + n <= |m|
    ensures Moved(Moved(m, dst, src, k), dst + k, src + k, n) == Moved(m, dst, src, k + n)
  {
    var a := Moved(m, dst, src, k);
    var b := Moved(a, dst + k, src + k, n);
    var c := Moved(m, dst, src, k + n);
    forall x | 0 <= x < |m| ensures b[x] == c[x] {
      if dst + k <= x < dst + k + n {
        assert b[x] == a[src + (x - dst)];
        assert c[x] == m[src + (x - dst)];
      } else if dst <= x < dst + k {
        assert b[x] == a[x];
      }
    }
    SameBytes(b, c);
  }

  /**
   * Backward order (source at or below destination): moving the top `r` bytes
   * first and then the `k` bytes below them is one memmove of `k + r` bytes.
   */
  lemma {:induction false} MovedExtendBackward(m: seq<Byte>, dst: nat, src: nat, k: nat, r: nat)
    requires src <= dst
    requires dst + k + r <= |m| && src + k + r <= |m|
    ensures Moved(Moved(m, dst + k, src + k, r), dst, src, k) == Moved(m, dst, src, k + r)
  {
    var a := Moved(m, dst + k, src + k, r);
    var b := Moved(a, dst, src, k);
    var c := Moved(m, dst, src, k + r);
    forall x | 0 <= x < |m| ensures b[x] == c[x] {
      if dst <= x < dst + k {
        assert b[x] == a[src + (x - dst)];
        assert c[x] == m[src + (x - dst)];
      } else if dst + k <= x < dst + k + r {
        assert b[x] == a[x];
        assert a[x] == m[src + k + (x - dst - k)];
      }
    }
    SameBytes(b, c);
  }

  // ---------------------------------------------------------------------------
  // A reference memmove, one byte at a time.

  /** Copy bytes one at a time upwards, each step seeing the previous ones. */
  function ByteMoveForward(m: seq<Byte>, dst: nat, src: nat, n: nat): (r: seq<Byte>)
    requires dst + n <= |m| && src + n <= |m|
    ensures |r| == |m|
    decreases n
  {
    if n == 0 then m else ByteMoveForward(m[dst := m[src]], dst + 1, src + 1, n - 1)
  }

  /** Copy bytes one at a time downwards, from the last one to the first. */
  function ByteMoveBackward(m: seq<Byte>, dst: nat, src: nat, n: nat): (r: seq<Byte>)
    requires dst + n <= |m| && src + n <= |m|
    ensures |r| == |m|
    decreases n
  {
    if n == 0 then m else ByteMoveBackward(m[dst + n - 1 := m[src + n - 1]], dst, src, n - 1)
  }

  /** The textbook overlap-safe memmove: upwards when the source is above, else downwards. */
  function NaiveMemmove(m: seq<Byte>, dst: nat, src: nat, n: nat): seq<Byte>
    requires dst + n <= |m| && src + n <= |m|
  {
    if src > dst then ByteMoveForward(m, dst, src, n) else ByteMoveBackward(m, dst, src, n)
  }

  /** Copying the first byte, then memmoving the rest, is one memmove when the source is above. */
  lemma MovedFirstByteThenRest(m: seq<Byte>, dst: nat, src: nat, n: nat)
    requires src > dst && n > 0
    requires dst + n <= |m| && src + n <= |m|
    ensures Moved(m[dst := m[src]], dst + 1, src + 1, n - 1) == Moved(m, dst, src, n)
  {
    var m1 := m[dst := m[src]];
    var a := Moved(m1, dst + 1, src + 1, n - 1);
    var c := Moved(m, dst, src, n);
    forall x | 0 <= x < |m| ensures a[x] == c[x] {
      if dst + 1 <= x < dst + n {
        var y := src + (x - dst);
        assert y != dst;
        assert a[x] == m1[y];
      }
    }
    SameBytes(a, c);
  }

  lemma {:induction false} ByteMoveForwardIsMoved(m: seq<Byte>, dst: nat, src: nat, n: nat)
    requires src > dst
    requires dst + n <= |m| && src + n <= |m|
    ensures ByteMoveForward(m, dst, src, n) == Moved(m, dst, src, n)
    decreases n
  {
    if n == 0 {
      MovedNothing(m, dst, src);
    } else {
      var m1 := m[dst := m[src]];
      ByteMoveForwardIsMoved(m1, dst + 1, src + 1, n - 1);
      MovedFirstByteThenRest(m, dst, src, n);
      assert ByteMoveForward(m, dst, src, n) == ByteMoveForward(m1, dst + 1, src + 1, n - 1);
    }
  }

  lemma {:induction false} ByteMoveBackwardIsMoved(m: seq<Byte>, dst: nat, src: nat, n: nat)
    requires src <= dst
    requires dst + n <= |m| && src + n <= |m|
    ensures ByteMoveBackward(m, dst, src, n) == Moved(m, dst, src, n)
    decreases n
  {
    if n > 0 {
      var m1 := m[dst + n - 1 := m[src + n - 1]];
      ByteMoveBackwardIsMoved(m1, dst, src, n - 1);
      var a := Moved(m1, dst, src, n - 1);
      var c := Moved(m, dst, src, n);
      forall x | 0 <= x < |m| ensures a[x] == c[x] {
        if dst <= x < dst + n - 1 {
          assert a[x] == m1[src + (x - dst)];
          assert c[x] == m[src + (x - dst)];
        } else if x == dst + n - 1 {
          assert c[x] == m[src + (n - 1)];
        }
      }
      SameBytes(a, c);
    }
  }

  /** The byte-at-a-time reference memmove has exactly memmove semantics, overlap or not. */
  lemma NaiveMemmoveIsMoved(m: seq<Byte>, dst: nat, src: nat, n: nat)
    requires dst + n <= |m| && src + n <= |m|
    ensures NaiveMemmove(m, dst, src, n) == Moved(m, dst, src, n)
  {
    if src > dst {
      ByteMoveForwardIsMoved(m, dst, src, n);
    } else {
      ByteMoveBackwardIsMoved(m, dst, src, n);
    }
  }

  // ---------------------------------------------------------------------------
  // Sequences of copies, performed one after another or all from a snapshot.

  /** Perform the copies in order, each one reading the memory the earlier ones left. */
  function Apply(m: seq<Byte>, cs: seq<Copy>): (r: seq<Byte>)
    requires AllInBounds(|m|, cs)
    ensures |r| == |m|
    decreases |cs|
  {
    if cs == [] then m
    else
      var last := cs[|cs| - 1];
      Moved(Apply(m, cs[..|cs| - 1]), last.dst, last.src, last.len)
  }

  /** Perform the copies in order, but each one reading the original memory `m0`. */
  function Snapshot(m0: seq<Byte>, cs: seq<Copy>): (r: seq<Byte>)
    requires AllInBounds(|m0|, cs)
    ensures |r| == |m0|
    decreases |cs|
  {
    if cs == [] then m0
    else
      var last := cs[|cs| - 1];
      var acc := Snapshot(m0, cs[..|cs| - 1]);
      seq(|m0|, k requires 0 <= k < |m0| =>
        if last.dst <= k < last.dst + last.len then m0[last.src + (k - last.dst)] else acc[k])
  }

  /** No copy reads a byte that an earlier copy of the sequence wrote. */
  predicate NoReadAfterWrite(cs: seq<Copy>)
  {
    forall i, j :: 0 <= i < j < |cs| ==> Disjoint(cs[i].dst, cs[i].len, cs[j].src, cs[j].len)
  }

  /** No two copies of the sequence write the same byte. */
  predicate DestinationsDisjoint(cs: seq<Copy>)
  {
    forall i, j :: 0 <= i < j < |cs| ==> Disjoint(cs[i].dst, cs[i].len, cs[j].dst, cs[j].len)
  }

  /** A byte that no copy writes keeps its original value in the snapshot result. */
  lemma {:induction false} SnapshotUntouched(m0: seq<Byte>, cs: seq<Copy>, x: nat)
    requires AllInBounds(|m0|, cs)
    requires x < |m0|
    requires forall i :: 0 <= i < |cs| ==> !(cs[i].dst <= x < cs[i].dst + cs[i].len)
    ensures Snapshot(m0, cs)[x] == m0[x]
    decreases |cs|
  {
    if cs != [] {
      var init := cs[..|cs| - 1];
      assert AllInBounds(|m0|, init);
      SnapshotUntouched(m0, init, x);
    }
  }

  /** A byte written by copy `j` holds the original byte that copy `j` reads for it. */
  lemma {:induction false} SnapshotAt(m0: seq<Byte>, cs: seq<Copy>, j: nat, x: nat)
    requires AllInBounds(|m0|, cs)
    requires DestinationsDisjoint(cs)
    requires j < |cs| && cs[j].dst <= x < cs[j].dst + cs[j].len
    ensures Snapshot(m0, cs)[x] == m0[cs[j].src + (x - cs[j].dst)]
    decreases |cs|
  {
    var init := cs[..|cs| - 1];
    var last := cs[|cs| - 1];
    assert AllInBounds(|m0|, init);
    if j < |cs| - 1 {
      assert Disjoint(cs[j].dst, cs[j].len, last.dst, last.len);
      SnapshotAt(m0, init, j, x);
    } else {
    }
  }

  /**
   * When no copy reads what an earlier one wrote, doing the copies one after
   * another gives the same memory as doing all of them from the original.
   */
  lemma {:induction false} ApplyIsSnapshot(m0: seq<Byte>, cs: seq<Copy>)
    requires AllInBounds(|m0|, cs)
    requires NoReadAfterWrite(cs)
    ensures Apply(m0, cs) == Snapshot(m0, cs)
    decreases |cs|
  {
    if cs != [] {
      var init := cs[..|cs| - 1];
      var last := cs[|cs| - 1];
      assert AllInBounds(|m0|, init);
      assert NoReadAfterWrite(init);
      ApplyIsSnapshot(m0, init);
      var acc := Snapshot(m0, init);
      forall y | last.src <= y < last.src + last.len ensures acc[y] == m0[y] {
        forall i | 0 <= i < |init| ensures !(init[i].dst <= y < init[i].dst + init[i].len) {
          assert Disjoint(cs[i].dst, cs[i].len, last.src, last.len);
        }
        SnapshotUntouched(m0, init, y);
      }
      var a := Apply(m0, cs);
      var b := Snapshot(m0, cs);
      forall x | 0 <= x < |m0| ensures a[x] == b[x] {
        if last.dst <= x < last.dst + last.len {
          assert acc[last.src + (x - last.dst)] == m0[last.src + (x - last.dst)];
        }
      }
      SameBytes(a, b);
    }
  }

  /** A byte that no copy writes keeps its value when the copies run one after another. */
  lemma {:induction false} ApplyUntouched(m: seq<Byte>, cs: seq<Copy>, x: nat)
    requires AllInBounds(|m|, cs)
    requires x < |m|
    requires forall i :: 0 <= i < |cs| ==> !(cs[i].dst <= x < cs[i].dst + cs[i].len)
    ensures Apply(m, cs)[x] == m[x]
    decreases |cs|
  {
    if cs != [] {
      var init := cs[..|cs| - 1];
      assert AllInBounds(|m|, init);
      ApplyUntouched(m, init, x);
    }
  }

  /** Appending one copy performs it on the memory the earlier ones produced. */
  lemma ApplyAppend(m: seq<Byte>, cs: seq<Copy>, c: Copy)
    requires AllInBounds(|m|, cs) && CopyInBounds(|m|, c)
    ensures AllInBounds(|m|, cs + [c])
    ensures Apply(m, cs + [c]) == Moved(Apply(m, cs), c.dst, c.src, c.len)
  {
    assert (cs + [c])[..|cs|] == cs;
  }
}
