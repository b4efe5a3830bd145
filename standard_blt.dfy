/**
 * standard_blt of the CPU back end: a left-to-right, top-to-bottom blit for
 * 16 and 32 bpp surfaces that splits each row into a leading 16-bit store,
 * leading word stores up to a 32-byte boundary, 32-byte chunk stores, and
 * trailing word and 16-bit stores.  When the source and the destination
 * differ in alignment within a word, the stores are built by shifting and
 * merging the halves of consecutive source words.
 *
 * The C entry point is never installed (cpu_backend_init publishes NULL in
 * its place), so every defect recorded here is latent.  The model keeps the
 * store plans the source computes as written, shows where they go wrong,
 * and uses corrected plans in the methods, which are proved to be one
 * memmove per row, first row first.
 */
module StandardBlt {
  import opened Memory
  import opened Blt8
  import opened Blt2d

  // ---------------------------------------------------------------------------
  // Choosing a helper

  /** `(uintptr_t)p & 31`: the offset of an address within its 32-byte block. */
  function AlignShift(p: int): (a: nat)
    ensures a < 32
  {
    p % 32
  }

  datatype Helper =
    | SameAlignmentCopy             // the inline path, identical to standard_word_aligned_blt
    | WordAlignedCopy               // standard_word_aligned_blt
    | SourceWordAlignedCopy         // standard_source_word_aligned_blt
    | DestinationWordAlignedCopy    // standard_destination_word_aligned_blt

  /**
   * The choice standard_blt makes, as written: both arms of the inner test
   * call the source-word-aligned helper, so the destination-word-aligned
   * helper is never reached.
   */
  function ClassifyAsWritten(alignSrc: nat, alignDst: nat): (h: Helper)
    ensures h == SameAlignmentCopy <==> alignSrc == alignDst
    ensures h == WordAlignedCopy <==> alignSrc != alignDst && alignSrc % 4 == alignDst % 4
    ensures h != DestinationWordAlignedCopy
  {
    if alignSrc != alignDst then
      if alignSrc % 4 == alignDst % 4 then WordAlignedCopy
      else if alignSrc % 4 == 0 then SourceWordAlignedCopy
      else SourceWordAlignedCopy
    else SameAlignmentCopy
  }

  /** The as-written choice hands a source that is not word aligned to the source-word-aligned helper. */
  lemma ClassifyAsWrittenMisroutes()
    ensures ClassifyAsWritten(2, 4) == SourceWordAlignedCopy && 2 % 4 != 0
  {
  }

  /** The choice with the second arm calling the destination-word-aligned helper. */
  function Classify(alignSrc: nat, alignDst: nat): (h: Helper)
  {
    if alignSrc != alignDst then
      if alignSrc % 4 == alignDst % 4 then WordAlignedCopy
      else if alignSrc % 4 == 0 then SourceWordAlignedCopy
      else DestinationWordAlignedCopy
    else SameAlignmentCopy
  }

  /**
   * With 16-bit aligned addresses, every helper gets the case its comment
   * names: equal word offsets for the direct stores, and for the shifting
   * helpers the named side word aligned and the other side half-way.
   */
  lemma ClassifyMatchesHelpers(alignSrc: nat, alignDst: nat)
    requires alignSrc % 2 == 0 && alignDst % 2 == 0
    ensures Classify(alignSrc, alignDst) == SameAlignmentCopy <==> alignSrc == alignDst
    ensures Classify(alignSrc, alignDst) == WordAlignedCopy <==>
              alignSrc != alignDst && alignSrc % 4 == alignDst % 4
    ensures Classify(alignSrc, alignDst) == SourceWordAlignedCopy <==>
              alignSrc % 4 == 0 && alignDst % 4 == 2
    ensures Classify(alignSrc, alignDst) == DestinationWordAlignedCopy <==>
              alignSrc % 4 == 2 && alignDst % 4 == 0
  {
  }

  // ---------------------------------------------------------------------------
  // The store plan of a row

  /** `x & 2`. */
  function Bit1(x: nat): nat
  {
    x / 2 % 2 * 2
  }

  /**
   * The stores of one row, left to right: a 16-bit store of `leftShort`
   * bytes (0 or 2), `leftWords` word stores, `chunks` 32-byte stores,
   * `rightWords` word stores and a 16-bit store of `rightShort` bytes.
   */
  datatype Plan = Plan(leftShort: nat, leftWords: nat, chunks: nat, rightWords: nat, rightShort: nat)

  /** How many bytes a plan stores. */
  function Width(p: Plan): nat
  {
    p.leftShort + 4 * p.leftWords + 32 * p.chunks + 4 * p.rightWords + p.rightShort
  }

  /** Where the chunk stores of a plan start, from the start of the row. */
  function ChunkStart(p: Plan): nat
  {
    p.leftShort + 4 * p.leftWords
  }

  /** The number of leading word stores, as written: `8 - ((alignshift & 0x1B) >> 2)`, none when aligned. */
  function LeftWordsAsWritten(a: nat): (n: nat)
    requires a < 32
    ensures n <= 8
  {
    if a != 0 then
      var masked := ((a as bv8) & 0x1B) >> 2;
      assert masked <= 6;
      8 - masked as int
    else 0
  }

  /** The mask drops bit 2 of the offset, so the count only sees the offset's multiple of 8. */
  lemma LeftWordsAsWrittenValue(a: nat)
    requires 0 < a < 32
    ensures LeftWordsAsWritten(a) == 8 - 2 * (a / 8)
  {
    var x := a as bv8;
    assert x & 0x1B == (x & 0x18) | (x & 3);
    assert (x & 0x1B) >> 2 == (x & 0x18) >> 2;
    assert ((x & 0x18) >> 2) as int == 2 * (a / 8) by {
      if a < 8 {} else if a < 16 {} else if a < 24 {} else {}
    }
  }

  /** The number of leading word stores that brings a 16-bit aligned start to a 32-byte boundary. */
  function LeftWords(a: nat): (n: nat)
    requires a < 32 && a % 2 == 0
    ensures a == 0 ==> n == 0
    ensures (a + Bit1(a) + 4 * n) % 32 == 0 && a + Bit1(a) + 4 * n <= 32
  {
    if a == 0 then 0 else (32 - a - Bit1(a)) / 4
  }

  /**
   * The bulk plan for a row of `rest` bytes after the leading stores:
   * `chunks = bw >> 5`, then `bw >> 2` words and `bw & 2` bytes of what is left.
   */
  function BulkPlan(leftShort: nat, leftWords: nat, rest: nat): Plan
  {
    Plan(leftShort, leftWords, rest / 32, rest % 32 / 4, Bit1(rest % 32))
  }

  /** The small-width plan as written: `leftmost_words -= (-bw) >> 2`, `rightmost_short = (-bw) & 2`. */
  function SmallPlanAsWritten(leftShort: nat, leftWords: nat, over: nat): Plan
    requires over / 4 <= leftWords
  {
    Plan(leftShort, leftWords - over / 4, 0, 0, Bit1(over))
  }

  /** The small-width plan with the word count rounded so that the trailing 16-bit store replaces a word. */
  function SmallPlan(leftShort: nat, leftWords: nat, over: nat): Plan
    requires (over + 3) / 4 <= leftWords
  {
    Plan(leftShort, leftWords - (over + 3) / 4, 0, 0, Bit1(over))
  }

  /** The documented limits: 16-bit aligned rows of an even number of bytes, at least two pixels wide. */
  predicate RowShape(a: nat, bw: int)
  {
    a < 32 && a % 2 == 0 && bw >= 4 && bw % 2 == 0
  }

  /** Whether a row of `bw` bytes starting at offset `a` ends within its leading stores. */
  predicate SmallRow(leading: nat, bw: int)
  {
    bw - leading <= 0
  }

  /** The plan of one row, as written in standard_blt and its helpers. */
  function PlanAsWritten(a: nat, bw: int): Plan
    requires RowShape(a, bw)
  {
    var ls := Bit1(a);
    var lw := LeftWordsAsWritten(a);
    var rest := bw - ls - 4 * lw;
    if rest <= 0 then SmallPlanAsWritten(ls, lw, -rest) else BulkPlan(ls, lw, rest)
  }

  /** The plan of one row with both corrections: aligned chunks, and no over-copy in the small path. */
  function PlanOf(a: nat, bw: int): Plan
    requires RowShape(a, bw)
  {
    var ls := Bit1(a);
    var lw := LeftWords(a);
    var rest := bw - ls - 4 * lw;
    if rest <= 0 then SmallPlan(ls, lw, -rest) else BulkPlan(ls, lw, rest)
  }

  /** `x & 2` of an even number is its remainder modulo 4. */
  lemma Bit1OfEven(x: nat)
    requires x % 2 == 0
    ensures Bit1(x) == x % 4
    ensures x == 4 * (x / 4) + Bit1(x)
  {
  }

  /** The bulk plan stores exactly the bytes it is given. */
  lemma BulkPlanWidth(ls: nat, lw: nat, rest: nat)
    requires rest % 2 == 0
    ensures Width(BulkPlan(ls, lw, rest)) == ls + 4 * lw + rest
    ensures ChunkStart(BulkPlan(ls, lw, rest)) == ls + 4 * lw
  {
    var r := rest % 32;
    assert rest == 32 * (rest / 32) + r;
    Bit1OfEven(r);
  }

  /** The corrected small plan stores the leading bytes less the shortfall. */
  lemma SmallPlanWidth(ls: nat, lw: nat, over: nat)
    requires over % 2 == 0 && (over + 3) / 4 <= lw
    ensures Width(SmallPlan(ls, lw, over)) + over == ls + 4 * lw
  {
    Bit1OfEven(over);
    var q := over / 4;
    if Bit1(over) == 0 {
      assert (over + 3) / 4 == q;
    } else {
      assert (over + 3) / 4 == q + 1;
    }
  }

  /** The as-written small plan drops only whole words, so a shortfall with bit 1 set costs 4 bytes too many. */
  lemma SmallPlanAsWrittenWidth(ls: nat, lw: nat, over: nat)
    requires over % 2 == 0 && over / 4 <= lw
    ensures Width(SmallPlanAsWritten(ls, lw, over)) + over == ls + 4 * lw + 2 * Bit1(over)
  {
    Bit1OfEven(over);
  }

  /** The corrected plan stores exactly the row, and its chunks start on a 32-byte boundary. */
  lemma PlanWidth(a: nat, bw: int)
    requires RowShape(a, bw)
    ensures Width(PlanOf(a, bw)) == bw
    ensures PlanOf(a, bw).chunks > 0 ==> (a + ChunkStart(PlanOf(a, bw))) % 32 == 0
  {
    var ls, lw := Bit1(a), LeftWords(a);
    var rest := bw - ls - 4 * lw;
    if rest <= 0 {
      SmallPlanWidth(ls, lw, -rest);
    } else {
      BulkPlanWidth(ls, lw, rest);
    }
  }

  /**
   * The bytes stored past the row as written: 4 when the row ends within
   * the leading stores and the shortfall `-bw` has bit 1 set, none otherwise.
   */
  function OvercopyAsWritten(a: nat, bw: int): nat
    requires RowShape(a, bw)
  {
    var leading := Bit1(a) + 4 * LeftWordsAsWritten(a);
    if SmallRow(leading, bw) && Bit1(leading - bw) == 2 then 4 else 0
  }

  /** The as-written plan stores the row and `OvercopyAsWritten` bytes more. */
  lemma PlanAsWrittenWidth(a: nat, bw: int)
    requires RowShape(a, bw)
    ensures Width(PlanAsWritten(a, bw)) == bw + OvercopyAsWritten(a, bw)
  {
    var ls, lw := Bit1(a), LeftWordsAsWritten(a);
    var rest := bw - ls - 4 * lw;
    if rest <= 0 {
      SmallPlanAsWrittenWidth(ls, lw, -rest);
    } else {
      BulkPlanWidth(ls, lw, rest);
    }
  }

  /** A two-pixel row at 16 bpp starting 2 bytes into a block gets 8 bytes stored, not 4. */
  lemma SmallPlanAsWrittenOvercopies()
    ensures RowShape(2, 4) && PlanAsWritten(2, 4) == Plan(2, 1, 0, 0, 2) && Width(PlanAsWritten(2, 4)) == 8
    ensures OvercopyAsWritten(2, 4) == 4
  {
    LeftWordsAsWrittenValue(2);
  }

  /** A 64-byte row starting 4 bytes into a block gets its chunk at block offset 36, not 32. */
  lemma PlanAsWrittenMisalignsChunks()
    ensures RowShape(4, 64) && PlanAsWritten(4, 64) == Plan(0, 8, 1, 0, 0)
    ensures (4 + ChunkStart(PlanAsWritten(4, 64))) % 32 == 4
  {
    LeftWordsAsWrittenValue(4);
  }

  // ---------------------------------------------------------------------------
  // Stores into memory

  /**
   * A row walked from left to right copies correctly: the source does not
   * start inside the destination to its left.
   */
  predicate Forward(dst: nat, src: nat, len: nat)
  {
    src >= dst || src + len <= dst
  }

  /** `bs` written at `p`, the rest of memory kept. */
  function Written(m: seq<Byte>, p: nat, bs: seq<Byte>): (r: seq<Byte>)
    requires p + |bs| <= |m|
    ensures |r| == |m|
    ensures r[p..p + |bs|] == bs
    ensures forall k :: 0 <= k < |m| && !(p <= k < p + |bs|) ==> r[k] == m[k]
  {
    seq(|m|, k requires 0 <= k < |m| => if p <= k < p + |bs| then bs[k - p] else m[k])
  }

  /** A store of the bytes `bs` at `p`: `*(uint16_t *)p = …`, `*(uint32_t *)p = …` or a run of `double` stores. */
  method StoreBytes(mem: array<Byte>, p: nat, bs: seq<Byte>)
    requires p + |bs| <= mem.Length
    modifies mem
    ensures mem[..] == Written(old(mem[..]), p, bs)
  {
    ghost var m0 := mem[..];
    forall i | 0 <= i < |bs| {
      mem[p + i] := bs[i];
    }
    forall k | 0 <= k < mem.Length ensures mem[k] == Written(m0, p, bs)[k] {
      if p <= k < p + |bs| {
        assert mem[p + (k - p)] == bs[k - p];
      }
    }
    SameBytes(mem[..], Written(m0, p, bs));
  }

  /** Writing the next `k` source bytes after the first `n` extends a memmove of `n` bytes to `n + k`. */
  lemma MovedGrows(m0: seq<Byte>, m: seq<Byte>, dst: nat, src: nat, n: nat, k: nat)
    requires dst + n + k <= |m0| && src + n + k <= |m0| && m == Moved(m0, dst, src, n)
    ensures Written(m, dst + n, m0[src + n..src + n + k]) == Moved(m0, dst, src, n + k)
  {
    var a := Written(m, dst + n, m0[src + n..src + n + k]);
    var b := Moved(m0, dst, src, n + k);
    forall x | 0 <= x < |m0| ensures a[x] == b[x] {
      if dst + n <= x < dst + n + k {
        assert a[x] == m0[src + n..src + n + k][x - (dst + n)];
      }
    }
    SameBytes(a, b);
  }

  /**
   * While a forward walk has written its first `n` bytes, the source bytes
   * from offset `n` on still hold their original values.
   */
  lemma MovedLeavesSource(m0: seq<Byte>, m: seq<Byte>, dst: nat, src: nat, n: nat, total: nat, lo: nat, hi: nat)
    requires n <= lo <= hi <= total && dst + total <= |m0| && src + total <= |m0|
    requires Forward(dst, src, total) && m == Moved(m0, dst, src, n)
    ensures m[src + lo..src + hi] == m0[src + lo..src + hi]
  {
    forall x | src + lo <= x < src + hi ensures m[x] == m0[x] {
    }
  }

  /**
   * One direct store of a row: the next `k` bytes, all loaded before any is
   * stored (a 16-bit or word copy, or the four doubles of a chunk).
   */
  method StoreNext(mem: array<Byte>, ghost m0: seq<Byte>, dst: nat, src: nat, n: nat, k: nat, ghost total: nat)
    requires |m0| == mem.Length && n + k <= total && dst + total <= |m0| && src + total <= |m0|
    requires Forward(dst, src, total) && mem[..] == Moved(m0, dst, src, n)
    modifies mem
    ensures mem[..] == Moved(m0, dst, src, n + k)
  {
    MovedLeavesSource(m0, mem[..], dst, src, n, total, n, n + k);
    MovedGrows(m0, mem[..], dst, src, n, k);
    StoreBytes(mem, dst + n, mem[src + n..src + n + k]);
  }

  /**
   * One row of direct stores: the leading 16-bit store, the leading word
   * loop, the chunk loop, the trailing word loop and the trailing 16-bit
   * store, each at the offset the previous ones reached.  The row is a
   * memmove of the plan's width.
   */
  method StoreRow(mem: array<Byte>, dst: nat, src: nat, p: Plan)
    requires dst + Width(p) <= mem.Length && src + Width(p) <= mem.Length && Forward(dst, src, Width(p))
    modifies mem
    ensures mem[..] == Moved(old(mem[..]), dst, src, Width(p))
  {
    ghost var m0 := mem[..];
    ghost var total := Width(p);
    MovedNothing(m0, dst, src);
    var offset := 0;
    if p.leftShort > 0 {
      StoreNext(mem, m0, dst, src, 0, p.leftShort, total);
      offset := p.leftShort;
    }
    var i := 0;
    while i < p.leftWords
      invariant i <= p.leftWords && offset == p.leftShort + 4 * i
      invariant mem[..] == Moved(m0, dst, src, offset)
    {
      StoreNext(mem, m0, dst, src, offset, 4, total);
      offset := offset + 4;
      i := i + 1;
    }
    i := 0;
    while i < p.chunks
      invariant i <= p.chunks && offset == p.leftShort + 4 * p.leftWords + 32 * i
      invariant mem[..] == Moved(m0, dst, src, offset)
    {
      StoreNext(mem, m0, dst, src, offset, 32, total);
      offset := offset + 32;
      i := i + 1;
    }
    i := 0;
    while i < p.rightWords
      invariant i <= p.rightWords && offset == p.leftShort + 4 * p.leftWords + 32 * p.chunks + 4 * i
      invariant mem[..] == Moved(m0, dst, src, offset)
    {
      StoreNext(mem, m0, dst, src, offset, 4, total);
      offset := offset + 4;
      i := i + 1;
    }
    if p.rightShort > 0 {
      StoreNext(mem, m0, dst, src, offset, p.rightShort, total);
    }
  }

  /**
   * One row of direct stores with the plan as written, as the same-alignment
   * path and standard_word_aligned_blt do it: a memmove of exactly the row
   * in the bulk path, and of the row and 4 bytes more when the row ends
   * within the leading stores and the shortfall has bit 1 set.
   */
  method DirectRowAsWritten(mem: array<Byte>, dst: nat, src: nat, a: nat, bw: int)
    requires RowShape(a, bw)
    requires dst + bw + OvercopyAsWritten(a, bw) <= mem.Length && src + bw + OvercopyAsWritten(a, bw) <= mem.Length
    requires Forward(dst, src, bw + OvercopyAsWritten(a, bw))
    modifies mem
    ensures mem[..] == Moved(old(mem[..]), dst, src, bw + OvercopyAsWritten(a, bw))
  {
    PlanAsWrittenWidth(a, bw);
    StoreRow(mem, dst, src, PlanAsWritten(a, bw));
  }

  // ---------------------------------------------------------------------------
  // Shifting and merging half-words

  /** A little-endian 16-bit load, zero-extended: `*(uint16_t *)p`. */
  function Half(h: seq<Byte>): bv32
    requires |h| == 2
  {
    (h[0] as bv32) | ((h[1] as bv32) << 8)
  }

  /** A little-endian 32-bit load: `*(uint32_t *)p`. */
  function Word(w: seq<Byte>): bv32
    requires |w| == 4
  {
    (w[0] as bv32) | ((w[1] as bv32) << 8) | ((w[2] as bv32) << 16) | ((w[3] as bv32) << 24)
  }

  /** The bytes of a 16-bit store of the low half of `v`: `*(uint16_t *)p = (uint16_t)v`. */
  function Le16(v: bv32): (bs: seq<Byte>)
    ensures |bs| == 2
  {
    [(v & 0xFF) as bv8, ((v >> 8) & 0xFF) as bv8]
  }

  /** The bytes of a 32-bit store: `*(uint32_t *)p = v`. */
  function Le32(v: bv32): (bs: seq<Byte>)
    ensures |bs| == 4
  {
    [(v & 0xFF) as bv8, ((v >> 8) & 0xFF) as bv8, ((v >> 16) & 0xFF) as bv8, ((v >> 24) & 0xFF) as bv8]
  }

  /** `w >> 16` is the upper two bytes of the word. */
  lemma HighHalf(w: seq<Byte>)
    requires |w| == 4
    ensures Word(w) >> 16 == Half(w[2..4])
  {
  }

  /** `(uint16_t)w` stores the lower two bytes of the word. */
  lemma LowHalf(w: seq<Byte>)
    requires |w| == 4
    ensures Le16(Word(w)) == w[..2]
  {
  }

  /** A 16-bit load stored back gives the same bytes. */
  lemma HalfBytes(h: seq<Byte>)
    requires |h| == 2
    ensures Le16(Half(h)) == h
  {
  }

  /** `pix + (pix2 << 16)` stores the carried half-word, then the lower half of the next word. */
  lemma Merge(h: seq<Byte>, w: seq<Byte>, r: seq<Byte>)
    requires |h| == 2 && |w| == 4 && r == h + w[..2]
    ensures Le32(Half(h) + (Word(w) << 16)) == r
  {
  }

  /** The trailing merge with a 16-bit load: the carried half-word, then the last two bytes. */
  lemma MergeHalf(h: seq<Byte>, l: seq<Byte>, r: seq<Byte>)
    requires |h| == 2 && |l| == 2 && r == h + l
    ensures Le32(Half(h) + (Half(l) << 16)) == r
  {
  }

  /**
   * The merge at source offset `p`: `pix`, the half-word at `p`, merged
   * with `w`, the word at `p + 2`, gives the four bytes at `p`, and the
   * word's upper half is the next carry.
   */
  lemma MergeBytes(m: seq<Byte>, p: nat, pix: bv32, w: seq<Byte>)
    requires p + 6 <= |m| && pix == Half(m[p..p + 2]) && w == m[p + 2..p + 6]
    ensures Le32(pix + (Word(w) << 16)) == m[p..p + 4]
    ensures Word(w) >> 16 == Half(m[p + 4..p + 6])
  {
    SliceJoin(m, p);
    Merge(m[p..p + 2], w, m[p..p + 4]);
    HighHalf(w);
    assert w[2..4] == m[p + 4..p + 6];
  }

  /** `MergeBytes` at source offset `o - 2`, stated with the slices a merged store reads. */
  lemma MergeAt(m: seq<Byte>, src: nat, o: nat, pix: bv32, w: seq<Byte>)
    requires 2 <= o && src + o + 4 <= |m| && pix == Half(m[src + o - 2..src + o]) && w == m[src + o..src + o + 4]
    ensures Le32(pix + (Word(w) << 16)) == m[src + o - 2..src + o + 2]
    ensures Word(w) >> 16 == Half(m[src + (o + 4) - 2..src + (o + 4)])
  {
    MergeBytes(m, src + o - 2, pix, w);
  }

  lemma SliceJoin(m: seq<Byte>, p: nat)
    requires p + 6 <= |m|
    ensures m[p..p + 2] + m[p + 2..p + 6][..2] == m[p..p + 4]
  {
  }

  /** The last merge at source offset `p`: `pix`, the half-word at `p`, and `l`, the one after it. */
  lemma MergeLastBytes(m: seq<Byte>, p: nat, pix: bv32, l: seq<Byte>)
    requires p + 4 <= |m| && pix == Half(m[p..p + 2]) && l == m[p + 2..p + 4]
    ensures Le32(pix + (Half(l) << 16)) == m[p..p + 4]
  {
    assert m[p..p + 2] + l == m[p..p + 4];
    MergeHalf(m[p..p + 2], l, m[p..p + 4]);
  }

  /** The first word `w` at `p` split: its lower half stored, its upper half carried. */
  lemma FirstWordBytes(m: seq<Byte>, p: nat, w: seq<Byte>)
    requires p + 4 <= |m| && w == m[p..p + 4]
    ensures Le16(Word(w)) == m[p..p + 2]
    ensures Word(w) >> 16 == Half(m[p + 2..p + 4])
  {
    LowHalf(w);
    HighHalf(w);
    assert w[..2] == m[p..p + 2];
    assert w[2..4] == m[p + 2..p + 4];
  }

  /** `*(uint32_t *)p = v`, whose bytes are `bs`. */
  method StoreWord(mem: array<Byte>, p: nat, v: bv32, ghost bs: seq<Byte>)
    requires p + 4 <= mem.Length && Le32(v) == bs
    modifies mem
    ensures mem[..] == Written(old(mem[..]), p, bs)
  {
    StoreBytes(mem, p, Le32(v));
  }

  /** `*(uint16_t *)p = (uint16_t)v`, whose bytes are `bs`. */
  method StoreHalf(mem: array<Byte>, p: nat, v: bv32, ghost bs: seq<Byte>)
    requires p + 2 <= mem.Length && Le16(v) == bs
    modifies mem
    ensures mem[..] == Written(old(mem[..]), p, bs)
  {
    StoreBytes(mem, p, Le16(v));
  }

  /** Before a merged store: the word it loads is intact, and the store extends the memmove by 4 bytes. */
  lemma NextWordReady(m0: seq<Byte>, m: seq<Byte>, dst: nat, src: nat, o: nat, total: nat)
    requires 2 <= o && o + 4 <= total && dst + total <= |m0| && src + total <= |m0| && Forward(dst, src, total)
    requires m == Moved(m0, dst, src, o - 2)
    ensures m[src + o..src + o + 4] == m0[src + o..src + o + 4]
    ensures Written(m, dst + o - 2, m0[src + o - 2..src + o + 2]) == Moved(m0, dst, src, o + 2)
  {
    MovedLeavesSource(m0, m, dst, src, o - 2, total, o, o + 4);
    MovedGrows(m0, m, dst, src, o - 2, 4);
  }

  /**
   * One merged store of a shifting helper: load the word at source offset
   * `o`, store the carried half-word and the word's lower half at
   * destination offset `o - 2`, and carry the word's upper half.
   */
  method MergeNext(mem: array<Byte>, ghost m0: seq<Byte>, dst: nat, src: nat, o: nat, pix: bv32, ghost total: nat)
    returns (carry: bv32, next: nat)
    requires |m0| == mem.Length && 2 <= o && o + 4 <= total
    requires dst + total <= |m0| && src + total <= |m0| && Forward(dst, src, total)
    requires mem[..] == Moved(m0, dst, src, o - 2) && pix == Half(m0[src + o - 2..src + o])
    modifies mem
    ensures next == o + 4
    ensures mem[..] == Moved(m0, dst, src, next - 2)
    ensures carry == Half(m0[src + next - 2..src + next])
  {
    next := o + 4;
    NextWordReady(m0, mem[..], dst, src, o, total);
    var w := mem[src + o..src + o + 4];
    MergeAt(m0, src, o, pix, w);
    var pix2 := Word(w);
    StoreWord(mem, dst + o - 2, pix + (pix2 << 16), m0[src + o - 2..src + o + 2]);
    carry := pix2 >> 16;
  }

  /**
   * The start of a row of a shifting helper.  When the source is word
   * aligned, the first word is loaded, its lower half stored with a 16-bit
   * store and its upper half carried; otherwise a 16-bit load starts the
   * carry.  `o` is the source offset of the next word to load.
   */
  method FirstMerge(mem: array<Byte>, dst: nat, src: nat, bw: nat, sourceAligned: bool)
    returns (pix: bv32, o: nat)
    requires bw >= 4 && dst + bw <= mem.Length && src + bw <= mem.Length
    modifies mem
    ensures o == (if sourceAligned then 4 else 2)
    ensures mem[..] == Moved(old(mem[..]), dst, src, o - 2)
    ensures pix == Half(old(mem[..])[src + o - 2..src + o])
  {
    if sourceAligned {
      pix := SplitFirstWord(mem, dst, src);
      o := 4;
    } else {
      MovedNothing(mem[..], dst, src);
      pix := Half(mem[src..src + 2]);
      o := 2;
    }
  }

  /** The first word of a word-aligned source: its lower half stored with a 16-bit store, its upper half carried. */
  method SplitFirstWord(mem: array<Byte>, dst: nat, src: nat) returns (pix: bv32)
    requires dst + 4 <= mem.Length && src + 4 <= mem.Length
    modifies mem
    ensures mem[..] == Moved(old(mem[..]), dst, src, 2)
    ensures pix == Half(old(mem[..])[src + 2..src + 4])
  {
    ghost var m0 := mem[..];
    MovedNothing(m0, dst, src);
    MovedGrows(m0, m0, dst, src, 0, 2);
    var w := mem[src..src + 4];
    FirstWordBytes(m0, src, w);
    StoreHalf(mem, dst, Word(w), m0[src..src + 2]);
    pix := Word(w) >> 16;
  }

  /** Before the last merged store: its two source bytes are intact, and the store completes the memmove. */
  lemma LastWordReady(m0: seq<Byte>, m: seq<Byte>, dst: nat, src: nat, o: nat)
    requires 2 <= o && dst + o + 2 <= |m0| && src + o + 2 <= |m0| && Forward(dst, src, o + 2)
    requires m == Moved(m0, dst, src, o - 2)
    ensures m[src + o..src + o + 2] == m0[src + o..src + o + 2]
    ensures Written(m, dst + o - 2, m0[src + o - 2..src + o + 2]) == Moved(m0, dst, src, o + 2)
  {
    MovedLeavesSource(m0, m, dst, src, o - 2, o + 2, o, o + 2);
    MovedGrows(m0, m, dst, src, o - 2, 4);
  }

  /**
   * The end of a row of a shifting helper with two bytes left after the last
   * word: the carried half-word merged with a last 16-bit load.
   */
  method MergeLast(mem: array<Byte>, ghost m0: seq<Byte>, dst: nat, src: nat, o: nat, pix: bv32)
    requires |m0| == mem.Length && 2 <= o && dst + o + 2 <= |m0| && src + o + 2 <= |m0| && Forward(dst, src, o + 2)
    requires mem[..] == Moved(m0, dst, src, o - 2) && pix == Half(m0[src + o - 2..src + o])
    modifies mem
    ensures mem[..] == Moved(m0, dst, src, o + 2)
  {
    LastWordReady(m0, mem[..], dst, src, o);
    var l := mem[src + o..src + o + 2];
    MergeLastBytes(m0, src + o - 2, pix, l);
    StoreWord(mem, dst + o - 2, pix + (Half(l) << 16), m0[src + o - 2..src + o + 2]);
  }

  /** The end of a row of a shifting helper with nothing left after the last word: the carried half-word alone. */
  method StoreCarry(mem: array<Byte>, ghost m0: seq<Byte>, dst: nat, src: nat, o: nat, pix: bv32)
    requires |m0| == mem.Length && 2 <= o && dst + o <= |m0| && src + o <= |m0|
    requires mem[..] == Moved(m0, dst, src, o - 2) && pix == Half(m0[src + o - 2..src + o])
    modifies mem
    ensures mem[..] == Moved(m0, dst, src, o)
  {
    MovedGrows(m0, mem[..], dst, src, o - 2, 2);
    HalfBytes(m0[src + o - 2..src + o]);
    StoreHalf(mem, dst + o - 2, pix, m0[src + o - 2..src + o]);
  }

  /** Word steps from an even start leave no whole word, so one half-word or none. */
  lemma EndsWithinAWord(start: nat, words: nat, bw: nat)
    requires start % 2 == 0 && bw % 2 == 0 && start + 4 * words <= bw < start + 4 * words + 4
    ensures bw == start + 4 * words || bw == start + 4 * words + 2
  {
  }

  /**
   * One row of a shifting helper, with every merged store at the offset
   * it reads from, less two: the start, one merged store per whole word
   * left, and the end.  The chunk loop of the source is eight of these
   * word steps.
   */
  method ShiftMergeRow(mem: array<Byte>, dst: nat, src: nat, bw: nat, sourceAligned: bool)
    requires bw >= 4 && bw % 2 == 0
    requires dst + bw <= mem.Length && src + bw <= mem.Length && Forward(dst, src, bw)
    modifies mem
    ensures mem[..] == Moved(old(mem[..]), dst, src, bw)
  {
    ghost var m0 := mem[..];
    var pix, o := FirstMerge(mem, dst, src, bw, sourceAligned);
    ghost var start, words := o, 0;
    while o + 4 <= bw
      invariant o == start + 4 * words && 2 <= o <= bw
      invariant mem[..] == Moved(m0, dst, src, o - 2)
      invariant pix == Half(m0[src + o - 2..src + o])
      decreases bw - o
    {
      pix, o := MergeNext(mem, m0, dst, src, o, pix, bw);
      words := words + 1;
    }
    EndsWithinAWord(start, words, bw);
    if o < bw {
      MergeLast(mem, m0, dst, src, o, pix);
    } else {
      StoreCarry(mem, m0, dst, src, o, pix);
    }
  }

  // ---------------------------------------------------------------------------
  // The blit

  /** The byte address of pixel (x, y): `bits + y * stride * 4 + x * (bpp / 8)`, with the stride in words. */
  function PixelAddress(bits: nat, stride: int, bpp: int, x: int, y: int): int
  {
    bits + y * stride * 4 + x * (bpp / 8)
  }

  /** A pixel address of a word-aligned surface at 16 or 32 bpp is 16-bit aligned. */
  lemma PixelAddressEven(bits: nat, stride: int, bpp: int, x: int, y: int)
    requires bits % 4 == 0 && (bpp == 16 || bpp == 32)
    ensures PixelAddress(bits, stride, bpp, x, y) % 2 == 0
  {
    var t := y * stride;
    assert y * stride * 4 == 4 * t;
    assert x * (bpp / 8) == 2 * (x * (bpp / 16));
  }

  /** A 16-bit aligned address has an even offset within its block. */
  lemma AlignShiftEven(p: int)
    requires p % 2 == 0
    ensures AlignShift(p) % 2 == 0
  {
  }

  /** The bytes of one row: `w * (src_bpp / 8)`. */
  function RowBytes(width: int, bpp: int): (bw: int)
    ensures (bpp == 16 || bpp == 32) && width >= 2 ==> bw >= 4 && bw % 2 == 0
  {
    width * (bpp / 8)
  }

  /**
   * One row of the blit with the helper chosen for the first row: the
   * direct stores of the plan, or the shift-and-merge stores when the
   * source and the destination differ in alignment within a word.
   */
  method BltRow(mem: array<Byte>, dst: nat, src: nat, bw: nat, plan: Plan, direct: bool, sourceAligned: bool)
    requires bw >= 4 && bw % 2 == 0 && Width(plan) == bw
    requires dst + bw <= mem.Length && src + bw <= mem.Length && Forward(dst, src, bw)
    modifies mem
    ensures mem[..] == Moved(old(mem[..]), dst, src, bw)
  {
    if direct {
      StoreRow(mem, dst, src, plan);
    } else {
      ShiftMergeRow(mem, dst, src, bw, sourceAligned);
    }
  }

  /**
   * The row loop `while (h > 0)`: copy one row, then step both line
   * pointers by their strides.  `rows` names the copies the pointers walk
   * through.
   */
  method BltRows(mem: array<Byte>, height: int, dst: int, dstStep: int, src: int, srcStep: int, bw: nat,
                 plan: Plan, direct: bool, sourceAligned: bool, ghost rows: seq<Copy>)
    requires bw >= 4 && bw % 2 == 0 && Width(plan) == bw
    requires |rows| == RowCount(height) && Walks(rows, dst, dstStep, src, srcStep, bw)
    requires AllInBounds(mem.Length, rows)
    requires forall i :: 0 <= i < |rows| ==> Forward(rows[i].dst, rows[i].src, rows[i].len)
    modifies mem
    ensures mem[..] == Apply(old(mem[..]), rows)
  {
    ghost var m0 := mem[..];
    ghost var k := 0;
    var h, d, s := height, dst, src;
    assert rows[..0] == [];
    while h > 0
      invariant 0 <= k <= |rows| && (h > 0 ==> k + h == |rows|) && (h <= 0 ==> k == |rows|)
      invariant k < |rows| ==> d == rows[k].dst && s == rows[k].src
      invariant mem[..] == Apply(m0, rows[..k])
    {
      ghost var row := rows[k];
      assert CopyInBounds(mem.Length, row) && Forward(row.dst, row.src, row.len) && row.len == bw;
      BltRow(mem, d, s, bw, plan, direct, sourceAligned);
      ApplyAppend(m0, rows[..k], row);
      assert rows[..k + 1] == rows[..k] + [rows[k]];
      d := d + dstStep;
      s := s + srcStep;
      h := h - 1;
      k := k + 1;
    }
    assert rows[..k] == rows;
  }

  /**
   * standard_blt with the corrected choice of helper and the corrected
   * plans: classify the first row's alignments once, then for each of the
   * `h` rows, from the first down, copy the row and step both line pointers
   * by their strides.  The rows are copied one after another, each a
   * memmove of its `w * (bpp / 8)` bytes, as long as no row's source starts
   * inside its destination to its left.
   */
  method StandardBltArm(mem: array<Byte>, r: BltRequest, ghost rows: seq<Copy>) returns (ok: bool)
    requires r.srcBpp == 16 || r.srcBpp == 32
    requires r.dstBpp == 16 || r.dstBpp == 32
    requires r.srcBits % 4 == 0 && r.dstBits % 4 == 0 && r.width >= 2
    requires |rows| == RowCount(r.height)
    requires Walks(rows, PixelAddress(r.dstBits, r.dstStride, r.dstBpp, r.dstX, r.dstY), 4 * r.dstStride,
                   PixelAddress(r.srcBits, r.srcStride, r.srcBpp, r.srcX, r.srcY), 4 * r.srcStride,
                   RowBytes(r.width, r.srcBpp))
    requires AllInBounds(mem.Length, rows)
    requires forall i :: 0 <= i < |rows| ==> Forward(rows[i].dst, rows[i].src, rows[i].len)
    modifies mem
    ensures ok
    ensures mem[..] == Apply(old(mem[..]), rows)
  {
    var src := PixelAddress(r.srcBits, r.srcStride, r.srcBpp, r.srcX, r.srcY);
    var dst := PixelAddress(r.dstBits, r.dstStride, r.dstBpp, r.dstX, r.dstY);
    var bw := RowBytes(r.width, r.srcBpp);
    var alignSrc, alignDst := AlignShift(src), AlignShift(dst);
    PixelAddressEven(r.srcBits, r.srcStride, r.srcBpp, r.srcX, r.srcY);
    PixelAddressEven(r.dstBits, r.dstStride, r.dstBpp, r.dstX, r.dstY);
    AlignShiftEven(src);
    AlignShiftEven(dst);
    var helper := Classify(alignSrc, alignDst);
    var plan := PlanOf(alignSrc, bw);
    PlanWidth(alignSrc, bw);
    var direct := helper == SameAlignmentCopy || helper == WordAlignedCopy
                  || SmallRow(Bit1(alignSrc) + 4 * LeftWords(alignSrc), bw);
    BltRows(mem, r.height, dst, 4 * r.dstStride, src, 4 * r.srcStride, bw, plan, direct,
            helper == SourceWordAlignedCopy, rows);
    ok := true;
  }

  // ---------------------------------------------------------------------------
  // The stores of the shifting helpers, as written
  //
  // Offsets here count from the start of the row, in the destination and in
  // the source alike.  A merged 32-bit store is two half-word copies: the
  // carried half-word, then the lower half of the word just loaded.  A row
  // whose every copy has `dst == src` and whose copies tile the row is a
  // correct row copy.

  /** The merged store at `at` of the half-word carried from `carry` and the lower half of the word at `word`. */
  function Merged(at: nat, carry: nat, word: nat): seq<Copy>
  {
    [Copy(at, carry, 2), Copy(at + 2, word, 2)]
  }

  /** A word loop: `count` merged stores at `offset - 2 + 4 * i` of the words loaded at `offset + 4 * i`. */
  function WordLoop(offset: nat, carry: nat, count: nat): seq<Copy>
    requires offset >= 2
    decreases count
  {
    if count == 0 then [] else Merged(offset - 2, carry, offset) + WordLoop(offset + 4, offset + 2, count - 1)
  }

  /** Where the carried half-word comes from after a word loop. */
  function CarryAfter(offset: nat, carry: nat, count: nat): nat
  {
    if count == 0 then carry else offset + 4 * count - 2
  }

  /** One unrolled chunk, as written: the second of its eight merged stores goes to `offset + 4`. */
  function ChunkAsWritten(offset: nat, carry: nat): seq<Copy>
    requires offset >= 2
  {
    Merged(offset - 2, carry, offset) + Merged(offset + 4, offset + 2, offset + 4)
      + Merged(offset + 6, offset + 6, offset + 8) + Merged(offset + 10, offset + 10, offset + 12)
      + Merged(offset + 14, offset + 14, offset + 16) + Merged(offset + 18, offset + 18, offset + 20)
      + Merged(offset + 22, offset + 22, offset + 24) + Merged(offset + 26, offset + 26, offset + 28)
  }

  /** The chunk loop, as written: `count` chunks of 32 bytes. */
  function ChunkLoopAsWritten(offset: nat, carry: nat, count: nat): seq<Copy>
    requires offset >= 2
    decreases count
  {
    if count == 0 then [] else ChunkAsWritten(offset, carry) + ChunkLoopAsWritten(offset + 32, offset + 30, count - 1)
  }

  /** The last store: merged with a last 16-bit load when `rightShort` is set, the carried half-word alone otherwise. */
  function LastAsWritten(offset: nat, carry: nat, rightShort: nat): (cs: seq<Copy>)
    requires offset >= 2
    ensures |cs| > 0 && cs[0] == Copy(offset - 2, carry, 2)
  {
    if rightShort > 0 then Merged(offset - 2, carry, offset) else [Copy(offset - 2, carry, 2)]
  }

  /**
   * The stores of one bulk row of standard_source_word_aligned_blt
   * (`sourceAligned`) or standard_destination_word_aligned_blt, as written:
   * the start, `leftmost_words - 1` or `leftmost_words` word steps, then
   * `offset += leftmost_words * 4`, the chunks, the trailing word steps and
   * the last store.
   */
  function ShiftRowAsWritten(p: Plan, sourceAligned: bool): seq<Copy>
  {
    var head := if sourceAligned then [Copy(0, 0, 2)] else [];
    var o0: nat := if sourceAligned then 4 else 2;
    var c0: nat := if sourceAligned then 2 else 0;
    var leading := if !sourceAligned then p.leftWords else if p.leftWords > 0 then p.leftWords - 1 else 0;
    var o1 := o0 + 4 * p.leftWords;
    var c1 := CarryAfter(o0, c0, leading);
    var o2 := o1 + 32 * p.chunks;
    var c2 := if p.chunks == 0 then c1 else o2 - 2;
    var o3 := o2 + 4 * p.rightWords;
    var c3 := CarryAfter(o2, c2, p.rightWords);
    head + WordLoop(o0, c0, leading) + ChunkLoopAsWritten(o1, c1, p.chunks)
      + WordLoop(o2, c2, p.rightWords) + LastAsWritten(o3, c3, p.rightShort)
  }

  /**
   * The first chunk store misplaces a half-word: the half-word from source
   * offset `offset + 2` lands at `offset + 4`, and nothing is stored at
   * destination offset `offset + 2`.
   */
  lemma ChunkAsWrittenMisplaces(offset: nat, carry: nat)
    requires offset >= 2
    ensures Copy(offset + 4, offset + 2, 2) in ChunkAsWritten(offset, carry)
    ensures forall c :: c in ChunkAsWritten(offset, carry) ==> !(c.dst <= offset + 2 < c.dst + c.len)
  {
    var cs := ChunkAsWritten(offset, carry);
    assert cs[2] == Copy(offset + 4, offset + 2, 2);
  }

  /**
   * After the leading word steps of the source-word-aligned helper, the
   * offset has advanced one word too far: the next store puts the
   * half-word from source offset `4 * leftmost_words - 2` at destination
   * offset `4 * leftmost_words + 2`.
   */
  lemma SourceAlignedRowAsWrittenSkips(p: Plan)
    requires p.leftWords >= 1
    ensures Copy(4 * p.leftWords + 2, 4 * p.leftWords - 2, 2) in ShiftRowAsWritten(p, true)
  {
  }

  /**
   * The last store of a bulk row ends 4 bytes past the row in the
   * source-word-aligned helper, whose row starts word aligned, and exactly
   * at the row's end in the destination-word-aligned helper, whose row
   * starts with a half-word.
   */
  lemma ShiftRowAsWrittenEnd(p: Plan, sourceAligned: bool)
    requires p.rightShort == 0 || p.rightShort == 2
    ensures var cs := ShiftRowAsWritten(p, sourceAligned);
      |cs| > 0 && (sourceAligned && p.leftShort == 0 ==> cs[|cs| - 1].dst + cs[|cs| - 1].len == Width(p) + 4)
    ensures var cs := ShiftRowAsWritten(p, sourceAligned);
      |cs| > 0 && (!sourceAligned && p.leftShort == 2 ==> cs[|cs| - 1].dst + cs[|cs| - 1].len == Width(p))
  {
    var cs := ShiftRowAsWritten(p, sourceAligned);
    var o3 := (if sourceAligned then 4 else 2) + 4 * p.leftWords + 32 * p.chunks + 4 * p.rightWords;
    var c3 := CarryAfter(o3 - 4 * p.rightWords, if p.chunks == 0 then CarryAfter(if sourceAligned then 4 else 2,
      if sourceAligned then 2 else 0, if !sourceAligned then p.leftWords else if p.leftWords > 0 then p.leftWords - 1 else 0)
      else o3 - 4 * p.rightWords - 2, p.rightWords);
    var last := LastAsWritten(o3, c3, p.rightShort);
    assert cs[|cs| - 1] == last[|last| - 1];
  }

  /**
   * A 12-byte row whose source starts 24 bytes into a block and whose
   * destination is 2 bytes off a word: destination bytes 6 to 9 are never
   * stored, bytes 10 and 11 get source bytes 6 and 7, and the row's stores
   * reach destination offset 16.
   */
  lemma SourceAlignedRowAsWrittenExample()
    ensures RowShape(24, 12) && PlanAsWritten(24, 12) == Plan(0, 2, 0, 1, 0)
    ensures ShiftRowAsWritten(Plan(0, 2, 0, 1, 0), true) ==
      [Copy(0, 0, 2), Copy(2, 2, 2), Copy(4, 4, 2), Copy(10, 6, 2), Copy(12, 12, 2), Copy(14, 14, 2)]
    ensures forall c :: c in ShiftRowAsWritten(Plan(0, 2, 0, 1, 0), true) ==> !(c.dst <= 6 < c.dst + c.len)
  {
    LeftWordsAsWrittenValue(24);
  }

}
