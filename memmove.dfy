/**
 * The uncached-source memmove of the CPU back end (`twopass_memmove_arm`).
 *
 * The source may lie in display memory, where small unaligned reads are very
 * slow.  The routine therefore never reads the source directly into the
 * destination: it fetches 32-byte aligned blocks of up to 2048 + 32 bytes into
 * an aligned scratch buffer and writes the wanted bytes back from there.  It
 * walks upwards when the source lies above the destination and downwards
 * otherwise, so overlapping ranges are handled like memmove.
 */
module Memmove {
  import opened Memory

  /** SCRATCHSIZE: the number of bytes moved per chunk. */
  const ScratchSize: nat := 2048

  /** Fetches start at multiples of this many bytes. */
  const Align: nat := 32

  /** The extra bytes fetched past a chunk when the source is not aligned. */
  function ExtraSize(alignshift: nat): nat
  {
    if alignshift == 0 then 0 else Align
  }

  /** One past the last byte that any fetch of a `size`-byte move from `src` may read. */
  function FetchEnd(src: nat, size: nat): nat
  {
    src - src % Align + size + ExtraSize(src % Align)
  }

  /** The arguments one chunk step passes to the fetch and to the write-back helper. */
  datatype Chunk = Chunk(fetchFrom: nat, fetchLen: nat, dst: nat, src: nat, len: nat)

  /** The chunk step for `len` bytes at `src`, whose offset within its aligned block is `alignshift`. */
  function MkChunk(dst: nat, src: nat, len: nat, alignshift: nat): Chunk
    requires alignshift <= src
  {
    Chunk(src - alignshift, len + ExtraSize(alignshift), dst, src, len)
  }

  /** Upward walk: whole chunks from the bottom, then the remainder. */
  function ForwardChunks(dst: nat, src: nat, size: nat, alignshift: nat): seq<Chunk>
    requires alignshift <= src
    decreases size
  {
    if size >= ScratchSize then
      [MkChunk(dst, src, ScratchSize, alignshift)]
        + ForwardChunks(dst + ScratchSize, src + ScratchSize, size - ScratchSize, alignshift)
    else if size > 0 then [MkChunk(dst, src, size, alignshift)]
    else []
  }

  /** Downward walk over `size` bytes, a multiple of the chunk size, from the top chunk down. */
  function BackwardChunks(dst: nat, src: nat, size: nat, alignshift: nat): seq<Chunk>
    requires alignshift <= src && size % ScratchSize == 0
    decreases size
  {
    if size == 0 then []
    else
      [MkChunk(dst + size - ScratchSize, src + size - ScratchSize, ScratchSize, alignshift)]
        + BackwardChunks(dst, src, size - ScratchSize, alignshift)
  }

  /**
   * The chunk steps of a move of `size` bytes from `src` to `dst`: upwards when
   * the source lies above the destination, otherwise the remainder at the top
   * end first and then whole chunks downwards.
   */
  function Schedule(dst: nat, src: nat, size: nat): seq<Chunk>
  {
    var alignshift := src % Align;
    if src > dst then ForwardChunks(dst, src, size, alignshift)
    else
      var remainder := size % ScratchSize;
      (if remainder > 0 then [MkChunk(dst + (size - remainder), src + (size - remainder), remainder, alignshift)] else [])
        + BackwardChunks(dst, src, size - remainder, alignshift)
  }

  // ---------------------------------------------------------------------------
  // The helpers (plain memcpy calls in the source) and the routine.

  /**
   * aligned_fetch_fbmem_to_scratch_arm: copy `size` bytes starting at the
   * aligned address `from` into the scratch buffer at offset `at`, whose
   * address `scratchAddr` is aligned too.
   */
  method AlignedFetchToScratch(size: nat, scratch: array<Byte>, at: nat, mem: array<Byte>, from: nat)
    requires at + size <= scratch.Length && from + size <= mem.Length
    requires scratch != mem
    modifies scratch
    ensures forall k {:trigger scratch[k]} :: 0 <= k < scratch.Length ==>
      scratch[k] == if at <= k < at + size then mem[from + (k - at)] else old(scratch[k])
  {
    forall k | at <= k < at + size {
      scratch[k] := mem[from + (k - at)];
    }
  }

  /** writeback_scratch_to_mem_arm: copy `size` bytes from the scratch buffer at `at` to `dst`. */
  method WritebackScratchToMem(size: nat, mem: array<Byte>, dst: nat, scratch: array<Byte>, at: nat)
    requires at + size <= scratch.Length && dst + size <= mem.Length
    requires scratch != mem
    modifies mem
    ensures forall k {:trigger mem[k]} :: 0 <= k < mem.Length ==>
      mem[k] == if dst <= k < dst + size then scratch[at + (k - dst)] else old(mem[k])
  {
    forall k | dst <= k < dst + size {
      mem[k] := scratch[at + (k - dst)];
    }
  }

  /**
   * One chunk step: fetch the aligned block that holds source bytes
   * [src, src + n), plus 32 bytes when the source is unaligned, then write the
   * `n` wanted bytes to `dst`.  Because the scratch buffer is separate memory,
   * the step is a memmove of `n` bytes whatever the overlap.
   */
  method FetchAndWriteBack(mem: array<Byte>, tmpbuf: array<Byte>, scratch: nat,
                           dst: nat, src: nat, n: nat, alignshift: nat, extrasize: nat)
    requires tmpbuf != mem
    requires alignshift < Align && alignshift <= src && extrasize == ExtraSize(alignshift)
    requires n <= ScratchSize && scratch + ScratchSize + Align <= tmpbuf.Length
    requires src - alignshift + n + extrasize <= mem.Length && dst + n <= mem.Length
    modifies mem, tmpbuf
    ensures mem[..] == Moved(old(mem[..]), dst, src, n)
  {
    ghost var m := mem[..];
    assert alignshift <= extrasize;
    AlignedFetchToScratch(n + extrasize, tmpbuf, scratch, mem, src - alignshift);
    WritebackScratchToMem(n, mem, dst, tmpbuf, scratch + alignshift);
    forall k | 0 <= k < mem.Length
      ensures mem[k] == Moved(m, dst, src, n)[k]
    {
      if dst <= k < dst + n {
        var j := scratch + alignshift + (k - dst);
        assert mem[k] == tmpbuf[j];
        assert tmpbuf[j] == m[src - alignshift + (j - scratch)];
      } else {
        assert mem[k] == m[k];
      }
    }
    SameBytes(mem[..], Moved(m, dst, src, n));
  }

  /**
   * The offset of the aligned scratch area inside the stack array at
   * `stackAddr`: the source rounds the array's address up to a multiple of 32.
   */
  function ScratchOffset(stackAddr: nat): (r: nat)
    ensures (stackAddr + r) % Align == 0 && r < Align
  {
    (stackAddr + Align - 1) - (stackAddr + Align - 1) % Align - stackAddr
  }

  /**
   * twopass_memmove_arm: move `size` bytes from `src` to `dst` through an
   * aligned scratch buffer carved out of a stack array at address `stackAddr`.
   * Afterwards `dst[i]` holds the original `src[i]` for every `i < size` and
   * nothing outside [dst, dst + size) has changed; `chunks` lists the helper
   * calls in the order they are made.  The source must be readable up to the
   * over-fetch limit FetchEnd.
   */
  method TwopassMemmove(mem: array<Byte>, dst: nat, src: nat, size: nat, stackAddr: nat)
    returns (ghost chunks: seq<Chunk>)
    requires dst + size <= mem.Length
    requires src <= mem.Length && (size > 0 ==> FetchEnd(src, size) <= mem.Length)
    modifies mem
    ensures mem[..] == Moved(old(mem[..]), dst, src, size)
    ensures chunks == Schedule(dst, src, size)
  {
    var tmpbuf := new Byte[ScratchSize + Align + Align - 1];
    // scratchbuf = (&tmpbuf[0] + 31) & ~31, kept as an offset into tmpbuf
    var scratch := ScratchOffset(stackAddr);
    var alignshift := src % Align;
    var extrasize := if alignshift == 0 then 0 else Align;
    if src > dst {
      chunks := MoveUpwards(mem, tmpbuf, scratch, dst, src, size, alignshift, extrasize);
    } else {
      chunks := MoveDownwards(mem, tmpbuf, scratch, dst, src, size, alignshift, extrasize);
    }
  }

  /** The upward walk of TwopassMemmove, taken when the source lies above the destination. */
  method MoveUpwards(mem: array<Byte>, tmpbuf: array<Byte>, scratch: nat,
                     dst: nat, src: nat, size: nat, alignshift: nat, extrasize: nat)
    returns (ghost chunks: seq<Chunk>)
    requires tmpbuf != mem && src > dst
    requires alignshift < Align && alignshift <= src && extrasize == ExtraSize(alignshift)
    requires scratch + ScratchSize + Align <= tmpbuf.Length
    requires dst + size <= mem.Length && (size > 0 ==> src - alignshift + size + extrasize <= mem.Length)
    modifies mem, tmpbuf
    ensures mem[..] == Moved(old(mem[..]), dst, src, size)
    ensures chunks == ForwardChunks(dst, src, size, alignshift)
  {
    var d: nat, s: nat, n: nat := dst, src, size;
    ghost var m0 := mem[..];
    chunks := [];
    while n >= ScratchSize
      invariant n <= size && d == dst + (size - n) && s == src + (size - n)
      invariant alignshift <= s && alignshift <= src && alignshift <= extrasize
      invariant |m0| == mem.Length && dst + size <= |m0| && (size > 0 ==> src + size <= |m0|)
      invariant size > 0 ==> src - alignshift + size + extrasize <= |m0|
      invariant mem[..] == Moved(m0, dst, src, size - n)
      invariant chunks + ForwardChunks(d, s, n, alignshift) == ForwardChunks(dst, src, size, alignshift)
    {
      ghost var before, done, prev, d0, s0, n0 := mem[..], size - n, chunks, d, s, n;
      FetchAndWriteBack(mem, tmpbuf, scratch, d, s, ScratchSize, alignshift, extrasize);
      chunks := chunks + [Chunk(s - alignshift, ScratchSize + extrasize, d, s, ScratchSize)];
      n := n - ScratchSize;
      d := d + ScratchSize;
      s := s + ScratchSize;
      MovedStepUp(m0, before, mem[..], dst, src, d0, s0, done, ScratchSize, size - n);
      ForwardChunksStep(prev, chunks, d0, s0, n0, d, s, n, alignshift, extrasize, ForwardChunks(dst, src, size, alignshift));
    }
    ghost var prev := chunks;
    if n > 0 {
      ghost var before := mem[..];
      FetchAndWriteBack(mem, tmpbuf, scratch, d, s, n, alignshift, extrasize);
      MovedStepUp(m0, before, mem[..], dst, src, d, s, size - n, n, size);
      chunks := chunks + [Chunk(s - alignshift, n + extrasize, d, s, n)];
    } else {
      assert size - n == size;
    }
    ForwardChunksLast(prev, chunks, d, s, n, alignshift, extrasize, ForwardChunks(dst, src, size, alignshift));
  }

  /** The partial chunk, if any, ends the upward walk. */
  lemma ForwardChunksLast(prev: seq<Chunk>, next: seq<Chunk>, d: nat, s: nat, n: nat, a: nat, e: nat,
                          whole: seq<Chunk>)
    requires a <= s && n < ScratchSize && e == ExtraSize(a)
    requires prev + ForwardChunks(d, s, n, a) == whole
    requires next == prev + (if n > 0 then [Chunk(s - a, n + e, d, s, n)] else [])
    ensures next == whole
  {
    if n == 0 {
      assert prev + [] == prev;
    }
  }

  /** One chunk of the upward walk, added above the bytes already moved. */
  lemma MovedStepUp(m0: seq<Byte>, before: seq<Byte>, after: seq<Byte>, dst: nat, src: nat,
                    d: nat, s: nat, done: nat, len: nat, total: nat)
    requires src > dst && d == dst + done && s == src + done && total == done + len
    requires dst + total <= |m0| && src + total <= |m0|
    requires before == Moved(m0, dst, src, done)
    requires after == Moved(before, d, s, len)
    ensures after == Moved(m0, dst, src, total)
  {
    MovedExtendForward(m0, dst, src, done, len);
  }

  /** Taking the bottom chunk off the part of an upward walk still to do. */
  lemma ForwardChunksStep(prev: seq<Chunk>, next: seq<Chunk>, d0: nat, s0: nat, n0: nat,
                          d: nat, s: nat, n: nat, a: nat, e: nat, whole: seq<Chunk>)
    requires a <= s0 && n0 >= ScratchSize && e == ExtraSize(a)
    requires d == d0 + ScratchSize && s == s0 + ScratchSize && n == n0 - ScratchSize
    requires prev + ForwardChunks(d0, s0, n0, a) == whole
    requires next == prev + [Chunk(s0 - a, ScratchSize + e, d0, s0, ScratchSize)]
    ensures next + ForwardChunks(d, s, n, a) == whole
  {
    var c := Chunk(s0 - a, ScratchSize + e, d0, s0, ScratchSize);
    var rest := ForwardChunks(d, s, n, a);
    ForwardChunksUnfold(d0, s0, n0, a);
    SeqRegroup(prev, c, rest);
  }

  /** A walk over at least one whole chunk starts with that chunk. */
  lemma ForwardChunksUnfold(d0: nat, s0: nat, n0: nat, a: nat)
    requires a <= s0 && n0 >= ScratchSize
    ensures ForwardChunks(d0, s0, n0, a)
         == [Chunk(s0 - a, ScratchSize + ExtraSize(a), d0, s0, ScratchSize)]
          + ForwardChunks(d0 + ScratchSize, s0 + ScratchSize, n0 - ScratchSize, a)
  {
  }

  lemma SeqRegroup<T>(p: seq<T>, c: T, r: seq<T>)
    ensures (p + [c]) + r == p + ([c] + r)
  {
  }

  /**
   * The downward walk of TwopassMemmove: the partial remainder at the top end
   * first, then whole chunks from the top down.
   */
  method MoveDownwards(mem: array<Byte>, tmpbuf: array<Byte>, scratch: nat,
                       dst: nat, src: nat, size: nat, alignshift: nat, extrasize: nat)
    returns (ghost chunks: seq<Chunk>)
    requires tmpbuf != mem && src <= dst
    requires alignshift == src % Align && alignshift <= src && extrasize == ExtraSize(alignshift)
    requires scratch + ScratchSize + Align <= tmpbuf.Length
    requires dst + size <= mem.Length && (size > 0 ==> src - alignshift + size + extrasize <= mem.Length)
    modifies mem, tmpbuf
    ensures mem[..] == Moved(old(mem[..]), dst, src, size)
    ensures chunks == Schedule(dst, src, size)
  {
    ghost var m0 := mem[..];
    var remainder := size % ScratchSize;
    var n: nat := size - remainder;
    var d: nat, s: nat := dst + n, src + n;
    if remainder > 0 {
      FetchAndWriteBack(mem, tmpbuf, scratch, d, s, remainder, alignshift, extrasize);
      chunks := [Chunk(s - alignshift, remainder + extrasize, d, s, remainder)];
    } else {
      MovedNothing(m0, d, s);
      chunks := [];
    }
    ghost var m1 := mem[..];
    ghost var whole := MoveWholeChunksDown(mem, tmpbuf, scratch, dst, src, n, alignshift, extrasize);
    chunks := chunks + whole;
    MovedRemainderThenWhole(m0, m1, mem[..], dst, src, d, s, n, remainder, size);
  }

  /** The remainder at the top end, then the whole chunks below it, make up the downward move. */
  lemma MovedRemainderThenWhole(m0: seq<Byte>, m1: seq<Byte>, m2: seq<Byte>, dst: nat, src: nat,
                                d: nat, s: nat, n: nat, remainder: nat, size: nat)
    requires src <= dst && d == dst + n && s == src + n && size == n + remainder
    requires dst + size <= |m0| && (remainder > 0 ==> src + size <= |m0|)
    requires m1 == Moved(m0, d, s, remainder)
    requires m2 == Moved(m1, dst, src, n)
    ensures m2 == Moved(m0, dst, src, size)
  {
    MovedExtendBackward(m0, dst, src, n, remainder);
  }

  /** The whole-chunk loop of the downward walk, over `n` bytes, a multiple of 2048. */
  method MoveWholeChunksDown(mem: array<Byte>, tmpbuf: array<Byte>, scratch: nat,
                             dst: nat, src: nat, n: nat, alignshift: nat, extrasize: nat)
    returns (ghost chunks: seq<Chunk>)
    requires tmpbuf != mem && src <= dst && n % ScratchSize == 0
    requires alignshift < Align && alignshift <= src && extrasize == ExtraSize(alignshift)
    requires scratch + ScratchSize + Align <= tmpbuf.Length
    requires dst + n <= mem.Length && (n > 0 ==> src - alignshift + n + extrasize <= mem.Length)
    modifies mem, tmpbuf
    ensures mem[..] == Moved(old(mem[..]), dst, src, n)
    ensures chunks == BackwardChunks(dst, src, n, alignshift)
  {
    ghost var m0 := mem[..];
    var k: nat := n;
    var d: nat, s: nat := dst + k, src + k;
    chunks := [];
    MovedNothing(m0, d, s);
    while k > 0
      invariant k % ScratchSize == 0 && k <= n
      invariant d == dst + k && s == src + k
      invariant |m0| == mem.Length
      invariant mem[..] == Moved(m0, d, s, n - k)
      invariant chunks + BackwardChunks(dst, src, k, alignshift) == BackwardChunks(dst, src, n, alignshift)
    {
      ghost var before, done, prev, d0, s0, k0 := mem[..], n - k, chunks, d, s, k;
      d := d - ScratchSize;
      s := s - ScratchSize;
      k := k - ScratchSize;
      FetchAndWriteBack(mem, tmpbuf, scratch, d, s, ScratchSize, alignshift, extrasize);
      chunks := chunks + [Chunk(s - alignshift, ScratchSize + extrasize, d, s, ScratchSize)];
      MovedStepDown(m0, before, mem[..], d0, s0, d, s, done, n - k);
      BackwardChunksStep(prev, chunks, dst, src, k0, k, alignshift, extrasize, BackwardChunks(dst, src, n, alignshift));
    }
    assert d == dst && s == src;
  }

  /** One whole chunk of the downward walk, added below the bytes already moved. */
  lemma MovedStepDown(m0: seq<Byte>, before: seq<Byte>, after: seq<Byte>, d0: nat, s0: nat,
                      d: nat, s: nat, done: nat, total: nat)
    requires s <= d && d0 == d + ScratchSize && s0 == s + ScratchSize && total == ScratchSize + done
    requires d + total <= |m0| && s + total <= |m0|
    requires before == Moved(m0, d0, s0, done)
    requires after == Moved(before, d, s, ScratchSize)
    ensures after == Moved(m0, d, s, total)
  {
    MovedExtendBackward(m0, d, s, ScratchSize, done);
  }

  /** Peeling the top chunk off the part of a downward walk still to do. */
  lemma BackwardChunksStep(prev: seq<Chunk>, next: seq<Chunk>, dst: nat, src: nat, k0: nat, k: nat,
                           a: nat, e: nat, whole: seq<Chunk>)
    requires a <= src && k0 % ScratchSize == 0 && k0 > 0 && k == k0 - ScratchSize && e == ExtraSize(a)
    requires prev + BackwardChunks(dst, src, k0, a) == whole
    requires next == prev + [Chunk(src + k - a, ScratchSize + e, dst + k, src + k, ScratchSize)]
    ensures next + BackwardChunks(dst, src, k, a) == whole
  {
    var c, rest := MkChunk(dst + k, src + k, ScratchSize, a), BackwardChunks(dst, src, k, a);
    assert BackwardChunks(dst, src, k0, a) == [c] + rest;
    assert next == prev + [c];
    assert (prev + [c]) + rest == prev + ([c] + rest);
  }

  /** Stepping a source address by whole chunks keeps its offset within its aligned block. */
  lemma {:induction false} ChunkStepsKeepAlignment(src: nat, j: nat)
    requires j % ScratchSize == 0
    ensures (src + j) % Align == src % Align
    decreases j
  {
    if j > 0 {
      ChunkStepsKeepAlignment(src, j - ScratchSize);
      assert src + j == (src + (j - ScratchSize)) + 64 * Align;
    }
  }

  // ---------------------------------------------------------------------------
  // What the schedule promises.

  /**
   * A chunk step of a move whose source has offset `a` in its aligned block:
   * it fetches from an aligned address, at most 2048 + 32 bytes, a block that
   * holds all the bytes it writes back, and nothing outside [lo, hi); it keeps
   * the distance `delta` between source and destination.
   */
  predicate GoodChunk(c: Chunk, a: nat, lo: nat, hi: nat, delta: int)
  {
    && c.fetchFrom % Align == 0
    && 0 < c.len <= ScratchSize
    && c.fetchLen == c.len + ExtraSize(a)
    && c.fetchLen <= ScratchSize + Align
    && c.fetchFrom <= c.src && c.src + c.len <= c.fetchFrom + c.fetchLen
    && lo <= c.fetchFrom && c.fetchFrom + c.fetchLen <= hi
    && c.src - c.dst == delta
  }

  lemma {:induction false} ForwardChunksGood(dst: nat, src: nat, size: nat, a: nat, lo: nat, hi: nat)
    requires src % Align == a && lo <= src - a && src - a + size + ExtraSize(a) <= hi
    ensures forall i :: 0 <= i < |ForwardChunks(dst, src, size, a)| ==>
      GoodChunk(ForwardChunks(dst, src, size, a)[i], a, lo, hi, src - dst)
    decreases size
  {
    if size >= ScratchSize {
      assert (src + ScratchSize) % Align == a by { ChunkStepsKeepAlignment(src, ScratchSize); }
      ForwardChunksGood(dst + ScratchSize, src + ScratchSize, size - ScratchSize, a, lo, hi);
    }
  }

  lemma {:induction false} BackwardChunksGood(dst: nat, src: nat, size: nat, a: nat, lo: nat, hi: nat)
    requires size % ScratchSize == 0
    requires src % Align == a && lo <= src - a && src - a + size + ExtraSize(a) <= hi
    ensures forall i :: 0 <= i < |BackwardChunks(dst, src, size, a)| ==>
      GoodChunk(BackwardChunks(dst, src, size, a)[i], a, lo, hi, src - dst)
    decreases size
  {
    if size > 0 {
      assert (src + (size - ScratchSize)) % Align == a by {
        ChunkStepsKeepAlignment(src, size - ScratchSize);
      }
      BackwardChunksGood(dst, src, size - ScratchSize, a, lo, hi);
    }
  }

  /**
   * Every fetch starts at a 32-byte aligned address and is at most 2048 + 32
   * bytes long, so it fits the aligned scratch area; it covers the bytes its
   * chunk writes back; and no fetch reads below the aligned block of `src` or
   * past FetchEnd, that is, at most one alignment unit beyond the source.
   */
  lemma ScheduleFetchesAligned(dst: nat, src: nat, size: nat)
    ensures forall i :: 0 <= i < |Schedule(dst, src, size)| ==>
      GoodChunk(Schedule(dst, src, size)[i], src % Align, src - src % Align, FetchEnd(src, size), src - dst)
  {
    var a := src % Align;
    var lo, hi := src - a, FetchEnd(src, size);
    if src > dst {
      ForwardChunksGood(dst, src, size, a, lo, hi);
    } else {
      var remainder := size % ScratchSize;
      BackwardChunksGood(dst, src, size - remainder, a, lo, hi);
      assert (src + (size - remainder)) % Align == a by { ChunkStepsKeepAlignment(src, size - remainder); }
    }
  }

  lemma {:induction false} ForwardChunksCount(dst: nat, src: nat, size: nat, a: nat)
    requires a <= src
    ensures |ForwardChunks(dst, src, size, a)| == size / ScratchSize + (if size % ScratchSize > 0 then 1 else 0)
    decreases size
  {
    if size >= ScratchSize {
      ForwardChunksCount(dst + ScratchSize, src + ScratchSize, size - ScratchSize, a);
    }
  }

  lemma {:induction false} BackwardChunksCount(dst: nat, src: nat, size: nat, a: nat)
    requires a <= src && size % ScratchSize == 0
    ensures |BackwardChunks(dst, src, size, a)| == size / ScratchSize
    decreases size
  {
    if size > 0 {
      BackwardChunksCount(dst, src, size - ScratchSize, a);
    }
  }

  /** A move issues size / 2048 whole chunks plus one partial chunk when 2048 does not divide size. */
  lemma ScheduleCount(dst: nat, src: nat, size: nat)
    ensures |Schedule(dst, src, size)| == size / ScratchSize + (if size % ScratchSize > 0 then 1 else 0)
  {
    var a := src % Align;
    if src > dst {
      ForwardChunksCount(dst, src, size, a);
    } else {
      BackwardChunksCount(dst, src, size - size % ScratchSize, a);
    }
  }

  lemma {:induction false} ForwardChunksOrder(dst: nat, src: nat, size: nat, a: nat)
    requires a <= src
    ensures var cs := ForwardChunks(dst, src, size, a);
      forall i :: 0 <= i < |cs| ==>
        cs[i].dst == dst + ScratchSize * i &&
        cs[i].len == (if i < size / ScratchSize then ScratchSize else size % ScratchSize)
    decreases size
  {
    if size >= ScratchSize {
      ForwardChunksOrder(dst + ScratchSize, src + ScratchSize, size - ScratchSize, a);
      ForwardChunksCount(dst + ScratchSize, src + ScratchSize, size - ScratchSize, a);
    }
  }

  lemma {:induction false} BackwardChunksOrder(dst: nat, src: nat, size: nat, a: nat)
    requires a <= src && size % ScratchSize == 0
    ensures forall i :: 0 <= i < |BackwardChunks(dst, src, size, a)| ==>
      BackwardChunks(dst, src, size, a)[i].dst + ScratchSize * (i + 1) == dst + size &&
      BackwardChunks(dst, src, size, a)[i].len == ScratchSize
    decreases size
  {
    if size > 0 {
      var cs := BackwardChunks(dst, src, size, a);
      var rest := BackwardChunks(dst, src, size - ScratchSize, a);
      BackwardChunksOrder(dst, src, size - ScratchSize, a);
      forall i | 0 <= i < |cs| ensures cs[i].dst + ScratchSize * (i + 1) == dst + size && cs[i].len == ScratchSize {
        if i > 0 {
          var j := i - 1;
          assert cs[i] == rest[j];
          assert rest[j].dst + ScratchSize * (j + 1) == dst + (size - ScratchSize);
          assert ScratchSize * (i + 1) == ScratchSize * (j + 1) + ScratchSize;
        }
      }
    }
  }

  /**
   * The direction rule.  Upwards (taken exactly when the source lies above the
   * destination), chunk i writes at dst + 2048 i and all chunks but a final
   * partial one are whole.  Downwards, the partial remainder at the top end is
   * written first, then the whole chunks from the top down.
   */
  lemma ScheduleOrder(dst: nat, src: nat, size: nat)
    ensures var cs := Schedule(dst, src, size);
      var remainder := size % ScratchSize;
      if src > dst then
        forall i :: 0 <= i < |cs| ==>
          cs[i].dst == dst + ScratchSize * i &&
          cs[i].len == (if i < size / ScratchSize then ScratchSize else remainder)
      else
        var first := if remainder > 0 then 1 else 0;
        (remainder > 0 ==> cs[0].dst == dst + size - remainder && cs[0].len == remainder) &&
        forall i :: first <= i < |cs| ==>
          cs[i].dst + ScratchSize * (i - first + 1) + remainder == dst + size && cs[i].len == ScratchSize
  {
    var a := src % Align;
    var cs := Schedule(dst, src, size);
    var remainder := size % ScratchSize;
    if src > dst {
      ForwardChunksOrder(dst, src, size, a);
      assert cs == ForwardChunks(dst, src, size, a);
    } else {
      var first := if remainder > 0 then 1 else 0;
      var back := BackwardChunks(dst, src, size - remainder, a);
      BackwardChunksOrder(dst, src, size - remainder, a);
      assert cs[first..] == back;
      forall i | first <= i < |cs|
        ensures cs[i].dst + ScratchSize * (i - first + 1) + remainder == dst + size && cs[i].len == ScratchSize
      {
        assert cs[i] == back[i - first];
      }
    }
  }
}
