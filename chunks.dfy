/** The chunks collection of one GridFS file, as a map from sequence number
    `n` to that chunk's data, and the abstraction that gives the file's
    contents: the concatenation of its chunks' data ordered by `n`. */
module Chunks {
  import opened ChunkMath
  import opened Bytes

  type ChunkMap = map<nat, seq<byte>>

  /** The layout a flushed file of `len` bytes has: chunks `0 ..
      NumChunks(len, cs) - 1` and no others, every chunk full but the last. */
  ghost predicate WellFormed(chunks: ChunkMap, cs: nat, len: nat)
  {
    && cs > 0
    && (forall n: nat :: n in chunks <==> n < NumChunks(len, cs))
    && (forall n: nat :: n in chunks ==> |chunks[n]| == ChunkLen(n, len, cs))
  }

  /** A file with no bytes has no chunks. */
  lemma EmptyWellFormed(cs: nat)
    requires cs > 0
    ensures WellFormed(map[], cs, 0)
  {
    var none: ChunkMap := map[];
    forall n: nat ensures n in none <==> n < NumChunks(0, cs) {
      assert NumChunks(0, cs) == 0;
    }
  }

  /** Byte `i` of the file, read from the chunk that holds it. */
  function ByteAt(chunks: ChunkMap, cs: nat, len: nat, i: nat): byte
    requires WellFormed(chunks, cs, len) && i < len
  {
    InChunk(i, len, cs);
    chunks[ChunkIndex(i, cs)][ChunkOffset(i, cs)]
  }

  /** The file's contents, byte by byte. */
  function Assemble(chunks: ChunkMap, cs: nat, len: nat): (s: seq<byte>)
    requires WellFormed(chunks, cs, len)
    ensures |s| == len
  {
    seq(len, i requires 0 <= i < len => ByteAt(chunks, cs, len, i))
  }

  /** The concatenation of chunks `0 .. k - 1`, in order of `n`. */
  function Flatten(chunks: ChunkMap, k: nat): seq<byte>
    requires forall n: nat :: n < k ==> n in chunks
  {
    if k == 0 then [] else Flatten(chunks, k - 1) + chunks[k - 1]
  }

  /** The file's contents as stored: its chunks' data concatenated in order
      of `n`. */
  function FileBytes(chunks: ChunkMap, cs: nat, len: nat): (s: seq<byte>)
    requires WellFormed(chunks, cs, len)
    ensures |s| == len
  {
    AssembleIsFlatten(chunks, cs, len);
    Flatten(chunks, NumChunks(len, cs))
  }

  /** The byte-wise contents are the chunks' data concatenated in order of
      `n`, and they have exactly `len` bytes. */
  lemma AssembleIsFlatten(chunks: ChunkMap, cs: nat, len: nat)
    requires WellFormed(chunks, cs, len)
    ensures Flatten(chunks, NumChunks(len, cs)) == Assemble(chunks, cs, len)
  {
    FlattenPrefix(chunks, cs, len, NumChunks(len, cs));
  }

  lemma {:induction false} FlattenPrefix(chunks: ChunkMap, cs: nat, len: nat, k: nat)
    requires WellFormed(chunks, cs, len) && k <= NumChunks(len, cs)
    ensures Flatten(chunks, k) == Assemble(chunks, cs, len)[..Min(k * cs, len)]
  {
    if k > 0 {
      var a := Assemble(chunks, cs, len);
      var n := k - 1;
      FlattenPrefix(chunks, cs, len, n);
      ChunkSpan(k, len, cs);
      AssembleChunk(chunks, cs, len, n);
      PrefixSplit(a, n * cs, n * cs + ChunkLen(n, len, cs));
    }
  }

  /** Chunk `n`'s data is the file's bytes from the chunk's start on. */
  lemma AssembleChunk(chunks: ChunkMap, cs: nat, len: nat, n: nat)
    requires WellFormed(chunks, cs, len) && n < NumChunks(len, cs)
    ensures Assemble(chunks, cs, len)[n * cs .. n * cs + ChunkLen(n, len, cs)] == chunks[n]
  {
    var a := Assemble(chunks, cs, len);
    forall j | 0 <= j < ChunkLen(n, len, cs) ensures a[n * cs + j] == chunks[n][j] {
      IndexOf(n, j, cs);
    }
  }

  lemma PrefixSplit(a: seq<byte>, i: nat, m: nat)
    requires i <= m <= |a|
    ensures a[..m] == a[..i] + a[i .. m]
  {
  }

  /** The bytes of the chunk holding `pos`, from `pos`'s offset on, are the
      file's bytes from `pos` to the end of that chunk. */
  lemma ChunkSlice(chunks: ChunkMap, cs: nat, len: nat, pos: nat)
    requires WellFormed(chunks, cs, len) && pos < len
    ensures ChunkIndex(pos, cs) in chunks
    ensures ChunkOffset(pos, cs) < |chunks[ChunkIndex(pos, cs)]|
    ensures pos - ChunkOffset(pos, cs) + |chunks[ChunkIndex(pos, cs)]| == ChunkEnd(pos, len, cs)
    ensures chunks[ChunkIndex(pos, cs)][ChunkOffset(pos, cs)..] ==
      FileBytes(chunks, cs, len)[pos .. pos - ChunkOffset(pos, cs) + |chunks[ChunkIndex(pos, cs)]|]
  {
    var n, off := ChunkIndex(pos, cs), ChunkOffset(pos, cs);
    InChunk(pos, len, cs);
    AssembleIsFlatten(chunks, cs, len);
    var c := chunks[n];
    var a := Assemble(chunks, cs, len);
    forall k | 0 <= k < |c| - off
      ensures c[off..][k] == a[pos .. pos - off + |c|][k]
    {
      SameChunk(pos, k, cs);
    }
  }

  /** The first `r` bytes of the chunk holding `pos`, from `pos`'s offset
      on, are the file's bytes `[pos, pos + r)`, for any `r` that stays
      inside that chunk. */
  lemma PageSlice(chunks: ChunkMap, cs: nat, len: nat, pos: nat, r: nat)
    requires WellFormed(chunks, cs, len) && pos < len && r <= ChunkEnd(pos, len, cs) - pos
    ensures ChunkIndex(pos, cs) < NumChunks(len, cs) && ChunkIndex(pos, cs) in chunks
    ensures |chunks[ChunkIndex(pos, cs)]| - ChunkOffset(pos, cs) == ChunkEnd(pos, len, cs) - pos
    ensures chunks[ChunkIndex(pos, cs)][ChunkOffset(pos, cs) .. ChunkOffset(pos, cs) + r] ==
      FileBytes(chunks, cs, len)[pos .. pos + r]
  {
    InChunk(pos, len, cs);
    ChunkSlice(chunks, cs, len, pos);
    var c, off := chunks[ChunkIndex(pos, cs)], ChunkOffset(pos, cs);
    SuffixPrefix(c, off, FileBytes(chunks, cs, len), pos, pos - off + |c|, r);
  }

  /** If `a[off..]` is `b[p..e]`, their first `r` elements agree. */
  lemma SuffixPrefix(a: seq<byte>, off: nat, b: seq<byte>, p: nat, e: nat, r: nat)
    requires off <= |a| && p <= e <= |b| && a[off..] == b[p .. e] && r <= e - p
    ensures off + r <= |a| && a[off .. off + r] == b[p .. p + r]
  {
    assert a[off .. off + r] == a[off..][..r];
  }

  /** The new data of chunk `n`, spanning file bytes `[cStart, cEnd)`, after
      `data` is written at `start`: written bytes come from `data`, the rest
      from the chunk's `existing` data, and bytes past that are zero. */
  function MergeChunk(existing: seq<byte>, cStart: nat, cEnd: nat, start: nat, data: seq<byte>): (c: seq<byte>)
    requires cStart <= cEnd
    ensures |c| == cEnd - cStart
  {
    seq(cEnd - cStart, j requires 0 <= j < cEnd - cStart =>
      var i := cStart + j;
      if start <= i < start + |data| then data[i - start]
      else if j < |existing| then existing[j]
      else 0)
  }

  /** A chunk the write covers completely is replaced outright: its existing
      data does not affect the result, so it need not be fetched. */
  lemma FullOverwriteNeedsNoFetch(existing: seq<byte>, cStart: nat, cEnd: nat, start: nat, data: seq<byte>)
    requires start <= cStart <= cEnd <= start + |data|
    ensures MergeChunk(existing, cStart, cEnd, start, data) == data[cStart - start .. cEnd - start]
  {
  }

  /** Where a write of `data` at `start` into a file of `oldLen` bytes begins
      to change chunks: the chunk holding the first byte written or, for a
      write past the end, the first byte of padding. */
  function FirstTouched(cs: nat, oldLen: nat, start: nat): nat
    requires cs > 0
  {
    ChunkIndex(Min(start, oldLen), cs)
  }

  /** Chunk `n` of a file of `newLen` bytes after the write of `data` at
      `start` is merged into `existing`. */
  function MergeInto(existing: seq<byte>, cs: nat, newLen: nat, start: nat, data: seq<byte>, n: nat): (c: seq<byte>)
    requires cs > 0
    ensures |c| == Min(n * cs + cs, newLen) - Min(n * cs, newLen)
  {
    MergeChunk(existing, Min(n * cs, newLen), Min(n * cs + cs, newLen), start, data)
  }

  /** Chunk `n` of the file after writing `data` at `start`. */
  function WrittenChunk(before: ChunkMap, cs: nat, newLen: nat, start: nat, data: seq<byte>, n: nat): (c: seq<byte>)
    requires cs > 0
    ensures |c| == Min(n * cs + cs, newLen) - Min(n * cs, newLen)
  {
    MergeInto(if n in before then before[n] else [], cs, newLen, start, data, n)
  }

  /** What the chunk-by-chunk write leaves behind: the chunks before the
      first touched one as they were, and `WrittenChunk` from there to the
      new last chunk. */
  ghost predicate WrittenFrom(before: ChunkMap, cs: nat, oldLen: nat, start: nat, data: seq<byte>, after: ChunkMap)
    requires cs > 0
  {
    var newLen := Max(oldLen, start + |data|);
    && (forall m: nat :: m in after <==> m < NumChunks(newLen, cs))
    && (forall m: nat :: m < FirstTouched(cs, oldLen, start) && m in before ==> m in after && after[m] == before[m])
    && (forall m: nat :: FirstTouched(cs, oldLen, start) <= m < NumChunks(newLen, cs) ==>
          m in after && after[m] == WrittenChunk(before, cs, newLen, start, data, m))
  }

  lemma WrittenWellFormed(before: ChunkMap, cs: nat, oldLen: nat, start: nat, data: seq<byte>, after: ChunkMap)
    requires WellFormed(before, cs, oldLen)
    requires WrittenFrom(before, cs, oldLen, start, data, after)
    ensures WellFormed(after, cs, Max(oldLen, start + |data|))
  {
    forall m: nat | m in after ensures |after[m]| == ChunkLen(m, Max(oldLen, start + |data|), cs) {
      WrittenChunkLen(before, cs, oldLen, start, data, after, m);
    }
  }

  lemma WrittenChunkLen(before: ChunkMap, cs: nat, oldLen: nat, start: nat, data: seq<byte>, after: ChunkMap, m: nat)
    requires WellFormed(before, cs, oldLen)
    requires WrittenFrom(before, cs, oldLen, start, data, after)
    requires m in after
    ensures |after[m]| == ChunkLen(m, Max(oldLen, start + |data|), cs)
  {
    var newLen := Max(oldLen, start + |data|);
    var lo := FirstTouched(cs, oldLen, start);
    ChunkBelowCount(m, newLen, cs);
    if m < lo {
      IndexBelow(Min(start, oldLen), lo + 1, cs);
      EndsBefore(m, lo, cs);
      assert m * cs + cs <= oldLen;
      ChunkBelowCount(m, oldLen, cs);
      assert m in before;
    } else {
      assert Min(m * cs, newLen) == m * cs;
    }
  }

  lemma WrittenByte(before: ChunkMap, cs: nat, oldLen: nat, start: nat, data: seq<byte>, after: ChunkMap, i: nat)
    requires WellFormed(before, cs, oldLen) && WellFormed(after, cs, Max(oldLen, start + |data|))
    requires WrittenFrom(before, cs, oldLen, start, data, after)
    requires i < Max(oldLen, start + |data|)
    ensures ByteAt(after, cs, Max(oldLen, start + |data|), i) ==
      if start <= i < start + |data| then data[i - start]
      else if i < oldLen then ByteAt(before, cs, oldLen, i)
      else 0
  {
    var newLen := Max(oldLen, start + |data|);
    var lo := FirstTouched(cs, oldLen, start);
    var n, j := ChunkIndex(i, cs), ChunkOffset(i, cs);
    IndexBelow(Min(start, oldLen), lo + 1, cs);
    InChunk(i, newLen, cs);
    IndexBelow(i, lo, cs);
    if n < lo {
      InChunk(i, oldLen, cs);
    } else {
      ChunkBelowCount(n, newLen, cs);
      assert Min(n * cs, newLen) == n * cs;
      if i < oldLen {
        InChunk(i, oldLen, cs);
      } else if n in before {
        ChunkBelowCount(n, oldLen, cs);
        assert j >= |before[n]|;
      }
    }
  }

  /** The chunk-by-chunk write is correct: the chunk map it leaves is well
      formed for the new length `max(oldLen, start + |data|)`, and its
      contents are those of `Overwrite`. */
  lemma WrittenChunksCorrect(before: ChunkMap, cs: nat, oldLen: nat, start: nat, data: seq<byte>, after: ChunkMap)
    requires WellFormed(before, cs, oldLen)
    requires WrittenFrom(before, cs, oldLen, start, data, after)
    ensures WellFormed(after, cs, Max(oldLen, start + |data|))
    ensures FileBytes(after, cs, Max(oldLen, start + |data|)) ==
      Overwrite(FileBytes(before, cs, oldLen), start, data)
  {
    var newLen := Max(oldLen, start + |data|);
    WrittenWellFormed(before, cs, oldLen, start, data, after);
    AssembleIsFlatten(before, cs, oldLen);
    var s := Assemble(before, cs, oldLen);
    OverwriteAt(s, start, data);
    var w := Overwrite(s, start, data);
    var a := Assemble(after, cs, newLen);
    forall i | 0 <= i < newLen ensures a[i] == w[i] {
      WrittenByte(before, cs, oldLen, start, data, after, i);
    }
    AssembleIsFlatten(after, cs, newLen);
  }

  /** One past the last chunk a write of `[start, end)` into a file of
      `oldLen` bytes changes: none for an empty write inside the file,
      otherwise every chunk up to the one holding byte `end - 1`. */
  function TouchEnd(cs: nat, oldLen: nat, start: nat, end: nat): (hi: nat)
    requires cs > 0
    ensures FirstTouched(cs, oldLen, start) <= hi
  {
    if end <= Min(start, oldLen) then FirstTouched(cs, oldLen, start)
    else
      IndexMono(Min(start, oldLen), end - 1, cs);
      NumChunks(end, cs)
  }

  /** A chunk from `TouchEnd` on that the file still has after the write
      lies wholly after the written range: it existed before and keeps its
      data. */
  lemma UntouchedChunk(before: ChunkMap, cs: nat, oldLen: nat, start: nat, data: seq<byte>, m: nat)
    requires WellFormed(before, cs, oldLen)
    requires TouchEnd(cs, oldLen, start, start + |data|) <= m < NumChunks(Max(oldLen, start + |data|), cs)
    ensures m in before
    ensures WrittenChunk(before, cs, Max(oldLen, start + |data|), start, data, m) == before[m]
  {
    var end := start + |data|;
    ChunkBelowCount(m, Max(oldLen, end), cs);
    if end <= Min(start, oldLen) {
      assert |data| == 0;
    } else {
      ChunkBelowCount(m, end, cs);
    }
    ChunkBelowCount(m, oldLen, cs);
    assert Min(m * cs + cs, Max(oldLen, end)) == m * cs + ChunkLen(m, oldLen, cs);
  }

  /** Whether a write of `[start, end)` changes chunk `m` of a file of
      `oldLen` bytes only in part, so that the chunk's current data must be
      fetched before merging: the chunk exists and the write does not cover
      all of its current bytes. */
  predicate NeedsFetch(cs: nat, oldLen: nat, start: nat, end: nat, m: nat)
    requires cs > 0
  {
    m < NumChunks(oldLen, cs) && !(start <= m * cs && m * cs + ChunkLen(m, oldLen, cs) <= end)
  }

  /** How many of the chunks `lo .. hi - 1` need a fetch before merging. */
  function FetchCount(cs: nat, oldLen: nat, start: nat, end: nat, lo: nat, hi: nat): nat
    requires cs > 0
    decreases hi
  {
    if hi <= lo then 0
    else FetchCount(cs, oldLen, start, end, lo, hi - 1) + if NeedsFetch(cs, oldLen, start, end, hi - 1) then 1 else 0
  }

  /** The state of the chunk-by-chunk write after chunks `FirstTouched ..
      m - 1` are written: those hold `WrittenChunk`, every other chunk is as
      before. */
  ghost predicate WrittenUpTo(before: ChunkMap, cs: nat, oldLen: nat, start: nat, data: seq<byte>, after: ChunkMap, m: nat)
    requires cs > 0
  {
    var lo := FirstTouched(cs, oldLen, start);
    && lo <= m <= TouchEnd(cs, oldLen, start, start + |data|)
    && (forall j: nat :: j in after <==> j in before || lo <= j < m)
    && (forall j: nat :: j in before && !(lo <= j < m) ==> j in after && after[j] == before[j])
    && (forall j: nat :: lo <= j < m ==> j in after && after[j] == WrittenChunk(before, cs, Max(oldLen, start + |data|), start, data, j))
  }

  lemma WrittenUpToStart(before: ChunkMap, cs: nat, oldLen: nat, start: nat, data: seq<byte>)
    requires cs > 0
    ensures WrittenUpTo(before, cs, oldLen, start, data, before, FirstTouched(cs, oldLen, start))
  {
  }

  /** A chunk about to be written still holds its data from before the
      write, and only a chunk the file had can need a fetch. */
  lemma NextChunkUnwritten(before: ChunkMap, cs: nat, oldLen: nat, start: nat, data: seq<byte>, after: ChunkMap, m: nat)
    requires WellFormed(before, cs, oldLen) && WrittenUpTo(before, cs, oldLen, start, data, after, m)
    requires NeedsFetch(cs, oldLen, start, start + |data|, m)
    ensures m in before && m in after && after[m] == before[m]
  {
  }

  /** Merging the write into the fetched data when the chunk needs a fetch,
      and into nothing otherwise, gives the chunk `WrittenChunk` describes. */
  lemma MergeFetched(before: ChunkMap, cs: nat, oldLen: nat, start: nat, data: seq<byte>, m: nat, existing: seq<byte>)
    requires WellFormed(before, cs, oldLen)
    requires NeedsFetch(cs, oldLen, start, start + |data|, m) ==> m in before && existing == before[m]
    requires !NeedsFetch(cs, oldLen, start, start + |data|, m) ==> existing == []
    ensures MergeInto(existing, cs, Max(oldLen, start + |data|), start, data, m)
         == WrittenChunk(before, cs, Max(oldLen, start + |data|), start, data, m)
  {
    var newLen := Max(oldLen, start + |data|);
    var cStart, cEnd := Min(m * cs, newLen), Min(m * cs + cs, newLen);
    if m in before && !NeedsFetch(cs, oldLen, start, start + |data|, m) {
      ChunkBelowCount(m, oldLen, cs);
      assert cEnd <= start + |data|;
      FullOverwriteNeedsNoFetch(before[m], cStart, cEnd, start, data);
      FullOverwriteNeedsNoFetch([], cStart, cEnd, start, data);
    }
  }

  /** Writing chunk `m` extends `WrittenUpTo` by one chunk. */
  lemma WriteStep(before: ChunkMap, cs: nat, oldLen: nat, start: nat, data: seq<byte>, after: ChunkMap, m: nat, chunk: seq<byte>)
    requires cs > 0 && WrittenUpTo(before, cs, oldLen, start, data, after, m)
    requires m < TouchEnd(cs, oldLen, start, start + |data|)
    requires chunk == WrittenChunk(before, cs, Max(oldLen, start + |data|), start, data, m)
    ensures WrittenUpTo(before, cs, oldLen, start, data, after[m := chunk], m + 1)
  {
  }

  /** After a write of `[start, end)` the file has the chunks it had and the
      touched ones, and these are exactly the chunks its new length needs. */
  lemma TouchedDomain(cs: nat, oldLen: nat, start: nat, end: nat, j: nat)
    requires cs > 0 && start <= end
    ensures (j < NumChunks(oldLen, cs) || FirstTouched(cs, oldLen, start) <= j < TouchEnd(cs, oldLen, start, end))
        <==> j < NumChunks(Max(oldLen, end), cs)
  {
    var newLen := Max(oldLen, end);
    var lo, hi := FirstTouched(cs, oldLen, start), TouchEnd(cs, oldLen, start, end);
    ChunkBelowCount(j, oldLen, cs);
    ChunkBelowCount(j, newLen, cs);
    if lo <= j < hi {
      assert hi == NumChunks(end, cs);
      ChunkBelowCount(j, end, cs);
    }
    if oldLen <= j * cs < newLen {
      assert newLen == end && hi == NumChunks(end, cs);
      ChunkBelowCount(j, end, cs);
      IndexBelow(Min(start, oldLen), j + 1, cs);
      assert (j + 1) * cs == j * cs + cs;
    }
  }

  /** When every chunk up to `TouchEnd` is written, the chunk map is the one
      `WrittenFrom` describes. */
  lemma WrittenUpToDone(before: ChunkMap, cs: nat, oldLen: nat, start: nat, data: seq<byte>, after: ChunkMap)
    requires WellFormed(before, cs, oldLen)
    requires WrittenUpTo(before, cs, oldLen, start, data, after, TouchEnd(cs, oldLen, start, start + |data|))
    ensures WrittenFrom(before, cs, oldLen, start, data, after)
  {
    var newLen := Max(oldLen, start + |data|);
    var lo, hi := FirstTouched(cs, oldLen, start), TouchEnd(cs, oldLen, start, start + |data|);
    forall j: nat ensures j in after <==> j < NumChunks(newLen, cs) {
      TouchedDomain(cs, oldLen, start, start + |data|, j);
    }
    forall j: nat | lo <= j < NumChunks(newLen, cs) ensures j in after && after[j] == WrittenChunk(before, cs, newLen, start, data, j) {
      if j >= hi {
        UntouchedChunk(before, cs, oldLen, start, data, j);
      }
    }
  }
  /** Once every touched chunk is written, the chunk map is well formed for
      the new length and holds the old contents overwritten by `data`. */
  lemma TouchedAll(before: ChunkMap, cs: nat, oldLen: nat, start: nat, data: seq<byte>, after: ChunkMap)
    requires WellFormed(before, cs, oldLen)
    requires WrittenUpTo(before, cs, oldLen, start, data, after, TouchEnd(cs, oldLen, start, start + |data|))
    ensures WellFormed(after, cs, Max(oldLen, start + |data|))
    ensures FileBytes(after, cs, Max(oldLen, start + |data|)) == Overwrite(FileBytes(before, cs, oldLen), start, data)
  {
    WrittenUpToDone(before, cs, oldLen, start, data, after);
    WrittenChunksCorrect(before, cs, oldLen, start, data, after);
  }

  /** Only the first and the last chunk a write changes can need a fetch:
      the chunks between them are covered completely. */
  lemma {:induction false} FetchAtMostTwo(cs: nat, oldLen: nat, start: nat, data: seq<byte>)
    requires cs > 0
    ensures FetchCount(cs, oldLen, start, start + |data|, FirstTouched(cs, oldLen, start), TouchEnd(cs, oldLen, start, start + |data|)) <= 2
  {
    var end := start + |data|;
    var lo, hi := FirstTouched(cs, oldLen, start), TouchEnd(cs, oldLen, start, end);
    if hi > lo + 2 {
      MiddleNeedNoFetch(cs, oldLen, start, end, lo, hi - 1);
      assert FetchCount(cs, oldLen, start, end, lo, hi) <= FetchCount(cs, oldLen, start, end, lo, hi - 1) + 1;
    } else if hi > lo {
      assert FetchCount(cs, oldLen, start, end, lo, lo) == 0;
      assert FetchCount(cs, oldLen, start, end, lo, lo + 1) <= 1;
    }
  }

  /** No chunk strictly between the first touched one and chunk `k`, which
      is below the last touched one, needs a fetch. */
  lemma {:induction false} MiddleNeedNoFetch(cs: nat, oldLen: nat, start: nat, end: nat, lo: nat, k: nat)
    requires cs > 0 && lo == FirstTouched(cs, oldLen, start) && lo < k < TouchEnd(cs, oldLen, start, end)
    ensures FetchCount(cs, oldLen, start, end, lo, k) <= 1
    decreases k
  {
    if k > lo + 1 {
      MiddleChunkNoFetch(cs, oldLen, start, end, lo, k - 1);
      MiddleNeedNoFetch(cs, oldLen, start, end, lo, k - 1);
    }
  }

  /** A chunk after the first touched one and before the last is either
      past the old end of the file or covered by the write entirely. */
  lemma MiddleChunkNoFetch(cs: nat, oldLen: nat, start: nat, end: nat, lo: nat, m: nat)
    requires cs > 0 && lo == FirstTouched(cs, oldLen, start) && lo < m && m + 1 < TouchEnd(cs, oldLen, start, end)
    ensures !NeedsFetch(cs, oldLen, start, end, m)
  {
    assert TouchEnd(cs, oldLen, start, end) == NumChunks(end, cs);
    IndexBelow(Min(start, oldLen), m, cs);
    assert Min(start, oldLen) < m * cs;
    ChunkBelowCount(m + 1, end, cs);
    assert (m + 1) * cs == m * cs + cs;
    if start <= oldLen {
      if m < NumChunks(oldLen, cs) {
        assert m * cs + ChunkLen(m, oldLen, cs) <= m * cs + cs < end;
      }
    } else {
      ChunkBelowCount(m, oldLen, cs);
    }
  }

  /** A chunk that a write starting on a chunk boundary inside the file,
      and ending on a chunk boundary or at or past the end of the file,
      changes is replaced outright. */
  lemma AlignedChunkNoFetch(cs: nat, oldLen: nat, start: nat, end: nat, m: nat)
    requires cs > 0 && start <= oldLen && ChunkOffset(start, cs) == 0
    requires ChunkOffset(end, cs) == 0 || end >= oldLen
    requires FirstTouched(cs, oldLen, start) <= m && m * cs < end
    ensures !NeedsFetch(cs, oldLen, start, end, m)
  {
    var lo := FirstTouched(cs, oldLen, start);
    MulMono(lo, m, cs);
    if m < NumChunks(oldLen, cs) && end < oldLen {
      var q := ChunkIndex(end, cs);
      if q <= m {
        MulMono(q, m, cs);
      }
      MulMono(m + 1, q, cs);
    }
  }

  /** A write that starts on a chunk boundary inside the file and ends on a
      chunk boundary or at or past the end of the file fetches nothing: every
      chunk it changes is replaced outright. */
  lemma {:induction false} AlignedWriteNeedsNoFetch(cs: nat, oldLen: nat, start: nat, end: nat, k: nat)
    requires cs > 0 && start <= oldLen && start <= end && ChunkOffset(start, cs) == 0
    requires ChunkOffset(end, cs) == 0 || end >= oldLen
    requires FirstTouched(cs, oldLen, start) <= k <= TouchEnd(cs, oldLen, start, end)
    ensures FetchCount(cs, oldLen, start, end, FirstTouched(cs, oldLen, start), k) == 0
    decreases k
  {
    if k > FirstTouched(cs, oldLen, start) {
      ChunkBelowCount(k - 1, end, cs);
      AlignedChunkNoFetch(cs, oldLen, start, end, k - 1);
      AlignedWriteNeedsNoFetch(cs, oldLen, start, end, k - 1);
    }
  }
}
