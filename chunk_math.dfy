/** Index arithmetic of a GridFS file: a byte position maps to a chunk
    sequence number `n` and an offset inside that chunk, and a file of
    `len` bytes occupies `NumChunks(len, cs)` chunks of `cs` bytes each
    (the last one possibly shorter). */
module ChunkMath {

  function Min(a: int, b: int): int { if a <= b then a else b }
  function Max(a: int, b: int): int { if a >= b then a else b }

  /** Sequence number of the chunk holding byte `pos`. */
  function ChunkIndex(pos: nat, cs: nat): (n: nat)
    requires cs > 0
    ensures n * cs <= pos < n * cs + cs
  {
    DivBounds(pos, cs);
    pos / cs
  }

  /** Offset of byte `pos` inside its chunk. */
  function ChunkOffset(pos: nat, cs: nat): (off: nat)
    requires cs > 0
    ensures off < cs
    ensures ChunkIndex(pos, cs) * cs + off == pos
  {
    pos % cs
  }

  /** One past the last byte of the chunk holding `pos`, in a file of `len`
      bytes. */
  function ChunkEnd(pos: nat, len: nat, cs: nat): (e: nat)
    requires cs > 0
    ensures pos < len ==> pos < e
    ensures e <= len
  {
    Min(ChunkIndex(pos, cs) * cs + cs, len)
  }

  /** Number of chunks a file of `len` bytes needs (the ceiling of len / cs). */
  function NumChunks(len: nat, cs: nat): (k: nat)
    requires cs > 0
    ensures k * cs >= len
    ensures len > 0 ==> (k - 1) * cs < len
    ensures len == 0 <==> k == 0
  {
    if len == 0 then 0 else ChunkIndex(len - 1, cs) + 1
  }

  /** Byte length of chunk `n` in a file of `len` bytes: every chunk but the
      last is full. */
  function ChunkLen(n: nat, len: nat, cs: nat): (l: nat)
    requires cs > 0 && n < NumChunks(len, cs)
    ensures 0 < l <= cs
    ensures n * cs + l <= len
    ensures n + 1 < NumChunks(len, cs) ==> l == cs
    ensures n + 1 == NumChunks(len, cs) ==> n * cs + l == len
  {
    ChunkBelowCount(n, len, cs);
    if n * cs + cs <= len then cs else len - n * cs
  }

  lemma DivBounds(pos: nat, cs: nat)
    requires cs > 0
    ensures (pos / cs) * cs <= pos < (pos / cs) * cs + cs
  {
  }

  /** Chunk `n` starts inside a file of `len` bytes exactly when `n` is below
      the chunk count; and only the last chunk can be short. */
  lemma ChunkBelowCount(n: nat, len: nat, cs: nat)
    requires cs > 0
    ensures n < NumChunks(len, cs) <==> n * cs < len
    ensures n + 1 < NumChunks(len, cs) ==> n * cs + cs < len
  {
    var k := NumChunks(len, cs);
    if n < k {
      MulMono(n, k - 1, cs);
    } else {
      MulMono(k, n, cs);
    }
    if n + 1 < k {
      MulMono(n + 1, k - 1, cs);
    }
  }

  /** The first `k` chunks of a file, the last of them being chunk `k - 1`,
      span `Min(k * cs, len)` bytes: `k - 1` full chunks and then chunk
      `k - 1`'s own length. */
  lemma ChunkSpan(k: nat, len: nat, cs: nat)
    requires cs > 0 && 0 < k <= NumChunks(len, cs)
    ensures Min((k - 1) * cs, len) == (k - 1) * cs
    ensures Min(k * cs, len) == (k - 1) * cs + ChunkLen(k - 1, len, cs)
  {
    ChunkBelowCount(k - 1, len, cs);
    assert k * cs == (k - 1) * cs + cs;
  }

  /** A chunk wholly before chunk `k` ends at or before chunk `k` starts. */
  lemma EndsBefore(m: nat, k: nat, cs: nat)
    requires m < k
    ensures m * cs + cs <= k * cs
  {
    MulMono(m + 1, k, cs);
  }

  lemma MulMono(a: nat, b: nat, cs: nat)
    requires a <= b
    ensures a * cs <= b * cs
  {
  }

  /** The position `n * cs + j`, for `j < cs`, lies in chunk `n` at offset `j`. */
  lemma {:induction false} IndexOf(n: nat, j: nat, cs: nat)
    requires j < cs
    ensures ChunkIndex(n * cs + j, cs) == n
    ensures ChunkOffset(n * cs + j, cs) == j
  {
    var p := n * cs + j;
    var q := ChunkIndex(p, cs);
    if q < n {
      MulMono(q + 1, n, cs);
    } else if q > n {
      MulMono(n + 1, q, cs);
    }
  }

  /** Positions below chunk `k`'s start are exactly those whose chunk index is
      below `k`. */
  lemma {:induction false} IndexBelow(pos: nat, k: nat, cs: nat)
    requires cs > 0
    ensures ChunkIndex(pos, cs) < k <==> pos < k * cs
  {
    var q := ChunkIndex(pos, cs);
    if q < k {
      MulMono(q + 1, k, cs);
    } else {
      MulMono(k, q, cs);
    }
  }

  /** Every byte of a file lies inside an existing chunk, within that chunk's
      length. */
  lemma {:induction false} InChunk(pos: nat, len: nat, cs: nat)
    requires cs > 0 && pos < len
    ensures ChunkIndex(pos, cs) < NumChunks(len, cs)
    ensures ChunkOffset(pos, cs) < ChunkLen(ChunkIndex(pos, cs), len, cs)
  {
    var q := ChunkIndex(pos, cs);
    ChunkBelowCount(q, len, cs);
  }

  /** Two positions in the same chunk `n`, `k` bytes apart, differ by `k` in
      their offsets. */
  lemma {:induction false} SameChunk(pos: nat, k: nat, cs: nat)
    requires cs > 0 && ChunkOffset(pos, cs) + k < cs
    ensures ChunkIndex(pos + k, cs) == ChunkIndex(pos, cs)
    ensures ChunkOffset(pos + k, cs) == ChunkOffset(pos, cs) + k
  {
    IndexOf(ChunkIndex(pos, cs), ChunkOffset(pos, cs) + k, cs);
  }

  /** A later position never lies in an earlier chunk. */
  lemma {:induction false} IndexMono(p: nat, q: nat, cs: nat)
    requires cs > 0 && p <= q
    ensures ChunkIndex(p, cs) <= ChunkIndex(q, cs)
  {
    IndexBelow(p, ChunkIndex(q, cs) + 1, cs);
  }

  /** The next byte lies in the same chunk or in the next one. */
  lemma {:induction false} IndexStep(p: nat, cs: nat)
    requires cs > 0
    ensures ChunkIndex(p + 1, cs) <= ChunkIndex(p, cs) + 1
  {
    var k := ChunkIndex(p, cs);
    assert (k + 2) * cs == k * cs + cs + cs;
    IndexBelow(p + 1, k + 2, cs);
  }

  /** The end of the chunk holding `pos` is the start of the next chunk. */
  lemma NextChunkStart(pos: nat, cs: nat)
    requires cs > 0
    ensures ChunkIndex(ChunkIndex(pos, cs) * cs + cs, cs) == ChunkIndex(pos, cs) + 1
    ensures ChunkOffset(ChunkIndex(pos, cs) * cs + cs, cs) == 0
  {
    var n := ChunkIndex(pos, cs);
    assert n * cs + cs == (n + 1) * cs + 0;
    IndexOf(n + 1, 0, cs);
  }

  /** A chunk that ends before the end of the file ends exactly at the start
      of the next chunk. */
  lemma EndIsBoundary(pos: nat, len: nat, cs: nat)
    requires cs > 0 && ChunkEnd(pos, len, cs) < len
    ensures ChunkOffset(ChunkEnd(pos, len, cs), cs) == 0
  {
    NextChunkStart(pos, cs);
  }
}
