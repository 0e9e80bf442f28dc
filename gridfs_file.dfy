/** An open GridFS file handle: the file's metadata (`chunkSize`, `length`),
    the current position, the file's chunks in the chunks collection, and
    its read-cursor cache. `Seek` and `Tell` act on the position; `ReadV`
    scatters the file's bytes from the position into a list of buffers;
    `WriteV` gathers a list of buffers and writes them at the position. */
module GridFSFile {
  import opened ChunkMath
  import opened Bytes
  import opened Chunks
  import opened CursorCache
  import opened Optional
  import opened Iovec

  /** The origin of a seek, as for POSIX `lseek`. */
  datatype Whence = SeekSet | SeekCur | SeekEnd

  /** The absolute position a seek asks for; it may be negative. */
  function SeekTarget(pos: nat, length: nat, offset: int, whence: Whence): int
  {
    match whence
    case SeekSet => offset
    case SeekCur => pos + offset
    case SeekEnd => length + offset
  }

  /** Seeking by zero from any origin in an empty file lands at 0. */
  lemma SeekInEmptyFile(whence: Whence)
    ensures SeekTarget(0, 0, 0, whence) == 0
  {
  }

  /** The current contents of an iovec list's buffers. */
  function Bufs(iov: seq<array<byte>>): (b: seq<seq<byte>>)
    reads iov
    ensures |b| == |iov|
    ensures forall k :: 0 <= k < |iov| ==> b[k] == iov[k][..]
  {
    if iov == [] then [] else [iov[0][..]] + Bufs(iov[1..])
  }

  /** After only buffer `i` of `iov` changed, the buffers' contents are the
      old ones `b0` with entry `i` replaced. */
  lemma BufsUpdate(iov: seq<array<byte>>, i: nat, b0: seq<seq<byte>>)
    requires i < |iov| == |b0|
    requires forall k :: 0 <= k < |iov| && k != i ==> iov[k][..] == b0[k]
    ensures Bufs(iov) == b0[i := iov[i][..]]
  {
  }

  /** One buffer's step of a scatter-read, on values: buffer `i` of `b0`,
      the scatter of the bytes `[p0, before)`, receives the bytes `[before,
      now)` in front of the rest of its old contents, and the chunks `l`
      needed for them are fetched after `loaded`. The result is the scatter
      of `[p0, now)`, read with `loaded + l`. */
  lemma ReadStep(orig: seq<seq<byte>>, c: seq<byte>, p0: nat, before: nat, got: nat, now: nat, i: nat,
                 b0: seq<seq<byte>>, b1: seq<seq<byte>>, cs: nat,
                 c0: Cache, id: FileId, count: nat, batchSize: nat, loaded: seq<nat>, l: seq<nat>, mid: Cache, after: Cache)
    requires |orig| == |b0| && i < |orig|
    requires p0 <= before && now == before + got <= |c| && before - p0 == Total(orig[..i])
    requires b0 == Scatter(orig, c[p0 .. before]) && got <= |b0[i]|
    requires b1 == b0[i := c[before .. now] + b0[i][got..]]
    requires LoadedFor(loaded, p0, before, cs) && LoadedFor(l, before, now, cs)
    requires mid == FetchAll(c0, id, count, batchSize, loaded) && after == FetchAll(mid, id, count, batchSize, l)
    ensures b1 == Scatter(orig, c[p0 .. now])
    ensures LoadedFor(loaded + l, p0, now, cs) && after == FetchAll(c0, id, count, batchSize, loaded + l)
    ensures b0[i] == orig[i] && Total(orig[..i + 1]) == before - p0 + |orig[i]|
  {
    FetchAllAppend(c0, id, count, batchSize, loaded, l);
    LoadedConcat(loaded, l, p0, before, now, cs);
    ScatterFill(orig, c, p0, before, now, i, b1);
  }

  /** The bytes of an iovec list, buffer after buffer. */
  function Gathered(iov: seq<array<byte>>): (d: seq<byte>)
    reads iov
  {
    Concat(Bufs(iov))
  }

  /** `loaded` lists, in order, the chunks a read of bytes `[p0, p)` needed:
      none for an empty read, otherwise the chunk of byte `p0` first, the
      chunk of byte `p - 1` last, and in between each chunk the same as the
      one before or the next. */
  ghost predicate LoadedFor(loaded: seq<nat>, p0: nat, p: nat, cs: nat)
  {
    && cs > 0
    && p0 <= p
    && (loaded == [] <==> p == p0)
    && Sequential(loaded)
    && (p > p0 ==> loaded[0] == ChunkIndex(p0, cs) && loaded[|loaded| - 1] == ChunkIndex(p - 1, cs))
  }

  /** The chunks a read needed lie between the chunk of its first byte and
      the chunk of its last. */
  lemma {:induction false} LoadedRange(loaded: seq<nat>, p0: nat, p: nat, cs: nat)
    requires LoadedFor(loaded, p0, p, cs)
    ensures forall k :: 0 <= k < |loaded| ==> ChunkIndex(p0, cs) <= loaded[k] <= ChunkIndex(p - 1, cs)
  {
    if p > p0 {
      assert forall k :: 0 <= k < |loaded| ==> loaded[0] <= loaded[k] <= loaded[|loaded| - 1];
    }
  }

  /** Reading one more page `[p, q)` inside chunk `ChunkIndex(p)` adds that
      chunk to the list. */
  lemma LoadedStep(loaded: seq<nat>, p0: nat, p: nat, q: nat, cs: nat)
    requires LoadedFor(loaded, p0, p, cs)
    requires p < q <= ChunkIndex(p, cs) * cs + cs
    ensures LoadedFor(loaded + [ChunkIndex(p, cs)], p0, q, cs)
  {
    SameChunk(p, q - 1 - p, cs);
    if p > p0 {
      IndexMono(p - 1, p, cs);
      IndexStep(p - 1, cs);
    }
  }

  /** Two consecutive reads need the chunks of the first, then those of the
      second. */
  lemma LoadedConcat(l1: seq<nat>, l2: seq<nat>, p0: nat, p1: nat, p2: nat, cs: nat)
    requires LoadedFor(l1, p0, p1, cs) && LoadedFor(l2, p1, p2, cs)
    ensures LoadedFor(l1 + l2, p0, p2, cs)
  {
    if p1 > p0 && p2 > p1 {
      IndexMono(p1 - 1, p1, cs);
      IndexStep(p1 - 1, cs);
      assert (l1 + l2)[|l1|] == l2[0];
    } else if p1 == p0 {
      assert l1 + l2 == l2;
    } else {
      assert l1 + l2 == l1;
    }
  }

  /** A read that stays inside a file of `len` bytes needs only existing
      chunks. */
  lemma LoadedBelow(loaded: seq<nat>, p0: nat, p: nat, cs: nat, len: nat)
    requires LoadedFor(loaded, p0, p, cs) && p <= len
    ensures forall k :: 0 <= k < |loaded| ==> loaded[k] < NumChunks(len, cs)
  {
    LoadedRange(loaded, p0, p, cs);
    if p > p0 {
      InChunk(p - 1, len, cs);
    }
  }

  /** A read that stays inside one existing chunk changes the cache as a
      single `Fetch` of that chunk does, however many pages it copied. */
  lemma ReadInOneChunk(c: Cache, id: FileId, count: nat, batchSize: nat, loaded: seq<nat>, p0: nat, p: nat, cs: nat)
    requires LoadedFor(loaded, p0, p, cs) && p0 < p && ChunkIndex(p0, cs) == ChunkIndex(p - 1, cs)
    requires ChunkIndex(p0, cs) < count && batchSize > 0 && Consistent(c, count)
    ensures FetchAll(c, id, count, batchSize, loaded) == Fetch(c, id, count, batchSize, ChunkIndex(p0, cs))
  {
    LoadedRange(loaded, p0, p, cs);
    FetchAllSame(c, id, count, batchSize, loaded, ChunkIndex(p0, cs));
  }

  /** A read inside a file of `len` bytes whose first chunk the live cursor
      can serve, from its batch or by continuing it, issues no query, kills
      no cursor and keeps the cursor's id, however many chunks it spans. */
  lemma ForwardReadKeepsCursor(c: Cache, id: FileId, batchSize: nat, loaded: seq<nat>, p0: nat, p: nat, cs: nat, len: nat)
    requires LoadedFor(loaded, p0, p, cs) && p0 < p <= len
    requires batchSize > 0 && Consistent(c, NumChunks(len, cs))
    requires Decide(c.state, ChunkIndex(p0, cs)) != Reissue
    ensures FetchAll(c, id, NumChunks(len, cs), batchSize, loaded).queries == c.queries
    ensures FetchAll(c, id, NumChunks(len, cs), batchSize, loaded).killed == c.killed
    ensures FetchAll(c, id, NumChunks(len, cs), batchSize, loaded).state.cursor.id == c.state.cursor.id
  {
    LoadedBelow(loaded, p0, p, cs, len);
    SequentialKeepsCursor(c, id, NumChunks(len, cs), batchSize, loaded);
  }

  /** A read inside a file of `len` bytes whose first chunk the cursor
      cannot serve issues exactly one query, the range query from that
      chunk, kills the old cursor and ends on the new cursor, however many
      chunks it spans. */
  lemma ReissuedReadQueriesOnce(c: Cache, id: FileId, batchSize: nat, loaded: seq<nat>, p0: nat, p: nat, cs: nat, len: nat)
    requires LoadedFor(loaded, p0, p, cs) && p0 < p <= len
    requires batchSize > 0 && Consistent(c, NumChunks(len, cs))
    requires Decide(c.state, ChunkIndex(p0, cs)) == Reissue
    ensures FetchAll(c, id, NumChunks(len, cs), batchSize, loaded).queries == c.queries + [RangeQuery(id, ChunkIndex(p0, cs))]
    ensures FetchAll(c, id, NumChunks(len, cs), batchSize, loaded).state.cursor.id == c.nextId
    ensures c.state.Live? ==> FetchAll(c, id, NumChunks(len, cs), batchSize, loaded).killed == c.killed + [c.state.cursor.id]
  {
    var count := NumChunks(len, cs);
    var n0, rest := loaded[0], loaded[1..];
    LoadedBelow(loaded, p0, p, cs, len);
    assert loaded == [n0] + rest;
    FetchAllSnoc(c, id, count, batchSize, [], n0);
    FetchAllAppend(c, id, count, batchSize, [n0], rest);
    var d := Fetch(c, id, count, batchSize, n0);
    ReissueQueries(c, id, count, batchSize, n0);
    FetchLoads(c, id, count, batchSize, n0);
    if rest == [] {
      assert FetchAll(d, id, count, batchSize, rest) == d;
    } else {
      assert rest[0] == loaded[1] && n0 <= rest[0] <= n0 + 1;
      assert Decide(d.state, rest[0]) != Reissue;
      SequentialTail(loaded);
      forall k | 0 <= k < |rest| ensures rest[k] < count {
        assert rest[k] == loaded[k + 1];
      }
      SequentialKeepsCursor(d, id, count, batchSize, rest);
    }
  }

  /** Filling buffer contents `buf`, which were `orig`, with the bytes of
      `c` from `p0` up to position `p`: those bytes are at the front, the
      rest of `orig` after them, and the cache `cache`, which was `c0`, has
      served the chunks listed in `loaded`. */
  ghost predicate FillState(buf: seq<byte>, orig: seq<byte>, c: seq<byte>, p0: nat, p: nat, cs: nat,
                            cache: Cache, c0: Cache, id: FileId, count: nat, batchSize: nat, loaded: seq<nat>)
  {
    && p0 <= p <= |c| && p - p0 <= |buf| == |orig|
    && buf == c[p0 .. p] + orig[p - p0..]
    && LoadedFor(loaded, p0, p, cs)
    && cache == FetchAll(c0, id, count, batchSize, loaded)
  }

  /** One page read keeps `FillState`: the page `c[before .. p]`, which runs
      to the end of the chunk holding `before` or to the end of the buffer,
      is copied in after the bytes already there and its chunk is fetched. A
      page that ends inside the file and short of the buffer's end ends at a
      chunk boundary. */
  lemma FillStep(buf: seq<byte>, orig: seq<byte>, c: seq<byte>, p0: nat, before: nat, cs: nat,
                 cache: Cache, c0: Cache, id: FileId, count: nat, batchSize: nat, loaded: seq<nat>,
                 now: seq<byte>, r: nat, p: nat, cache': Cache)
    requires FillState(buf, orig, c, p0, before, cs, cache, c0, id, count, batchSize, loaded)
    requires cs > 0 && before < |c| && before - p0 < |buf|
    requires r == Min(|buf| - (before - p0), ChunkEnd(before, |c|, cs) - before) && p == before + r
    requires now == buf[..before - p0] + c[before .. p] + buf[before - p0 + r..]
    requires cache' == Fetch(cache, id, count, batchSize, ChunkIndex(before, cs))
    ensures FillState(now, orig, c, p0, p, cs, cache', c0, id, count, batchSize, loaded + [ChunkIndex(before, cs)])
    ensures p - p0 < |now| && p < |c| ==> ChunkOffset(p, cs) == 0
  {
    FillMore(c, orig, buf, now, p0, before - p0, r, before, p);
    FetchAllSnoc(c0, id, count, batchSize, loaded, ChunkIndex(before, cs));
    LoadedStep(loaded, p0, before, p, cs);
    if p - p0 < |now| && p < |c| {
      assert p == ChunkEnd(before, |c|, cs);
      EndIsBoundary(before, |c|, cs);
    }
  }

  /** Copy `src` into `dst` from index `at` on, in place. */
  method CopyInto(dst: array<byte>, at: nat, src: seq<byte>)
    requires at + |src| <= dst.Length
    modifies dst
    ensures dst[..] == old(dst[..])[..at] + src + old(dst[..])[at + |src|..]
  {
    ghost var d0 := dst[..];
    var k := 0;
    while k < |src|
      invariant 0 <= k <= |src|
      invariant forall j :: 0 <= j < dst.Length ==> dst[j] == if at <= j < at + k then src[j - at] else d0[j]
    {
      dst[at + k] := src[k];
      k := k + 1;
    }
    ghost var e := d0[..at] + src + d0[at + |src|..];
    forall j | 0 <= j < dst.Length ensures dst[j] == e[j] {
      if j < at {
        assert e[j] == d0[j];
      } else if j < at + |src| {
        assert e[j] == src[j - at];
      } else {
        assert e[j] == d0[j];
      }
    }
    assert dst[..] == e;
  }

  /** Gathers an iovec list: its buffers' bytes, buffer after buffer. */
  method Gather(iov: seq<array<byte>>) returns (data: seq<byte>)
    ensures data == Gathered(iov)
    ensures |data| == Total(Bufs(iov))
  {
    ghost var bufs := Bufs(iov);
    data := [];
    var i := 0;
    while i < |iov|
      invariant i <= |iov|
      invariant data == Concat(bufs[..i])
    {
      ConcatSnoc(bufs, i);
      data := data + iov[i][..];
      i := i + 1;
    }
    assert bufs[..i] == bufs;
  }

  /** Buffers filled with the bytes a read spans inside the file hold what
      `ReadRange` returns for it. */
  lemma ScatterRead(now: seq<seq<byte>>, orig: seq<seq<byte>>, c: seq<byte>, p: nat, r: nat)
    requires p + r <= |c| && now == Scatter(orig, c[p .. p + r])
    ensures now == Scatter(orig, ReadRange(c, p, r))
  {
    ReadRangeInside(c, p, r);
  }

  /** The loop of `WriteChunks`: writes `data` at `start` into the chunks
      `before` of a file of `oldLen` bytes, chunks `FirstTouched ..
      TouchEnd - 1` in order, and counts the chunks it fetched first. */
  method WriteTouched(before: ChunkMap, data: seq<byte>, cs: nat, oldLen: nat, start: nat)
    returns (after: ChunkMap, fetches: nat)
    requires cs > 0 && WellFormed(before, cs, oldLen)
    ensures WellFormed(after, cs, Max(oldLen, start + |data|))
    ensures FileBytes(after, cs, Max(oldLen, start + |data|)) == Overwrite(FileBytes(before, cs, oldLen), start, data)
    ensures fetches == FetchCount(cs, oldLen, start, start + |data|,
      FirstTouched(cs, oldLen, start), TouchEnd(cs, oldLen, start, start + |data|))
  {
    after, fetches := before, 0;
    var m := FirstTouched(cs, oldLen, start);
    var hi := TouchEnd(cs, oldLen, start, start + |data|);
    WrittenUpToStart(before, cs, oldLen, start, data);
    while m < hi
      invariant m <= hi
      invariant WrittenUpTo(before, cs, oldLen, start, data, after, m)
      invariant fetches == FetchCount(cs, oldLen, start, start + |data|, FirstTouched(cs, oldLen, start), m)
      decreases hi - m
    {
      after, fetches := WriteChunk(after, data, m, before, cs, oldLen, start, fetches);
      m := m + 1;
    }
    assert m == hi;
    TouchedAll(before, cs, oldLen, start, data, after);
  }

  /** Writes chunk `m` of a write of `data` at `start` into the chunks
      `cur` of a file that had `oldLen` bytes and the chunks `before`:
      fetches the chunk first when the write covers it only in part,
      merges it and stores it; `count` counts the fetches so far. */
  method WriteChunk(cur: ChunkMap, data: seq<byte>, m: nat, ghost before: ChunkMap, cs: nat, oldLen: nat, start: nat, count: nat)
    returns (next: ChunkMap, count': nat)
    requires cs > 0 && WellFormed(before, cs, oldLen)
    requires WrittenUpTo(before, cs, oldLen, start, data, cur, m)
    requires m < TouchEnd(cs, oldLen, start, start + |data|)
    requires count == FetchCount(cs, oldLen, start, start + |data|, FirstTouched(cs, oldLen, start), m)
    ensures WrittenUpTo(before, cs, oldLen, start, data, next, m + 1)
    ensures count' == FetchCount(cs, oldLen, start, start + |data|, FirstTouched(cs, oldLen, start), m + 1)
  {
    var newLen := Max(oldLen, start + |data|);
    var existing: seq<byte> := [];
    count' := count;
    if NeedsFetch(cs, oldLen, start, start + |data|, m) {
      NextChunkUnwritten(before, cs, oldLen, start, data, cur, m);
      existing := cur[m];
      count' := count + 1;
    }
    MergeFetched(before, cs, oldLen, start, data, m, existing);
    var chunk := MergeInto(existing, cs, newLen, start, data, m);
    WriteStep(before, cs, oldLen, start, data, cur, m, chunk);
    next := cur[m := chunk];
  }

  class File {
    /** The file's `_id`, shared by its chunk records as `files_id`. */
    const id: FileId
    var filename: Option<string>
    const chunkSize: nat
    /** How many chunks the store puts in one cursor batch. */
    const batchSize: nat
    var length: nat
    var pos: nat
    /** This file's records in the chunks collection, by `n`. */
    var chunks: ChunkMap
    var cache: Cache
    /** Round trips made to fetch a partly overwritten chunk before merging. */
    var merges: nat

    ghost predicate Valid()
      reads this`chunks, this`length, this`cache
    {
      && chunkSize > 0
      && batchSize > 0
      && WellFormed(chunks, chunkSize, length)
      && Consistent(cache, NumChunks(length, chunkSize))
    }

    /** The file's contents: its chunks' data in order of `n`. */
    ghost function Contents(): (s: seq<byte>)
      reads this`chunks, this`length
      requires chunkSize > 0 && WellFormed(chunks, chunkSize, length)
      ensures |s| == length
    {
      FileBytes(chunks, chunkSize, length)
    }

    /** A new, empty file. A chunk size of 0 in the options selects the
        configured default. */
    constructor (id: FileId, filename: Option<string>, chunkSizeOpt: nat, defaultChunkSize: nat, batchSize: nat)
      requires defaultChunkSize > 0 && batchSize > 0
      ensures Valid()
      ensures this.id == id && this.filename == filename && this.batchSize == batchSize
      ensures chunkSize == if chunkSizeOpt == 0 then defaultChunkSize else chunkSizeOpt
      ensures length == 0 && pos == 0 && Contents() == [] && merges == 0
      ensures cache == Fresh
    {
      this.id := id;
      this.filename := filename;
      this.chunkSize := if chunkSizeOpt == 0 then defaultChunkSize else chunkSizeOpt;
      this.batchSize := batchSize;
      length := 0;
      pos := 0;
      chunks := map[];
      cache := Fresh;
      merges := 0;
      new;
      EmptyWellFormed(chunkSize);
    }

    /** A handle on a stored file of `length` bytes whose chunks are
        `chunks`, at position 0 and with no cursor. */
    constructor Opened(id: FileId, filename: Option<string>, chunkSize: nat, batchSize: nat, length: nat, chunks: ChunkMap)
      requires batchSize > 0 && WellFormed(chunks, chunkSize, length)
      ensures Valid()
      ensures this.id == id && this.filename == filename && this.chunkSize == chunkSize && this.batchSize == batchSize
      ensures this.length == length && this.chunks == chunks && pos == 0 && cache == Fresh && merges == 0
    {
      this.id := id;
      this.filename := filename;
      this.chunkSize := chunkSize;
      this.batchSize := batchSize;
      this.length := length;
      this.chunks := chunks;
      pos := 0;
      cache := Fresh;
      merges := 0;
    }

    method Tell() returns (p: nat)
      ensures p == pos
    {
      p := pos;
    }

    /** Move the position; a resulting negative position is refused and
        leaves the position as it was. */
    method Seek(offset: int, whence: Whence) returns (ok: bool)
      modifies this`pos
      ensures ok <==> SeekTarget(old(pos), length, offset, whence) >= 0
      ensures pos == if ok then SeekTarget(old(pos), length, offset, whence) else old(pos)
    {
      var target := SeekTarget(pos, length, offset, whence);
      ok := target >= 0;
      if ok {
        pos := target;
      }
    }

    /** Obtain chunk `n` through the cursor cache. */
    method LoadChunk(n: nat) returns (data: seq<byte>)
      requires Valid() && n < NumChunks(length, chunkSize)
      modifies this`cache
      ensures Valid()
      ensures cache == Fetch(old(cache), id, NumChunks(length, chunkSize), batchSize, n)
      ensures data == chunks[n]
    {
      FetchLoads(cache, id, NumChunks(length, chunkSize), batchSize, n);
      cache := Fetch(cache, id, NumChunks(length, chunkSize), batchSize, n);
      data := chunks[n];
    }

    /** Copy into `dst[at..]` the bytes of the current chunk from the
        position on, as many as fit, and advance the position past them. */
    method PageRead(dst: array<byte>, at: nat) returns (r: nat)
      requires Valid() && at <= dst.Length && pos < length
      modifies this`pos, this`cache, dst
      ensures Valid()
      ensures r == Min(dst.Length - at, ChunkEnd(old(pos), length, chunkSize) - old(pos))
      ensures at < dst.Length ==> r > 0
      ensures pos == old(pos) + r
      ensures ChunkIndex(old(pos), chunkSize) < NumChunks(length, chunkSize)
      ensures cache == Fetch(old(cache), id, NumChunks(length, chunkSize), batchSize, ChunkIndex(old(pos), chunkSize))
      ensures dst[..] == old(dst[..])[..at] + old(Contents())[old(pos) .. pos] + old(dst[..])[at + r..]
    {
      var n := ChunkIndex(pos, chunkSize);
      var off := ChunkOffset(pos, chunkSize);
      ghost var c, p0, d0 := Contents(), pos, dst[..];
      ghost var r0 := Min(dst.Length - at, ChunkEnd(pos, length, chunkSize) - pos);
      PageSlice(chunks, chunkSize, length, pos, r0);
      ghost var page := chunks[n][off .. off + r0];
      assert page == c[p0 .. p0 + r0];
      var data := LoadChunk(n);
      r := Min(dst.Length - at, |data| - off);
      assert r == r0;
      var want := data[off .. off + r];
      assert want == page;
      CopyInto(dst, at, want);
      pos := pos + r;
    }

    /** The state of filling buffer `a`, which held `orig`, from position
        `p0` of a file whose contents are `c` and whose cache was `c0`: the
        bytes read so far are at the front of `a`, and the cache has served
        the chunks listed in `loaded`. */
    ghost predicate Filling(a: array<byte>, orig: seq<byte>, c: seq<byte>, p0: nat, c0: Cache, loaded: seq<nat>)
      reads this, a
    {
      && Valid() && c == Contents()
      && FillState(a[..], orig, c, p0, pos, chunkSize, cache, c0, id, NumChunks(length, chunkSize), batchSize, loaded)
    }

    /** One page of filling a buffer: read the rest of the current chunk, or
        as much of it as still fits. A page that stops short of the buffer's
        end inside the file stops at a chunk boundary. */
    method FillPage(a: array<byte>, at: nat, ghost orig: seq<byte>, ghost c: seq<byte>, ghost p0: nat, ghost c0: Cache, ghost loaded: seq<nat>)
      returns (r: nat, ghost loaded': seq<nat>)
      requires Filling(a, orig, c, p0, c0, loaded) && pos < length && at == pos - p0 < a.Length
      modifies this`pos, this`cache, a
      ensures Filling(a, orig, c, p0, c0, loaded')
      ensures pos == old(pos) + r && r > 0
      ensures pos - p0 < a.Length && pos < length ==> ChunkOffset(pos, chunkSize) == 0
    {
      ghost var before := pos;
      ghost var prev := a[..];
      ghost var cachePrev := cache;
      r := PageRead(a, at);
      FillStep(prev, orig, c, p0, before, chunkSize, cachePrev, c0, id, NumChunks(length, chunkSize), batchSize, loaded,
               a[..], r, pos, cache);
      loaded' := loaded + [ChunkIndex(before, chunkSize)];
    }

    /** Fill buffer `a` from the position, page by page, stopping early at
        the end of the file or, once `already + got` bytes reach `minBytes`,
        at a chunk boundary. `loaded` lists the chunks needed, in order. */
    method FillBuffer(a: array<byte>, minBytes: nat, already: nat) returns (got: nat, ghost loaded: seq<nat>)
      requires Valid() && pos <= length
      modifies this`pos, this`cache, a
      ensures Valid()
      ensures got <= a.Length && pos == old(pos) + got <= length
      ensures a[..] == old(Contents())[old(pos) .. pos] + old(a[..])[got..]
      ensures got < a.Length ==>
        pos == length || (already + got >= minBytes && ChunkOffset(pos, chunkSize) == 0)
      ensures LoadedFor(loaded, old(pos), pos, chunkSize)
      ensures cache == FetchAll(old(cache), id, NumChunks(length, chunkSize), batchSize, loaded)
    {
      ghost var c := Contents();
      ghost var p0 := pos;
      got, loaded := 0, [];
      assert c[p0 .. pos] == [];
      var done := false;
      while got < a.Length && !done
        invariant Filling(a, old(a[..]), c, p0, old(cache), loaded)
        invariant pos == p0 + got
        invariant done ==> got < a.Length && (pos == length || (already + got >= minBytes && ChunkOffset(pos, chunkSize) == 0))
        decreases a.Length - got, if done then 0 else 1
      {
        if pos == length {
          done := true;
        } else {
          var r;
          r, loaded := FillPage(a, got, old(a[..]), c, p0, old(cache), loaded);
          got := got + r;
          if got < a.Length && pos < length && already + got >= minBytes {
            done := true;
          }
        }
      }
    }

    /** The state of a scatter-read from `p0` into `iov`, whose buffers held
        `orig`, of a file whose contents are `c` and whose cache was `c0`:
        the bytes read so far are scattered over the buffers, and the cache
        has served the chunks listed in `loaded`. */
    ghost predicate Reading(iov: seq<array<byte>>, orig: seq<seq<byte>>, c: seq<byte>, p0: nat, c0: Cache, loaded: seq<nat>)
      reads this, iov
    {
      && Valid() && c == Contents()
      && |iov| == |orig| && p0 <= pos <= length
      && Bufs(iov) == Scatter(orig, c[p0 .. pos])
      && LoadedFor(loaded, p0, pos, chunkSize)
      && cache == FetchAll(c0, id, NumChunks(length, chunkSize), batchSize, loaded)
    }

    /** `FillBuffer` on buffer `i` of `iov`, stated for the whole list: the
        list held `b0` and the file `c` from position `p` on; only buffer `i`
        changes. */
    method FillOne(iov: seq<array<byte>>, i: nat, minBytes: nat, r: nat, ghost c: seq<byte>, ghost b0: seq<seq<byte>>, ghost p: nat)
      returns (got: nat, ghost l: seq<nat>)
      requires Valid() && c == Contents() && b0 == Bufs(iov) && p == pos <= length && i < |iov|
      requires forall k, l :: 0 <= k < l < |iov| ==> iov[k] != iov[l]
      modifies this`pos, this`cache, iov[i]
      ensures Valid()
      ensures pos == p + got <= length && got <= |b0[i]|
      ensures Bufs(iov) == b0[i := c[p .. pos] + b0[i][got..]]
      ensures got < |b0[i]| ==> pos == length || (r + got >= minBytes && ChunkOffset(pos, chunkSize) == 0)
      ensures LoadedFor(l, p, pos, chunkSize)
      ensures cache == FetchAll(old(cache), id, NumChunks(length, chunkSize), batchSize, l)
    {
      assert b0[i] == iov[i][..];
      got, l := FillBuffer(iov[i], minBytes, r);
      assert iov[i][..] == c[p .. pos] + b0[i][got..];
      forall k | 0 <= k < |iov| && k != i ensures iov[k][..] == b0[k] {
        assert iov[k] != iov[i];
      }
      BufsUpdate(iov, i, b0);
    }

    /** One buffer of a scatter-read: fill buffer `i` of `iov`, the buffers
        before it being full with the `r` bytes read so far. */
    method ReadInto(iov: seq<array<byte>>, i: nat, minBytes: nat, r: nat, ghost orig: seq<seq<byte>>, ghost c: seq<byte>,
                    ghost p0: nat, ghost c0: Cache, ghost loaded: seq<nat>) returns (got: nat, ghost loaded': seq<nat>)
      requires Reading(iov, orig, c, p0, c0, loaded)
      requires forall k, l :: 0 <= k < l < |iov| ==> iov[k] != iov[l]
      requires i < |iov| && r == Total(orig[..i]) && pos == p0 + r
      modifies this`pos, this`cache, iov[i]
      ensures Reading(iov, orig, c, p0, c0, loaded')
      ensures pos == old(pos) + got && got <= |orig[i]| && Total(orig[..i + 1]) == r + |orig[i]|
      ensures got < |orig[i]| ==> pos == length || (minBytes <= r + got && ChunkOffset(pos, chunkSize) == 0)
    {
      ghost var before, b0, mid := pos, Bufs(iov), cache;
      ghost var l;
      got, l := FillOne(iov, i, minBytes, r, c, b0, before);
      ReadStep(orig, c, p0, before, got, pos, i, b0, Bufs(iov), chunkSize,
               c0, id, NumChunks(length, chunkSize), batchSize, loaded, l, mid, cache);
      loaded' := loaded + l;
    }

    /** Scatter-read from the position into the buffers of `iov`, filling
        them in order, and advance the position past the bytes read. A read
        at or past the end of the file reads nothing; otherwise the read
        stops at the end of the file, when every buffer is full, or, once at
        least `minBytes` bytes are read, at the next chunk boundary. `loaded`
        lists the chunks the read needed, in the order it needed them. */
    method ReadV(iov: seq<array<byte>>, minBytes: nat) returns (r: nat, ghost loaded: seq<nat>)
      requires Valid()
      requires forall k, l :: 0 <= k < l < |iov| ==> iov[k] != iov[l]
      modifies this`pos, this`cache, iov
      ensures Valid()
      ensures r <= Total(old(Bufs(iov))) && pos == old(pos) + r
      ensures old(pos) >= length ==> r == 0
      ensures old(pos) < length ==> pos <= length
      ensures r < Total(old(Bufs(iov))) && pos < length ==> minBytes <= r && ChunkOffset(pos, chunkSize) == 0
      ensures Bufs(iov) == Scatter(old(Bufs(iov)), ReadRange(old(Contents()), old(pos), r))
      ensures LoadedFor(loaded, old(pos), pos, chunkSize)
      ensures cache == FetchAll(old(cache), id, NumChunks(length, chunkSize), batchSize, loaded)
    {
      ghost var c, p, b := Contents(), pos, Bufs(iov);
      if pos >= length {
        r, loaded := 0, [];
        ScatterNothing(b);
        assert ReadRange(c, p, r) == [];
      } else {
        r, loaded := ReadFrom(iov, minBytes);
        ScatterRead(Bufs(iov), b, c, p, r);
      }
    }

    /** The scatter-read of `ReadV` from a position inside the file. */
    method ReadFrom(iov: seq<array<byte>>, minBytes: nat) returns (r: nat, ghost loaded: seq<nat>)
      requires Valid() && pos < length
      requires forall k, l :: 0 <= k < l < |iov| ==> iov[k] != iov[l]
      modifies this`pos, this`cache, iov
      ensures Valid()
      ensures r <= Total(old(Bufs(iov))) && pos == old(pos) + r <= length
      ensures r < Total(old(Bufs(iov))) && pos < length ==> minBytes <= r && ChunkOffset(pos, chunkSize) == 0
      ensures Bufs(iov) == Scatter(old(Bufs(iov)), old(Contents())[old(pos) .. pos])
      ensures LoadedFor(loaded, old(pos), pos, chunkSize)
      ensures cache == FetchAll(old(cache), id, NumChunks(length, chunkSize), batchSize, loaded)
    {
      ghost var orig := Bufs(iov);
      ghost var c := Contents();
      ghost var p0 := pos;
      r, loaded := 0, [];
      ScatterNothing(orig);
      assert c[p0 .. pos] == [];
      var i := 0;
      while i < |iov|
        invariant 0 <= i <= |iov|
        invariant Reading(iov, orig, c, p0, old(cache), loaded)
        invariant pos == p0 + r && r == Total(orig[..i])
      {
        var got;
        got, loaded := ReadInto(iov, i, minBytes, r, orig, c, p0, old(cache), loaded);
        r := r + got;
        if got < iov[i].Length {
          TotalPrefix(orig, i + 1);
          return;
        }
        i := i + 1;
      }
      assert orig[..i] == orig;
    }

    /** Writes `data` at the position: the chunks change as `WriteChunks`
        says, the file grows to `max(length, pos + |data|)` (past the old end
        it is filled with zero bytes up to the position), the position moves
        past the data, and the read cursor is dropped since its batch may
        hold stale chunks. */
    method WriteAt(data: seq<byte>)
      requires Valid()
      modifies this`chunks, this`length, this`pos, this`cache, this`merges
      ensures Valid()
      ensures Contents() == Overwrite(old(Contents()), old(pos), data)
      ensures length == Max(old(length), old(pos) + |data|) && pos == old(pos) + |data|
      ensures cache == Drop(old(cache))
      ensures merges == old(merges) + FetchCount(chunkSize, old(length), old(pos), old(pos) + |data|,
        FirstTouched(chunkSize, old(length), old(pos)), TouchEnd(chunkSize, old(length), old(pos), old(pos) + |data|))
    {
      WriteChunks(data);
      length, pos, cache := Max(length, pos + |data|), pos + |data|, Drop(cache);
    }

    /** Writes `data` at the position into the chunks, one chunk at a time:
        a chunk the write covers completely is replaced, a chunk it covers
        only in part is first fetched and then merged and written back, and
        `merges` counts those fetches. The chunks then hold the old contents
        overwritten by `data`, laid out for the new length. Length, position
        and cursor are left to the caller. */
    method WriteChunks(data: seq<byte>)
      requires chunkSize > 0 && WellFormed(chunks, chunkSize, length)
      modifies this`chunks, this`merges
      ensures WellFormed(chunks, chunkSize, Max(length, pos + |data|))
      ensures FileBytes(chunks, chunkSize, Max(length, pos + |data|)) == Overwrite(FileBytes(old(chunks), chunkSize, length), pos, data)
      ensures merges == old(merges) + FetchCount(chunkSize, length, pos, pos + |data|,
        FirstTouched(chunkSize, length, pos), TouchEnd(chunkSize, length, pos, pos + |data|))
    {
      var written, fetches := WriteTouched(chunks, data, chunkSize, length, pos);
      chunks, merges := written, merges + fetches;
    }

    /** Gathers the buffers of `iov` and writes their bytes at the position;
        returns how many bytes were written, all of them. */
    method WriteV(iov: seq<array<byte>>) returns (r: nat)
      requires Valid()
      modifies this`chunks, this`length, this`pos, this`cache, this`merges
      ensures Valid()
      ensures r == Total(Bufs(iov))
      ensures Contents() == Overwrite(old(Contents()), old(pos), Gathered(iov))
      ensures length == Max(old(length), old(pos) + r) && pos == old(pos) + r
      ensures cache == Drop(old(cache))
      ensures merges == old(merges) + FetchCount(chunkSize, old(length), old(pos), old(pos) + r,
        FirstTouched(chunkSize, old(length), old(pos)), TouchEnd(chunkSize, old(length), old(pos), old(pos) + r))
    {
      var data := Gather(iov);
      r := |data|;
      WriteAt(data);
    }
  }
}
