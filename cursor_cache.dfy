/** The read-cursor cache of an open GridFS file: at most one live cursor
    over the file's chunks, the batch of chunks it has delivered, and the
    decision, for each chunk a read needs, between using the resident batch,
    continuing the cursor with its next batch, or killing it and issuing a
    new range query. */
module CursorCache {
  import opened ChunkMath

  type FileId = nat

  /** A query over the chunks collection. The driver issues only range
      queries built by `RangeQuery`. */
  datatype ChunkQuery = ChunkQuery(filesId: FileId, minN: nat, sortKey: string, ascending: bool, projection: set<string>)

  /** The query that fetches the chunks of file `id` from sequence number `n`
      on: filter `files_id == id, n >= n`, ordered by `n` ascending,
      returning only `n` and `data`. */
  function RangeQuery(id: FileId, n: nat): ChunkQuery
  {
    ChunkQuery(id, n, "n", true, {"n", "data"})
  }

  /** Whether the chunk record `(filesId, n)` satisfies the query's filter. */
  predicate Matches(q: ChunkQuery, filesId: FileId, n: nat)
  {
    filesId == q.filesId && n >= q.minN
  }

  /** The range query for chunk `n` selects exactly this file's chunks from
      `n` on, sorts them by `n` ascending and projects only `n` and `data`. */
  lemma RangeQueryMatches(id: FileId, n: nat, filesId: FileId, m: nat)
    ensures Matches(RangeQuery(id, n), filesId, m) <==> filesId == id && m >= n
    ensures RangeQuery(id, n).sortKey == "n" && RangeQuery(id, n).ascending
    ensures RangeQuery(id, n).projection == {"n", "data"}
  {
  }

  /** A live cursor `id` whose current batch holds chunks `first ..
      first + size - 1`. */
  datatype Cursor = Cursor(id: nat, first: nat, size: nat)

  datatype CursorState = NoCursor | Live(cursor: Cursor)

  /** The cache: the cursor, the id the store gives the next cursor, and logs
      of queries issued, batches continued (`getMore`) and cursors killed. */
  datatype Cache = Cache(state: CursorState, nextId: nat, queries: seq<ChunkQuery>, getMores: nat, killed: seq<nat>)

  /** The cache of a freshly opened file: no cursor, nothing issued yet. */
  const Fresh := Cache(NoCursor, 1, [], 0, [])

  /** What a read needing chunk `n` does with the cache. */
  datatype Step = Reuse | GetMore | Reissue

  /** Whether chunk `n` is in the resident batch. */
  predicate Resident(s: CursorState, n: nat)
  {
    s.Live? && s.cursor.first <= n < s.cursor.first + s.cursor.size
  }

  /** Reuse when the chunk is resident; continue the cursor when the chunk is
      the one right after its batch (a forward continuation); otherwise
      kill the cursor and issue a new query. */
  function Decide(s: CursorState, n: nat): Step
  {
    if Resident(s, n) then Reuse
    else if s.Live? && n == s.cursor.first + s.cursor.size then GetMore
    else Reissue
  }

  /** How many chunks the store delivers for a cursor positioned at chunk
      `n` of a file of `count` chunks: up to `batchSize`, stopping at the last
      chunk. */
  function BatchLen(count: nat, batchSize: nat, n: nat): (b: nat)
    ensures b <= batchSize && n + b <= Max(count, n)
    ensures n < count && batchSize > 0 ==> b > 0
  {
    if n < count then Min(batchSize, count - n) else 0
  }

  /** The cache agrees with the store of `count` chunks: every resident chunk
      exists, and the live cursor's id was handed out before `nextId`. */
  predicate Consistent(c: Cache, count: nat)
  {
    && c.nextId > 0
    && (c.state.Live? ==> 0 < c.state.cursor.id < c.nextId && c.state.cursor.first + c.state.cursor.size <= count)
  }

  /** The cache after a read needs chunk `n` of file `id`, which has `count`
      chunks, from a store delivering `batchSize` chunks per batch. */
  function Fetch(c: Cache, id: FileId, count: nat, batchSize: nat, n: nat): Cache
  {
    match Decide(c.state, n)
    case Reuse => c
    case GetMore =>
      c.(state := Live(Cursor(c.state.cursor.id, n, BatchLen(count, batchSize, n))), getMores := c.getMores + 1)
    case Reissue =>
      c.(state := Live(Cursor(c.nextId, n, BatchLen(count, batchSize, n))),
         nextId := c.nextId + 1,
         queries := c.queries + [RangeQuery(id, n)],
         killed := c.killed + if c.state.Live? then [c.state.cursor.id] else [])
  }

  /** After `Fetch` of an existing chunk, that chunk is resident and the
      cache still agrees with the store. */
  lemma FetchLoads(c: Cache, id: FileId, count: nat, batchSize: nat, n: nat)
    requires n < count && batchSize > 0
    requires Consistent(c, count)
    ensures Consistent(Fetch(c, id, count, batchSize, n), count)
    ensures Resident(Fetch(c, id, count, batchSize, n).state, n)
  {
  }

  /** A read served from the resident batch or by continuing the cursor
      issues no query and keeps the cursor's id. */
  lemma NoQueryUnlessReissue(c: Cache, id: FileId, count: nat, batchSize: nat, n: nat)
    requires Decide(c.state, n) != Reissue
    ensures Fetch(c, id, count, batchSize, n).queries == c.queries
    ensures Fetch(c, id, count, batchSize, n).state.cursor.id == c.state.cursor.id
    ensures Fetch(c, id, count, batchSize, n).killed == c.killed
  {
  }

  /** A read that needs a chunk the cursor cannot deliver next kills the old
      cursor, issues the range query starting at that chunk, and installs a
      cursor whose id differs from the old one. */
  lemma ReissueQueries(c: Cache, id: FileId, count: nat, batchSize: nat, n: nat)
    requires Consistent(c, count)
    requires Decide(c.state, n) == Reissue
    ensures Fetch(c, id, count, batchSize, n).queries == c.queries + [RangeQuery(id, n)]
    ensures c.state.Live? ==> Fetch(c, id, count, batchSize, n).state.cursor.id != c.state.cursor.id
    ensures c.state.Live? ==> Fetch(c, id, count, batchSize, n).killed == c.killed + [c.state.cursor.id]
  {
  }

  /** The cache after a read has needed chunks `ns`, in that order. */
  function FetchAll(c: Cache, id: FileId, count: nat, batchSize: nat, ns: seq<nat>): Cache
    decreases |ns|
  {
    if ns == [] then c
    else Fetch(FetchAll(c, id, count, batchSize, ns[..|ns| - 1]), id, count, batchSize, ns[|ns| - 1])
  }

  /** Needing the chunks `xs` and then chunk `n` is one more `Fetch`. */
  lemma FetchAllSnoc(c: Cache, id: FileId, count: nat, batchSize: nat, xs: seq<nat>, n: nat)
    ensures FetchAll(c, id, count, batchSize, xs + [n]) ==
      Fetch(FetchAll(c, id, count, batchSize, xs), id, count, batchSize, n)
  {
    assert (xs + [n])[..|xs|] == xs;
  }

  /** Needing the chunks `xs` and then the chunks `ys` is needing `xs + ys`. */
  lemma {:induction false} FetchAllAppend(c: Cache, id: FileId, count: nat, batchSize: nat, xs: seq<nat>, ys: seq<nat>)
    ensures FetchAll(c, id, count, batchSize, xs + ys) ==
      FetchAll(FetchAll(c, id, count, batchSize, xs), id, count, batchSize, ys)
    decreases |ys|
  {
    if ys == [] {
      assert xs + ys == xs;
    } else {
      var init := ys[..|ys| - 1];
      assert (xs + ys)[..|xs + ys| - 1] == xs + init;
      FetchAllAppend(c, id, count, batchSize, xs, init);
    }
  }

  /** A read whose chunks are all resident leaves the cache as it was: no
      query, the same cursor. */
  lemma {:induction false} FetchAllResident(c: Cache, id: FileId, count: nat, batchSize: nat, ns: seq<nat>)
    requires forall k :: 0 <= k < |ns| ==> Resident(c.state, ns[k])
    ensures FetchAll(c, id, count, batchSize, ns) == c
    decreases |ns|
  {
    if ns != [] {
      FetchAllResident(c, id, count, batchSize, ns[..|ns| - 1]);
    }
  }

  /** A read that needs only chunk `n`, any number of times, changes the
      cache as one `Fetch` of `n` does. */
  lemma {:induction false} FetchAllSame(c: Cache, id: FileId, count: nat, batchSize: nat, ns: seq<nat>, n: nat)
    requires n < count && batchSize > 0 && Consistent(c, count)
    requires ns != [] && forall k :: 0 <= k < |ns| ==> ns[k] == n
    ensures FetchAll(c, id, count, batchSize, ns) == Fetch(c, id, count, batchSize, n)
    decreases |ns|
  {
    FetchLoads(c, id, count, batchSize, n);
    if |ns| > 1 {
      FetchAllSame(c, id, count, batchSize, ns[..|ns| - 1], n);
    }
  }

  /** Fetching keeps the cache consistent with the store. */
  lemma {:induction false} FetchAllConsistent(c: Cache, id: FileId, count: nat, batchSize: nat, ns: seq<nat>)
    requires batchSize > 0 && Consistent(c, count)
    requires forall k :: 0 <= k < |ns| ==> ns[k] < count
    ensures Consistent(FetchAll(c, id, count, batchSize, ns), count)
    decreases |ns|
  {
    if ns != [] {
      FetchAllConsistent(c, id, count, batchSize, ns[..|ns| - 1]);
      FetchLoads(FetchAll(c, id, count, batchSize, ns[..|ns| - 1]), id, count, batchSize, ns[|ns| - 1]);
    }
  }

  /** Killing the cursor, as a write does: no chunk stays resident. */
  function Drop(c: Cache): Cache
  {
    c.(state := NoCursor, killed := c.killed + if c.state.Live? then [c.state.cursor.id] else [])
  }

  /** After the cursor is dropped, no chunk can be served from a batch: the
      first chunk the next read needs issues the range query from that chunk
      and installs a cursor with a new id. */
  lemma ReadAfterDropQueries(c: Cache, id: FileId, count: nat, batchSize: nat, n: nat)
    requires Consistent(c, count)
    ensures Decide(Drop(c).state, n) == Reissue
    ensures Fetch(Drop(c), id, count, batchSize, n).queries == c.queries + [RangeQuery(id, n)]
    ensures c.state.Live? ==> Fetch(Drop(c), id, count, batchSize, n).state.cursor.id != c.state.cursor.id
  {
  }

  /** The chunks of a forward read, in the order it needs them: each is the
      one before it or the next, so a chunk `d` places later is at most `d`
      chunks further on and never earlier. */
  predicate Sequential(ns: seq<nat>)
  {
    forall j, k :: 0 <= j < k < |ns| ==> ns[j] <= ns[k] <= ns[j] + (k - j)
  }

  /** A sequential run without its first chunk is still sequential. */
  lemma SequentialTail(ns: seq<nat>)
    requires ns != [] && Sequential(ns)
    ensures Sequential(ns[1..])
  {
    forall j, k | 0 <= j < k < |ns| - 1 ensures ns[1..][j] <= ns[1..][k] <= ns[1..][j] + (k - j) {
      assert ns[1..][j] == ns[j + 1] && ns[1..][k] == ns[k + 1];
    }
  }

  /** A forward read whose first chunk the live cursor can serve, by reuse or
      by continuation, is served by that cursor throughout: it issues no
      query, kills nothing, keeps the cursor's id, and leaves its last chunk
      resident. */
  lemma {:induction false} SequentialKeepsCursor(c: Cache, id: FileId, count: nat, batchSize: nat, ns: seq<nat>)
    requires batchSize > 0 && Consistent(c, count)
    requires ns != [] && Sequential(ns) && forall k :: 0 <= k < |ns| ==> ns[k] < count
    requires Decide(c.state, ns[0]) != Reissue
    ensures FetchAll(c, id, count, batchSize, ns).queries == c.queries
    ensures FetchAll(c, id, count, batchSize, ns).killed == c.killed
    ensures FetchAll(c, id, count, batchSize, ns).state.Live?
    ensures FetchAll(c, id, count, batchSize, ns).state.cursor.id == c.state.cursor.id
    ensures Resident(FetchAll(c, id, count, batchSize, ns).state, ns[|ns| - 1])
    decreases |ns|
  {
    var init := ns[..|ns| - 1];
    var last := ns[|ns| - 1];
    var d := FetchAll(c, id, count, batchSize, init);
    if |ns| == 1 {
      assert init == [];
    } else {
      assert init[0] == ns[0];
      SequentialKeepsCursor(c, id, count, batchSize, init);
      FetchAllConsistent(c, id, count, batchSize, init);
      assert init[|init| - 1] == ns[|ns| - 2];
    }
    FetchLoads(d, id, count, batchSize, last);
    NoQueryUnlessReissue(d, id, count, batchSize, last);
  }
}
