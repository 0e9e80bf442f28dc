/** The GridFS behaviours the driver's test suite pins, replayed as client
    code over the model: each method performs the calls a test makes and
    states, as postconditions, the results the test asserts. */
module Scenarios {
  import opened ChunkMath
  import opened Bytes
  import opened Iovec
  import opened Chunks
  import opened CursorCache
  import opened Optional
  import opened GridFSFile
  import opened Namespace

  /** Seeks to the start and reads the whole file of `n` bytes, asking for
      all of them, into one buffer of `cap` bytes. */
  method ReadFromStart(f: File, n: nat, cap: nat) returns (r: nat, got: seq<byte>)
    requires f.Valid() && 0 < n == f.length && n <= cap
    modifies f`pos, f`cache
    ensures f.Valid() && r == n && got == f.Contents() && f.pos == n
  {
    var ok := f.Seek(0, SeekSet);
    var buf := new byte[cap];
    ghost var b0 := buf[..];
    ghost var c := f.Contents();
    assert Bufs([buf]) == [b0];
    assert Total([b0]) == cap;
    ghost var loaded;
    r, loaded := f.ReadV([buf], n);
    assert r == n;
    ReadRangeInside(c, 0, n);
    assert c[0 .. n] == c;
    ScatterOne(b0, c);
    assert buf[..] == Bufs([buf])[0];
    got := buf[..n];
  }

  /** A new byte buffer holding the ASCII text `t`. */
  method Buffer(t: string) returns (a: array<byte>)
    requires forall k :: 0 <= k < |t| ==> t[k] < 128 as char
    ensures fresh(a) && a[..] == Ascii(t)
  {
    a := new byte[|t|](k requires 0 <= k < |t| => Ascii(t)[k]);
  }

  /** The overwrite the write test expects: " baz" written at offset 2 of
      "foo bar baz" gives "fo bazr baz". */
  lemma OverwriteExample()
    ensures Overwrite(Ascii("foo bar baz"), 2, Ascii(" baz")) == Ascii("fo bazr baz")
  {
    FooBarBazSplit();
    OverwriteMiddle(Ascii("fo"), Ascii("o ba"), Ascii("r baz"), Ascii(" baz"));
  }

  /** Cutting "foo bar baz" at 2 and 6, and "fo bazr baz" into the same
      ends around " baz". */
  lemma FooBarBazSplit()
    ensures Ascii("foo bar baz") == Ascii("fo") + Ascii("o ba") + Ascii("r baz")
    ensures Ascii("fo bazr baz") == Ascii("fo") + Ascii(" baz") + Ascii("r baz")
  {
    assert "foo bar baz" == "fo" + "o ba" + "r baz";
    assert "fo bazr baz" == "fo" + " baz" + "r baz";
    AsciiAppend("fo", "o ba");
    AsciiAppend("fo" + "o ba", "r baz");
    AsciiAppend("fo", " baz");
    AsciiAppend("fo" + " baz", "r baz");
  }

  /** The buffers "foo bar" and " baz" gather to the 11 bytes "foo bar
      baz", which is what writing them into an empty file leaves. */
  lemma GatherFooBarBaz(x: seq<byte>, y: seq<byte>)
    requires x == Ascii("foo bar") && y == Ascii(" baz")
    ensures Concat([x, y]) == Ascii("foo bar baz") && Total([x, y]) == 11
    ensures Overwrite([], 0, Concat([x, y])) == Ascii("foo bar baz")
  {
    assert [x, y][1..] == [y];
    AsciiAppend("foo bar", " baz");
    assert "foo bar" + " baz" == "foo bar baz";
    WriteIntoEmpty(Ascii("foo bar baz"));
  }

  /** A write across many pages: with chunk size 2, writing "foo bar" and
      " baz" into a new file returns 11, fetches no chunk, and reads back
      as "foo bar baz". */
  method WriteAcrossPages() returns (f: File, r: nat, back: seq<byte>, fetched: nat)
    ensures fresh(f) && f.Valid() && f.chunkSize == 2
    ensures r == 11 && back == Ascii("foo bar baz") && f.Contents() == back
    ensures fetched == 0
  {
    f := new File(1, None, 2, 255 * 1024, 2);
    var a := Buffer("foo bar");
    var b := Buffer(" baz");
    assert Bufs([a, b]) == [a[..], b[..]];
    GatherFooBarBaz(a[..], b[..]);
    AlignedWriteNeedsNoFetch(2, 0, 0, 11, TouchEnd(2, 0, 0, 11));
    r := f.WriteV([a, b]);
    fetched := f.merges;
    var n;
    n, back := ReadFromStart(f, 11, 1000);
  }

  /** A write starting and ending on chunk boundaries: writing " baz" at
      offset 2 of "foo bar baz" (chunk size 2) returns 4, fetches no chunk,
      keeps the length at 11 and reads back as "fo bazr baz". */
  method OverwriteOnBoundaries(f: File) returns (r: nat, back: seq<byte>, fetched: nat)
    requires f.Valid() && f.chunkSize == 2 && f.Contents() == Ascii("foo bar baz")
    modifies f`chunks, f`length, f`pos, f`cache, f`merges
    ensures f.Valid() && r == 4 && f.length == 11 && back == Ascii("fo bazr baz") && fetched == 0
  {
    var ok := f.Seek(2, SeekSet);
    var m0 := f.merges;
    var b := Buffer(" baz");
    assert Bufs([b]) == [b[..]];
    assert Concat([b[..]]) == b[..];
    AlignedWriteNeedsNoFetch(2, 11, 2, 6, TouchEnd(2, 11, 2, 6));
    OverwriteExample();
    r := f.WriteV([b]);
    fetched := f.merges - m0;
    var n;
    n, back := ReadFromStart(f, 11, 1000);
  }

  /** The write test: both writes and read-backs in a row. */
  method WriteAndOverwrite() returns (r1: nat, first: seq<byte>, r2: nat, second: seq<byte>, fetched: nat)
    ensures r1 == 11 && first == Ascii("foo bar baz")
    ensures r2 == 4 && second == Ascii("fo bazr baz")
    ensures fetched == 0
  {
    var f, f1;
    f, r1, first, f1 := WriteAcrossPages();
    var f2;
    r2, second, f2 := OverwriteOnBoundaries(f);
    fetched := f1 + f2;
  }

  /** The empty-file test: in a new file every seek to 0 succeeds and
      reports position 0, a read returns nothing, and "hi" written and read
      back returns 2 bytes "hi". */
  method EmptyFile() returns (t1: nat, t2: nat, t3: nat, r0: nat, r: nat, back: seq<byte>)
    ensures t1 == 0 && t2 == 0 && t3 == 0 && r0 == 0
    ensures r == 2 && back == Ascii("hi")
  {
    var f := new File(1, None, 0, 255 * 1024, 2);
    var ok := f.Seek(0, SeekSet);
    t1 := f.Tell();
    ok := f.Seek(0, SeekCur);
    t2 := f.Tell();
    ok := f.Seek(0, SeekEnd);
    t3 := f.Tell();
    var buf := Buffer("hi");
    ghost var loaded;
    r0, loaded := f.ReadV([buf], 0);
    ScatterOne(Ascii("hi"), []);
    assert Bufs([buf]) == [buf[..]];
    r, back := WriteAndReadBack(f, buf);
  }

  /** Writes the bytes of `buf` at the start of an empty file, then seeks
      to 0 and reads the whole file back. */
  method WriteAndReadBack(f: File, buf: array<byte>) returns (r: nat, back: seq<byte>)
    requires f.Valid() && f.length == 0 && f.pos == 0 && 0 < buf.Length
    modifies f`chunks, f`length, f`pos, f`cache, f`merges
    ensures r == buf.Length && back == buf[..]
  {
    assert Bufs([buf]) == [buf[..]];
    assert Concat([buf[..]]) == buf[..];
    WriteIntoEmpty(buf[..]);
    r := f.WriteV([buf]);
    var n;
    n, back := ReadFromStart(f, r, r);
  }

  /** The seek test on a saved file: `seek(0, SET)` reports 0,
      `seek(chunkSize + 1, CUR)` then reports `chunkSize + 1`, and
      `seek(0, END)` reports the length. */
  method SeekInFile(f: File) returns (ok1: bool, t1: nat, ok2: bool, t2: nat, ok3: bool, t3: nat)
    modifies f`pos
    ensures ok1 && t1 == 0 && ok2 && t2 == f.chunkSize + 1 && ok3 && t3 == f.length
  {
    ok1 := f.Seek(0, SeekSet);
    t1 := f.Tell();
    ok2 := f.Seek(f.chunkSize + 1, SeekCur);
    t2 := f.Tell();
    ok3 := f.Seek(0, SeekEnd);
    t3 := f.Tell();
  }

  /** Seeks to `p` and reads 20 bytes, asking for all of them, into two
      buffers of 10: they receive the file's bytes `[p, p + 10)` and
      `[p + 10, p + 20)`. */
  method ReadTwenty(f: File, p: nat) returns (r: nat, x: seq<byte>, y: seq<byte>)
    requires f.Valid() && p + 20 <= f.length
    modifies f`pos, f`cache
    ensures f.Valid() && r == 20 && f.pos == p + 20
    ensures x == f.Contents()[p .. p + 10] && y == f.Contents()[p + 10 .. p + 20]
  {
    var ok := f.Seek(p, SeekSet);
    var b1 := new byte[10];
    var b2 := new byte[10];
    ghost var u, v := b1[..], b2[..];
    assert Bufs([b1, b2]) == [u, v];
    assert Total([u, v]) == 20 by {
      ScatterTwo(u, v, u + v);
    }
    ghost var c := f.Contents();
    ghost var loaded;
    r, loaded := f.ReadV([b1, b2], 20);
    assert r == 20;
    assert f.Contents() == c;
    TwentyBytes(c, p, u, v, Bufs([b1, b2]));
    x, y := b1[..], b2[..];
    assert [x, y] == Bufs([b1, b2]);
  }

  /** Scattering the 20 bytes of `c` from `p` into two buffers of 10 gives
      them `c[p .. p + 10]` and `c[p + 10 .. p + 20]`. */
  lemma TwentyBytes(c: seq<byte>, p: nat, u: seq<byte>, v: seq<byte>, after: seq<seq<byte>>)
    requires p + 20 <= |c| && |u| == 10 && |v| == 10
    requires after == Scatter([u, v], ReadRange(c, p, 20))
    ensures after == [c[p .. p + 10], c[p + 10 .. p + 20]]
  {
    ReadRangeInside(c, p, 20);
    ScatterTwo(u, v, c[p .. p + 20]);
    assert c[p .. p + 20][..10] == c[p .. p + 10];
    assert c[p .. p + 20][10..] == c[p + 10 .. p + 20];
  }

  /** Two buffers hold their sizes together, and data exactly that long
      fills the first and then the second. */
  lemma ScatterTwo(u: seq<byte>, v: seq<byte>, d: seq<byte>)
    requires |d| == |u| + |v|
    ensures Total([u, v]) == |u| + |v|
    ensures Scatter([u, v], d) == [d[..|u|], d[|u|..]]
  {
    assert [u, v][1..] == [v];
    assert Total([v]) == |v| by {
      assert [v][1..] == [];
    }
    ScatterSplit([u, v], d);
    ScatterOne(v, d[|u|..]);
    assert d[|u|..] + v[|v|..] == d[|u|..];
  }

  /** The read test: reads of 20 bytes into two buffers of 10, from offset
      0, from offset 1, and across a chunk boundary from `chunkSize - 1`,
      each return 20 and the bytes from their offset on; the last leaves
      the position at `chunkSize + 19`. */
  method ReadAcrossChunks(f: File) returns (r1: nat, x1: seq<byte>, y1: seq<byte>, r2: nat, x2: seq<byte>, y2: seq<byte>,
                                           r3: nat, x3: seq<byte>, y3: seq<byte>, t: nat)
    requires f.Valid() && f.length >= f.chunkSize + 19 && f.length >= 21
    modifies f`pos, f`cache
    ensures r1 == 20 && x1 == f.Contents()[0 .. 10] && y1 == f.Contents()[10 .. 20]
    ensures r2 == 20 && x2 == f.Contents()[1 .. 11] && y2 == f.Contents()[11 .. 21]
    ensures r3 == 20 && x3 == f.Contents()[f.chunkSize - 1 .. f.chunkSize + 9]
    ensures y3 == f.Contents()[f.chunkSize + 9 .. f.chunkSize + 19]
    ensures t == f.chunkSize + 19
  {
    r1, x1, y1 := ReadTwenty(f, 0);
    r2, x2, y2 := ReadTwenty(f, 1);
    r3, x3, y3 := ReadTwenty(f, f.chunkSize - 1);
    t := f.Tell();
  }

  /** Seeks to the start of chunk `n` and reads, asking for `minBytes`, into
      a buffer of one chunk: the read returns the whole chunk and changes
      the cursor cache as one `Fetch` of chunk `n`. */
  method ReadChunk(f: File, n: nat, minBytes: nat) returns (r: nat)
    requires f.Valid() && 0 < minBytes && n * f.chunkSize + f.chunkSize <= f.length
    modifies f`pos, f`cache
    ensures f.Valid() && r == f.chunkSize
    ensures f.cache == Fetch(old(f.cache), f.id, NumChunks(f.length, f.chunkSize), f.batchSize, n)
  {
    var cs := f.chunkSize;
    ghost var p0: nat := n * cs;
    var ok := f.Seek(n * cs, SeekSet);
    var buf := new byte[cs];
    assert Bufs([buf]) == [buf[..]];
    assert Total([buf[..]]) == cs;
    ghost var loaded;
    ghost var c0 := f.cache;
    r, loaded := f.ReadV([buf], minBytes);
    WholeChunk(p0, f.pos, n, cs, minBytes);
    ChunkBelowCount(n, f.length, cs);
    ReadInOneChunk(c0, f.id, NumChunks(f.length, cs), f.batchSize, loaded, p0, f.pos, cs);
  }

  /** A read from the start of chunk `n` that stops at most a chunk later,
      and short of it only at a chunk boundary after at least one byte,
      reads exactly chunk `n`. */
  lemma WholeChunk(p0: nat, p: nat, n: nat, cs: nat, minBytes: nat)
    requires cs > 0 && p0 == n * cs && p0 <= p <= p0 + cs && 0 < minBytes
    requires p < p0 + cs ==> minBytes <= p - p0 && ChunkOffset(p, cs) == 0
    ensures p == p0 + cs && ChunkIndex(p0, cs) == n && ChunkIndex(p - 1, cs) == n
  {
    if p < p0 + cs {
      IndexOf(n, p - p0, cs);
    }
    IndexOf(n, 0, cs);
    IndexOf(n, cs - 1, cs);
  }

  /** The long-seek test, with chunk size 4, batches of 2 chunks, and a file
      of 5 chunks: the first read issues the range query from chunk 0 and
      opens a cursor; a read of chunk 1, inside that batch, issues no query
      and keeps the cursor; a read of chunk 4 kills the cursor, issues the
      range query from chunk 4 (files_id = the file, `n >= 4`, by `n`
      ascending, only `n` and `data`) and gets a new cursor. */
  method LongSeek() returns (c1: Cache, c2: Cache, c3: Cache)
    ensures c1.queries == [RangeQuery(1, 0)] && c1.state.Live?
    ensures c2.queries == c1.queries && c2.state.Live? && c2.state.cursor.id == c1.state.cursor.id
    ensures c3.queries == c1.queries + [RangeQuery(1, 4)] && c3.state.Live?
    ensures c3.state.cursor.id != c1.state.cursor.id && c3.killed == [c1.state.cursor.id]
    ensures RangeQuery(1, 4) == ChunkQuery(1, 4, "n", true, {"n", "data"})
  {
    var f := new File(1, None, 4, 255 * 1024, 2);
    var a := new byte[20];
    assert Bufs([a]) == [a[..]];
    assert Concat([a[..]]) == a[..];
    var w := f.WriteV([a]);
    assert f.cache == Fresh;
    assert NumChunks(20, 4) == 5;
    LongSeekCaches();
    assert f.length == 20 && f.id == 1 && f.chunkSize == 4 && f.batchSize == 2;
    var r := ReadChunk(f, 0, 2);
    c1 := f.cache;
    assert c1 == Cache(Live(Cursor(1, 0, 2)), 2, [RangeQuery(1, 0)], 0, []);
    r := ReadChunk(f, 1, 2);
    c2 := f.cache;
    assert c2 == c1;
    r := ReadChunk(f, 4, 2);
    c3 := f.cache;
    assert c3 == Cache(Live(Cursor(2, 4, 1)), 3, [RangeQuery(1, 0), RangeQuery(1, 4)], 0, [1]);
  }

  /** The caches of the long-seek test, for a file of 5 chunks and batches
      of 2: chunk 0 opens cursor 1 on chunks 0 and 1, chunk 1 reuses it,
      and chunk 4 kills it and opens cursor 2 on chunk 4. */
  lemma LongSeekCaches()
    ensures Fetch(Fresh, 1, 5, 2, 0) == Cache(Live(Cursor(1, 0, 2)), 2, [RangeQuery(1, 0)], 0, [])
    ensures Fetch(Cache(Live(Cursor(1, 0, 2)), 2, [RangeQuery(1, 0)], 0, []), 1, 5, 2, 1)
         == Cache(Live(Cursor(1, 0, 2)), 2, [RangeQuery(1, 0)], 0, [])
    ensures Fetch(Cache(Live(Cursor(1, 0, 2)), 2, [RangeQuery(1, 0)], 0, []), 1, 5, 2, 4)
         == Cache(Live(Cursor(2, 4, 1)), 3, [RangeQuery(1, 0), RangeQuery(1, 4)], 0, [1])
  {
  }

  /** The record a newly created and saved file leaves. */
  function Saved(id: FileId, name: string): FileRecord
  {
    FileRecord(id, Some(name), 255 * 1024, 0)
  }

  /** A bucket into which new empty files named `names` were saved in
      order. */
  method SaveNewFiles(names: seq<string>) returns (g: GridFS)
    ensures fresh(g) && g.Valid() && g.nextId == |names| + 1
    ensures g.files == seq(|names|, i requires 0 <= i < |names| => Saved(i + 1, names[i]))
  {
    g := new GridFS(255 * 1024, 2);
    var i := 0;
    while i < |names|
      invariant i <= |names| && g.Valid() && g.nextId == i + 1
      invariant g.files == seq(i, k requires 0 <= k < i => Saved(k + 1, names[k]))
      invariant fresh(g) && g.defaultChunkSize == 255 * 1024
    {
      SaveNew(g, names[i]);
      SavedSnoc(names, i);
      i := i + 1;
    }
  }

  /** Creates a new empty file named `name` and saves it: its record is
      appended with the id the bucket handed out. */
  method SaveNew(g: GridFS, name: string)
    requires g.Valid() && g.defaultChunkSize == 255 * 1024
    modifies g`files, g`store, g`nextId
    ensures g.Valid() && g.nextId == old(g.nextId) + 1
    ensures g.files == old(g.files) + [Saved(old(g.nextId), name)]
  {
    var f := g.CreateFile(Some(name), 0);
    UpsertNewId(g.files, Saved(f.id, name));
    g.Save(f);
  }

  /** The records of the first `i + 1` saved files are those of the first
      `i` and then that of file `i`. */
  lemma SavedSnoc(names: seq<string>, i: nat)
    requires i < |names|
    ensures seq(i, k requires 0 <= k < i => Saved(k + 1, names[k])) + [Saved(i + 1, names[i])]
         == seq(i + 1, k requires 0 <= k < i + 1 => Saved(k + 1, names[k]))
  {
  }

  /** The create test: a file created without options and saved becomes one
      record with no name, the default chunk size and length 0, and no
      chunks are stored under its id. */
  method CreateAndSave() returns (g: GridFS)
    ensures g.Valid() && g.files == [FileRecord(1, None, 255 * 1024, 0)] && g.store == map[1 := map[]]
  {
    g := new GridFS(255 * 1024, 2);
    var f := g.CreateFile(None, 0);
    NoChunks(f.chunks, f.chunkSize);
    g.Save(f);
  }

  /** An empty file has no chunks. */
  lemma NoChunks(m: ChunkMap, cs: nat)
    requires WellFormed(m, cs, 0)
    ensures m == map[]
  {
    assert m.Keys == {};
  }

  /** A saved file, opened again from its record, has the same length,
      chunk size and contents as the handle that was saved. */
  method SaveThenOpen(g: GridFS, f: File) returns (h: File)
    requires g.Valid() && f.Valid() && 0 < f.id < g.nextId
    modifies g`files, g`store
    ensures fresh(h) && h.Valid() && h.id == f.id && h.pos == 0
    ensures h.chunkSize == f.chunkSize && h.length == f.length && h.Contents() == f.Contents()
  {
    var rec := FileRecord(f.id, f.filename, f.chunkSize, f.length);
    UpsertIds(g.files, rec);
    g.Save(f);
    h := g.Open(rec);
  }

  /** Saving a record whose id no record has appends it. */
  lemma {:induction false} UpsertNewId(rs: seq<FileRecord>, rec: FileRecord)
    requires forall i :: 0 <= i < |rs| ==> rs[i].id != rec.id
    ensures Upsert(rs, rec) == rs + [rec]
  {
    if rs != [] {
      UpsertNewId(rs[1..], rec);
      assert rs == [rs[0]] + rs[1..];
    }
  }

  /** The list test: three files "file.0", "file.1", "file.2", found with
      filename order, come back in that order and then the list ends;
      `find_one` and `find_one_by_filename` for "file.1" return that
      file. */
  method ListFiles() returns (names: seq<Option<string>>, end: Option<FileRecord>, one: Option<FileRecord>, byName: Option<FileRecord>)
    ensures names == [Some("file.0"), Some("file.1"), Some("file.2")] && end == None
    ensures one.Some? && one.value.filename == Some("file.1")
    ensures byName.Some? && byName.value.filename == Some("file.1")
  {
    var g := SaveNewFiles(["file.0", "file.1", "file.2"]);
    ghost var rs := g.files;
    assert rs == [Saved(1, "file.0"), Saved(2, "file.1"), Saved(3, "file.2")];
    ThreeFiles(rs);
    var list := g.Find(Query(All, true));
    var r0 := list.Next();
    var r1 := list.Next();
    var r2 := list.Next();
    end := list.Next();
    names := [r0.value.filename, r1.value.filename, r2.value.filename];
    one := g.FindOne(Query(ByFilename("file.1"), false));
    byName := g.FindOneByFilename("file.1");
  }

  /** Of the three saved files, all come back in the order they were saved
      when ordered by filename, and only the second is named "file.1". */
  lemma ThreeFiles(rs: seq<FileRecord>)
    requires rs == [Saved(1, "file.0"), Saved(2, "file.1"), Saved(3, "file.2")]
    ensures Results(rs, Query(All, true)) == rs
    ensures Results(rs, Query(ByFilename("file.1"), false)) == [rs[1]]
  {
    FileNamesOrdered();
    SortSortedIsIdentity(rs);
    assert rs[1..][1..][1..] == [];
    assert Select(rs, All) == rs;
    assert "file.0" != "file.1" && "file.2" != "file.1";
  }

  /** "file.0", "file.1" and "file.2" are in filename order. */
  lemma FileNamesOrdered()
    ensures SortedByName([Saved(1, "file.0"), Saved(2, "file.1"), Saved(3, "file.2")])
  {
    assert "file.0" == "file." + ['0'] + "" && "file.1" == "file." + ['1'] + "" && "file.2" == "file." + ['2'] + "";
    StrLeAtDifference("file.", '0', '1', "", "");
    StrLeAtDifference("file.", '0', '2', "", "");
    StrLeAtDifference("file.", '1', '2', "", "");
  }

  /** The remove test: after a saved file is removed through its handle, no
      file with its name is found and no chunks remain under its id. */
  method RemoveByHandle() returns (found: Option<FileRecord>, chunksLeft: bool)
    ensures found == None && !chunksLeft
  {
    var g := SaveNewFiles(["test-remove"]);
    g.Remove(1);
    assert g.files == [] by {
      assert Reject([Saved(1, "test-remove")], ById(1)) == [];
    }
    found := g.FindOneByFilename("test-remove");
    chunksLeft := 1 in g.store;
  }

  /** The remove-by-filename test: of two saved files, removing
      "foo_file_1.txt" by name leaves it unfound, with no chunks under its
      id, while "foo_file_2.txt" is still found. */
  method RemoveOneByFilename() returns (first: Option<FileRecord>, second: Option<FileRecord>, chunksLeft: bool)
    ensures first == None && second.Some? && second.value.filename == Some("foo_file_2.txt") && !chunksLeft
  {
    var g := SaveNewFiles(["foo_file_1.txt", "foo_file_2.txt"]);
    ghost var rs := g.files;
    assert rs == [Saved(1, "foo_file_1.txt"), Saved(2, "foo_file_2.txt")];
    TwoFiles(rs);
    var removed := g.RemoveByFilename("foo_file_1.txt");
    first := g.FindOneByFilename("foo_file_1.txt");
    second := g.FindOneByFilename("foo_file_2.txt");
    chunksLeft := 1 in g.store;
  }

  /** Removing "foo_file_1.txt" from the two saved files leaves only the
      second, and removes the chunks of id 1 only. */
  lemma TwoFiles(rs: seq<FileRecord>)
    requires rs == [Saved(1, "foo_file_1.txt"), Saved(2, "foo_file_2.txt")]
    ensures Reject(rs, ByFilename("foo_file_1.txt")) == [Saved(2, "foo_file_2.txt")]
    ensures IdsNamed(rs, "foo_file_1.txt") == {1}
  {
    assert "foo_file_2.txt" != "foo_file_1.txt";
    assert rs[1..][1..] == [];
  }
}
