/** The namespace manager of a GridFS bucket: the files collection (one
    metadata record per file), the chunks collection (grouped by
    `files_id`), and the operations that create, save, find and remove
    files. Lookups return records through a forward-only list iterator. */
module Namespace {
  import opened ChunkMath
  import opened Chunks
  import opened CursorCache
  import opened Optional
  import opened GridFSFile

  /** A metadata record of the files collection. */
  datatype FileRecord = FileRecord(id: FileId, filename: Option<string>, chunkSize: nat, length: nat)

  /** A filter over metadata records: everything, the records with a given
      filename, or the record with a given `_id`. */
  datatype Filter = All | ByFilename(name: string) | ById(fid: FileId)

  /** A find request: a filter and whether results are ordered by filename. */
  datatype Query = Query(filter: Filter, orderByFilename: bool)

  predicate Matches(f: Filter, r: FileRecord)
  {
    match f
    case All => true
    case ByFilename(name) => r.filename == Some(name)
    case ById(fid) => r.id == fid
  }

  /** The records matching `f`, in store order. */
  function Select(rs: seq<FileRecord>, f: Filter): (s: seq<FileRecord>)
    ensures |s| <= |rs|
  {
    if rs == [] then []
    else (if Matches(f, rs[0]) then [rs[0]] else []) + Select(rs[1..], f)
  }

  /** The records not matching `f`, in store order: what a delete by `f`
      leaves. */
  function Reject(rs: seq<FileRecord>, f: Filter): (s: seq<FileRecord>)
    ensures |s| <= |rs|
  {
    if rs == [] then []
    else (if Matches(f, rs[0]) then [] else [rs[0]]) + Reject(rs[1..], f)
  }

  /** `Select` keeps exactly the matching records. */
  lemma {:induction false} SelectMembers(rs: seq<FileRecord>, f: Filter, r: FileRecord)
    ensures r in Select(rs, f) <==> r in rs && Matches(f, r)
  {
    if rs != [] {
      SelectMembers(rs[1..], f, r);
      assert rs == [rs[0]] + rs[1..];
    }
  }

  /** `Reject` keeps exactly the records not matching. */
  lemma {:induction false} RejectMembers(rs: seq<FileRecord>, f: Filter, r: FileRecord)
    ensures r in Reject(rs, f) <==> r in rs && !Matches(f, r)
  {
    if rs != [] {
      RejectMembers(rs[1..], f, r);
      assert rs == [rs[0]] + rs[1..];
    }
  }

  /** Byte-wise lexicographic order on strings, as the store compares
      filenames. */
  predicate StrLe(a: string, b: string)
    decreases |a|
  {
    |a| == 0 || (|b| > 0 && (a[0] < b[0] || (a[0] == b[0] && StrLe(a[1..], b[1..]))))
  }

  /** Filename order: a record without a filename sorts first. */
  predicate NameLe(a: Option<string>, b: Option<string>)
  {
    a.None? || (b.Some? && StrLe(a.value, b.value))
  }

  lemma {:induction false} StrLeTotal(a: string, b: string)
    ensures StrLe(a, b) || StrLe(b, a)
    decreases |a|
  {
    if |a| > 0 && |b| > 0 && a[0] == b[0] {
      StrLeTotal(a[1..], b[1..]);
    }
  }

  lemma {:induction false} StrLeTrans(a: string, b: string, c: string)
    requires StrLe(a, b) && StrLe(b, c)
    ensures StrLe(a, c)
    decreases |a|
  {
    if |a| > 0 && a[0] == b[0] && b[0] == c[0] {
      StrLeTrans(a[1..], b[1..], c[1..]);
    }
  }

  /** Two strings that agree up to a first difference compare as the
      characters there do. */
  lemma {:induction false} StrLeAtDifference(p: string, x: char, y: char, s: string, t: string)
    requires x < y
    ensures StrLe(p + [x] + s, p + [y] + t) && !StrLe(p + [y] + t, p + [x] + s)
    decreases |p|
  {
    if |p| > 0 {
      assert (p + [x] + s)[1..] == p[1..] + [x] + s;
      assert (p + [y] + t)[1..] == p[1..] + [y] + t;
      StrLeAtDifference(p[1..], x, y, s, t);
    }
  }

  lemma NameLeTotal(a: Option<string>, b: Option<string>)
    ensures NameLe(a, b) || NameLe(b, a)
  {
    if a.Some? && b.Some? {
      StrLeTotal(a.value, b.value);
    }
  }

  lemma NameLeTrans(a: Option<string>, b: Option<string>, c: Option<string>)
    requires NameLe(a, b) && NameLe(b, c)
    ensures NameLe(a, c)
  {
    if a.Some? {
      StrLeTrans(a.value, b.value, c.value);
    }
  }

  ghost predicate SortedByName(rs: seq<FileRecord>)
  {
    forall i, j :: 0 <= i < j < |rs| ==> NameLe(rs[i].filename, rs[j].filename)
  }

  /** `r` placed before the first record whose filename sorts after it. */
  function InsertByName(r: FileRecord, rs: seq<FileRecord>): (s: seq<FileRecord>)
    ensures |s| == |rs| + 1
  {
    if rs == [] then [r]
    else if NameLe(r.filename, rs[0].filename) then [r] + rs
    else [rs[0]] + InsertByName(r, rs[1..])
  }

  /** The records ordered by filename, as the store returns them for an
      `$orderby: {filename: 1}` query. */
  function SortByName(rs: seq<FileRecord>): (s: seq<FileRecord>)
    ensures |s| == |rs|
  {
    if rs == [] then [] else InsertByName(rs[0], SortByName(rs[1..]))
  }

  lemma {:induction false} InsertKeepsRecords(r: FileRecord, rs: seq<FileRecord>)
    ensures multiset(InsertByName(r, rs)) == multiset(rs) + multiset{r}
  {
    if rs != [] && !NameLe(r.filename, rs[0].filename) {
      InsertKeepsRecords(r, rs[1..]);
      assert rs == [rs[0]] + rs[1..];
    }
  }

  lemma {:induction false} InsertSorted(r: FileRecord, rs: seq<FileRecord>)
    requires SortedByName(rs)
    ensures SortedByName(InsertByName(r, rs))
  {
    if rs != [] {
      var s := InsertByName(r, rs);
      if NameLe(r.filename, rs[0].filename) {
        forall i, j | 0 <= i < j < |s| ensures NameLe(s[i].filename, s[j].filename) {
          if i == 0 && j > 1 {
            NameLeTrans(r.filename, rs[0].filename, rs[j - 1].filename);
          }
        }
      } else {
        NameLeTotal(r.filename, rs[0].filename);
        var rest := InsertByName(r, rs[1..]);
        InsertSorted(r, rs[1..]);
        InsertKeepsRecords(r, rs[1..]);
        forall k | 0 <= k < |rest| ensures NameLe(rs[0].filename, rest[k].filename) {
          assert rest[k] in multiset(rs[1..]) + multiset{r};
          if rest[k] != r {
            var q :| 0 <= q < |rs[1..]| && rs[1..][q] == rest[k];
            assert rs[q + 1] == rest[k];
          }
        }
      }
    }
  }

  /** The sort yields a sorted permutation of its input. */
  lemma {:induction false} SortByNameCorrect(rs: seq<FileRecord>)
    ensures SortedByName(SortByName(rs))
    ensures multiset(SortByName(rs)) == multiset(rs)
  {
    if rs != [] {
      SortByNameCorrect(rs[1..]);
      InsertSorted(rs[0], SortByName(rs[1..]));
      InsertKeepsRecords(rs[0], SortByName(rs[1..]));
      assert rs == [rs[0]] + rs[1..];
    }
  }

  /** Records already in filename order are left as they are. */
  lemma {:induction false} SortSortedIsIdentity(rs: seq<FileRecord>)
    requires SortedByName(rs)
    ensures SortByName(rs) == rs
  {
    if rs != [] {
      SortSortedIsIdentity(rs[1..]);
      if |rs| > 1 {
        assert NameLe(rs[0].filename, rs[1].filename);
      }
    }
  }

  /** What a find returns: the matching records, ordered by filename when
      requested and in store order otherwise. */
  function Results(rs: seq<FileRecord>, q: Query): seq<FileRecord>
  {
    if q.orderByFilename then SortByName(Select(rs, q.filter)) else Select(rs, q.filter)
  }

  /** A find returns exactly the matching records, sorted when the query
      asks for filename order. */
  lemma ResultsCorrect(rs: seq<FileRecord>, q: Query, r: FileRecord)
    ensures r in Results(rs, q) <==> r in rs && Matches(q.filter, r)
    ensures multiset(Results(rs, q)) == multiset(Select(rs, q.filter))
    ensures q.orderByFilename ==> SortedByName(Results(rs, q))
  {
    SelectMembers(rs, q.filter, r);
    if q.orderByFilename {
      SortByNameCorrect(Select(rs, q.filter));
      assert r in Results(rs, q) <==> r in multiset(Results(rs, q));
    }
  }

  /** The ids of the records named `name`. */
  function IdsNamed(rs: seq<FileRecord>, name: string): (ids: set<FileId>)
    ensures forall fid :: fid in ids <==> exists i :: 0 <= i < |rs| && rs[i].filename == Some(name) && rs[i].id == fid
  {
    set i | 0 <= i < |rs| && rs[i].filename == Some(name) :: rs[i].id
  }

  /** Every record's chunks are in the store under its id, and they make up
      a file of the record's chunk size and length. */
  ghost predicate Stored(rs: seq<FileRecord>, store: map<FileId, ChunkMap>)
  {
    forall r :: r in rs ==> r.id in store && WellFormed(store[r.id], r.chunkSize, r.length)
  }

  /** A forward-only list of find results: each `Next` yields the next
      record until the list is exhausted. */
  class FileList {
    const items: seq<FileRecord>
    var index: nat

    constructor (items: seq<FileRecord>)
      ensures this.items == items && index == 0
    {
      this.items := items;
      index := 0;
    }

    method Next() returns (r: Option<FileRecord>)
      modifies this`index
      ensures old(index) < |items| ==> r == Some(items[old(index)]) && index == old(index) + 1
      ensures old(index) >= |items| ==> r == None && index == old(index)
    {
      if index < |items| {
        r := Some(items[index]);
        index := index + 1;
      } else {
        r := None;
      }
    }
  }

  /** A GridFS bucket: its files collection in store order, its chunks
      collection grouped by `files_id`, and the id the next created file
      receives. */
  class GridFS {
    var files: seq<FileRecord>
    var store: map<FileId, ChunkMap>
    var nextId: FileId
    /** The chunk size a file created without one receives. */
    const defaultChunkSize: nat
    const batchSize: nat

    /** `_id` is unique in the files collection, only ids handed out by
        `CreateFile` occur, and every record's chunks are stored under its
        id, laid out for its chunk size and length. */
    ghost predicate Valid()
      reads this`files, this`store, this`nextId
    {
      && defaultChunkSize > 0 && batchSize > 0 && nextId > 0
      && (forall i, j :: 0 <= i < j < |files| ==> files[i].id != files[j].id)
      && (forall i :: 0 <= i < |files| ==> 0 < files[i].id < nextId)
      && (forall fid :: fid in store ==> 0 < fid < nextId)
      && Stored(files, store)
    }

    constructor (defaultChunkSize: nat, batchSize: nat)
      requires defaultChunkSize > 0 && batchSize > 0
      ensures Valid() && files == [] && store == map[] && nextId == 1
      ensures this.defaultChunkSize == defaultChunkSize && this.batchSize == batchSize
    {
      this.defaultChunkSize := defaultChunkSize;
      this.batchSize := batchSize;
      files := [];
      store := map[];
      nextId := 1;
    }

    /** A new, empty and unsaved file with a fresh id; a chunk size of 0
        selects the bucket's default. */
    method CreateFile(filename: Option<string>, chunkSize: nat) returns (f: File)
      requires Valid()
      modifies this`nextId
      ensures Valid() && fresh(f) && f.Valid()
      ensures f.id == old(nextId) && nextId == old(nextId) + 1
      ensures f.filename == filename && f.chunkSize == (if chunkSize == 0 then defaultChunkSize else chunkSize)
      ensures f.length == 0 && f.pos == 0 && f.Contents() == [] && f.cache == Fresh
    {
      f := new File(nextId, filename, chunkSize, defaultChunkSize, batchSize);
      nextId := nextId + 1;
    }

    /** Saves a file handle: its metadata record replaces the record with
        the same `_id` in place, or is appended when there is none, and its
        chunks become the chunks stored under its id. */
    method Save(f: File)
      requires Valid() && f.Valid() && 0 < f.id < nextId
      modifies this`files, this`store
      ensures Valid()
      ensures files == Upsert(old(files), FileRecord(f.id, f.filename, f.chunkSize, f.length))
      ensures store == old(store)[f.id := f.chunks]
    {
      var rec := FileRecord(f.id, f.filename, f.chunkSize, f.length);
      UpsertIds(files, rec);
      assert Stored(Upsert(files, rec), store[f.id := f.chunks]);
      files := Upsert(files, rec);
      store := store[f.id := f.chunks];
    }

    /** Opens a stored file: a handle on the record's metadata and on the
        chunks stored under its id, at position 0 and with no cursor. */
    method Open(rec: FileRecord) returns (f: File)
      requires Valid() && rec in files
      ensures fresh(f) && f.Valid()
      ensures f.id == rec.id && f.filename == rec.filename && f.chunkSize == rec.chunkSize && f.length == rec.length
      ensures f.chunks == store[rec.id] && f.Contents() == FileBytes(store[rec.id], rec.chunkSize, rec.length)
      ensures f.pos == 0 && f.cache == Fresh && f.merges == 0
    {
      f := new File.Opened(rec.id, rec.filename, rec.chunkSize, batchSize, rec.length, store[rec.id]);
    }

    /** The records a query selects, as a list to iterate. */
    method Find(q: Query) returns (list: FileList)
      ensures fresh(list) && list.items == Results(files, q) && list.index == 0
    {
      list := new FileList(Results(files, q));
    }

    /** The first record a query selects, if any. */
    method FindOne(q: Query) returns (r: Option<FileRecord>)
      ensures r.None? <==> Results(files, q) == []
      ensures r.Some? ==> r.value == Results(files, q)[0]
    {
      var list := Find(q);
      r := list.Next();
    }

    /** The first record, in store order, with the given filename. */
    method FindOneByFilename(name: string) returns (r: Option<FileRecord>)
      ensures r.None? <==> forall i :: 0 <= i < |files| ==> files[i].filename != Some(name)
      ensures r.Some? ==> r.value in files && r.value.filename == Some(name)
    {
      r := FindOne(Query(ByFilename(name), false));
      FirstSelected(files, ByFilename(name));
    }

    /** Removes the file `fid`: its metadata record and every chunk stored
        under its id. */
    method Remove(fid: FileId)
      requires Valid()
      modifies this`files, this`store
      ensures Valid()
      ensures files == Reject(old(files), ById(fid))
      ensures store == old(store) - {fid}
    {
      RejectKeepsValid(files, ById(fid), nextId);
      RejectIdStored(files, fid, store);
      files := Reject(files, ById(fid));
      store := store - {fid};
    }

    /** Removes every file named `name`: first collects their ids, then
        deletes the metadata records by filename and the chunks by
        `files_id`. Returns how many files were removed. */
    method RemoveByFilename(name: string) returns (removed: nat)
      requires Valid()
      modifies this`files, this`store
      ensures Valid()
      ensures files == Reject(old(files), ByFilename(name))
      ensures store == old(store) - IdsNamed(old(files), name)
      ensures removed == |Select(old(files), ByFilename(name))|
    {
      var ids;
      ids, removed := CollectNamed(files, name);
      RejectKeepsValid(files, ByFilename(name), nextId);
      RejectNamedStored(files, name, store);
      files := Reject(files, ByFilename(name));
      store := store - ids;
    }
  }

  /** Scans the files collection for the records named `name`: their ids,
      and how many there are. */
  method CollectNamed(rs: seq<FileRecord>, name: string) returns (ids: set<FileId>, count: nat)
    ensures ids == IdsNamed(rs, name)
    ensures count == |Select(rs, ByFilename(name))|
  {
    ids, count := {}, 0;
    var i := 0;
    while i < |rs|
      invariant i <= |rs|
      invariant ids == IdsNamed(rs[..i], name)
      invariant count == |Select(rs[..i], ByFilename(name))|
    {
      SelectSnoc(rs, i, ByFilename(name));
      if rs[i].filename == Some(name) {
        ids := ids + {rs[i].id};
        count := count + 1;
      }
      i := i + 1;
    }
    assert rs[..i] == rs;
  }

  /** The files collection after saving `rec`: the record with its `_id`
      replaced in place, or `rec` appended. */
  function Upsert(rs: seq<FileRecord>, rec: FileRecord): (s: seq<FileRecord>)
  {
    if rs == [] then [rec]
    else if rs[0].id == rec.id then [rec] + rs[1..]
    else [rs[0]] + Upsert(rs[1..], rec)
  }

  /** Saving adds no record but the saved one, and leaves every record with
      another id in place. */
  lemma {:induction false} UpsertMembers(rs: seq<FileRecord>, rec: FileRecord)
    requires forall i, j :: 0 <= i < j < |rs| ==> rs[i].id != rs[j].id
    ensures forall r :: r in Upsert(rs, rec) <==> r == rec || (r in rs && r.id != rec.id)
  {
    if rs != [] {
      assert rs == [rs[0]] + rs[1..];
      if rs[0].id == rec.id {
        forall r | r in rs[1..] ensures r.id != rec.id {
          var q :| 0 <= q < |rs[1..]| && rs[1..][q] == r;
          assert rs[q + 1] == r;
        }
      } else {
        UpsertMembers(rs[1..], rec);
      }
    }
  }

  /** No record after the first shares the first record's `_id`. */
  lemma HeadIdFresh(rs: seq<FileRecord>)
    requires rs != []
    requires forall i, j :: 0 <= i < j < |rs| ==> rs[i].id != rs[j].id
    ensures forall r :: r in rs[1..] ==> r.id != rs[0].id
  {
    forall r | r in rs[1..] ensures r.id != rs[0].id {
      var q :| 0 <= q < |rs[1..]| && rs[1..][q] == r;
      assert rs[q + 1] == r;
    }
  }

  /** Putting a record with a fresh `_id` in front keeps `_id` unique. */
  lemma ConsUnique(x: FileRecord, t: seq<FileRecord>)
    requires forall i, j :: 0 <= i < j < |t| ==> t[i].id != t[j].id
    requires forall r :: r in t ==> r.id != x.id
    ensures forall i, j :: 0 <= i < j < |[x] + t| ==> ([x] + t)[i].id != ([x] + t)[j].id
  {
    forall i, j | 0 <= i < j < |[x] + t| ensures ([x] + t)[i].id != ([x] + t)[j].id {
      assert ([x] + t)[j] == t[j - 1];
      assert t[j - 1] in t;
      if i > 0 {
        assert ([x] + t)[i] == t[i - 1];
      }
    }
  }

  /** Saving keeps `_id` unique, adds no id but the saved one, and leaves
      every record with another id in place. */
  lemma {:induction false} UpsertIds(rs: seq<FileRecord>, rec: FileRecord)
    requires forall i, j :: 0 <= i < j < |rs| ==> rs[i].id != rs[j].id
    ensures forall i, j :: 0 <= i < j < |Upsert(rs, rec)| ==> Upsert(rs, rec)[i].id != Upsert(rs, rec)[j].id
    ensures forall r :: r in Upsert(rs, rec) <==> r == rec || (r in rs && r.id != rec.id)
  {
    UpsertMembers(rs, rec);
    if rs != [] {
      HeadIdFresh(rs);
      assert rs == [rs[0]] + rs[1..];
      if rs[0].id == rec.id {
        ConsUnique(rec, rs[1..]);
      } else {
        UpsertIds(rs[1..], rec);
        ConsUnique(rs[0], Upsert(rs[1..], rec));
      }
    }
  }

  /** Deleting records keeps `_id` unique and adds no id. */
  lemma RejectKeepsValid(rs: seq<FileRecord>, f: Filter, nextId: FileId)
    requires forall i, j :: 0 <= i < j < |rs| ==> rs[i].id != rs[j].id
    requires forall i :: 0 <= i < |rs| ==> 0 < rs[i].id < nextId
    ensures forall i, j :: 0 <= i < j < |Reject(rs, f)| ==> Reject(rs, f)[i].id != Reject(rs, f)[j].id
    ensures forall i :: 0 <= i < |Reject(rs, f)| ==> 0 < Reject(rs, f)[i].id < nextId
  {
    SubsequenceIds(rs, f);
  }

  /** `Reject` keeps a subsequence of the records: every kept record sits at
      a later position than the kept records before it. */
  lemma {:induction false} SubsequenceIds(rs: seq<FileRecord>, f: Filter)
    requires forall i, j :: 0 <= i < j < |rs| ==> rs[i].id != rs[j].id
    ensures forall i, j :: 0 <= i < j < |Reject(rs, f)| ==> Reject(rs, f)[i].id != Reject(rs, f)[j].id
    ensures forall i :: 0 <= i < |Reject(rs, f)| ==> Reject(rs, f)[i] in rs
  {
    if rs != [] {
      var rest := Reject(rs[1..], f);
      SubsequenceIds(rs[1..], f);
      forall i | 0 <= i < |rest| ensures rest[i] in rs && rest[i].id != rs[0].id {
        var q :| 0 <= q < |rs[1..]| && rs[1..][q] == rest[i];
        assert rs[q + 1] == rest[i];
      }
    }
  }

  /** One more record in the prefix adds it to the selection when it
      matches, and its id to the named ids when it carries the name. */
  lemma SelectSnoc(rs: seq<FileRecord>, i: nat, f: Filter)
    requires i < |rs|
    ensures |Select(rs[..i + 1], f)| == |Select(rs[..i], f)| + if Matches(f, rs[i]) then 1 else 0
    ensures forall name :: IdsNamed(rs[..i + 1], name) == IdsNamed(rs[..i], name) + if rs[i].filename == Some(name) then {rs[i].id} else {}
  {
    SelectAppend(rs[..i], [rs[i]], f);
    assert rs[..i + 1] == rs[..i] + [rs[i]];
  }

  lemma ConcatAssoc<T>(a: seq<T>, b: seq<T>, c: seq<T>)
    ensures a + (b + c) == (a + b) + c
  {
  }

  lemma {:induction false} SelectAppend(xs: seq<FileRecord>, ys: seq<FileRecord>, f: Filter)
    ensures Select(xs + ys, f) == Select(xs, f) + Select(ys, f)
  {
    if xs == [] {
      assert xs + ys == ys;
    } else {
      var h := if Matches(f, xs[0]) then [xs[0]] else [];
      assert (xs + ys)[0] == xs[0];
      assert (xs + ys)[1..] == xs[1..] + ys;
      assert Select(xs + ys, f) == h + Select(xs[1..] + ys, f);
      SelectAppend(xs[1..], ys, f);
      var a, b := Select(xs[1..], f), Select(ys, f);
      assert Select(xs, f) == h + a;
      ConcatAssoc(h, a, b);
    }
  }

  /** The first selected record is a record of the collection that matches;
      there is none exactly when no record matches. */
  lemma FirstSelected(rs: seq<FileRecord>, f: Filter)
    ensures Select(rs, f) == [] <==> forall i :: 0 <= i < |rs| ==> !Matches(f, rs[i])
    ensures Select(rs, f) != [] ==> Select(rs, f)[0] in rs && Matches(f, Select(rs, f)[0])
  {
    if Select(rs, f) != [] {
      SelectMembers(rs, f, Select(rs, f)[0]);
    } else {
      forall i | 0 <= i < |rs| ensures !Matches(f, rs[i]) {
        SelectMembers(rs, f, rs[i]);
      }
    }
  }

  /** After removing by filename from a collection whose ids are unique, no
      record with that name remains and every other record is still there,
      and in the store left behind every remaining record keeps the chunks
      stored under its id. */
  lemma RemovedByFilename(rs: seq<FileRecord>, name: string, store: map<FileId, ChunkMap>, r: FileRecord)
    requires forall i, j :: 0 <= i < j < |rs| ==> rs[i].id != rs[j].id
    ensures forall i :: 0 <= i < |Reject(rs, ByFilename(name))| ==> Reject(rs, ByFilename(name))[i].filename != Some(name)
    ensures r in rs && r.filename != Some(name) ==> r in Reject(rs, ByFilename(name))
    ensures r in Reject(rs, ByFilename(name)) && r.id in store ==>
      r.id in store - IdsNamed(rs, name) && (store - IdsNamed(rs, name))[r.id] == store[r.id]
  {
    RejectMembers(rs, ByFilename(name), r);
    forall i | 0 <= i < |Reject(rs, ByFilename(name))| ensures Reject(rs, ByFilename(name))[i].filename != Some(name) {
      RejectMembers(rs, ByFilename(name), Reject(rs, ByFilename(name))[i]);
    }
    if r in Reject(rs, ByFilename(name)) {
      var j :| 0 <= j < |rs| && rs[j] == r;
      assert r.id !in IdsNamed(rs, name) by {
        forall i | 0 <= i < |rs| && rs[i].filename == Some(name) ensures rs[i].id != r.id {
          assert i != j;
        }
      }
    }
  }

  /** Removing the records named `name` and their chunks keeps every
      remaining record's chunks stored. */
  lemma RejectNamedStored(rs: seq<FileRecord>, name: string, store: map<FileId, ChunkMap>)
    requires forall i, j :: 0 <= i < j < |rs| ==> rs[i].id != rs[j].id
    requires Stored(rs, store)
    ensures Stored(Reject(rs, ByFilename(name)), store - IdsNamed(rs, name))
  {
    forall r | r in Reject(rs, ByFilename(name))
      ensures r.id in store - IdsNamed(rs, name) && WellFormed((store - IdsNamed(rs, name))[r.id], r.chunkSize, r.length)
    {
      RejectMembers(rs, ByFilename(name), r);
      RemovedByFilename(rs, name, store, r);
    }
  }

  /** Removing file `fid` and its chunks keeps every remaining record's
      chunks stored. */
  lemma RejectIdStored(rs: seq<FileRecord>, fid: FileId, store: map<FileId, ChunkMap>)
    requires Stored(rs, store)
    ensures Stored(Reject(rs, ById(fid)), store - {fid})
  {
    forall r | r in Reject(rs, ById(fid))
      ensures r.id in store - {fid} && WellFormed((store - {fid})[r.id], r.chunkSize, r.length)
    {
      RejectMembers(rs, ById(fid), r);
    }
  }

  /** After removing file `fid`, no record with that id remains and every
      other record is still there. */
  lemma RemovedById(rs: seq<FileRecord>, fid: FileId, r: FileRecord)
    ensures forall i :: 0 <= i < |Reject(rs, ById(fid))| ==> Reject(rs, ById(fid))[i].id != fid
    ensures r in rs && r.id != fid ==> r in Reject(rs, ById(fid))
  {
    RejectMembers(rs, ById(fid), r);
    forall i | 0 <= i < |Reject(rs, ById(fid))| ensures Reject(rs, ById(fid))[i].id != fid {
      RejectMembers(rs, ById(fid), Reject(rs, ById(fid))[i]);
    }
  }
}
