# GridFS file handles, modelled and proved in Dafny

A model of the GridFS layer of the MongoDB C driver, as its test suite
`tests/test-mongoc-gridfs.c` fixes it. GridFS stores a file as one metadata
record in a files collection and as fixed-size chunk records
`{files_id, n, data}` in a chunks collection. The model covers three things.

- **The open file handle** (`GridFSFile.File`). It holds a chunk size, a
  length, a position, the file's chunks as a map from `n` to bytes, and a
  read-cursor cache. `Seek` and `Tell` behave like POSIX `lseek`:
  - `ReadV` scatters the file's bytes from the position into a list of
    caller buffers, filling them in place.
  - `WriteV` gathers a list of buffers and writes them at the position,
    chunk by chunk. It replaces a fully covered chunk outright. It fetches
    a partly covered chunk, merges into it and stores it back.
  - The file's contents are the concatenation of its chunks' data in order
    of `n` (`Chunks.FileBytes`). Every read and write is proved against
    that abstraction.
- **The read-cursor cache** (`CursorCache`). For each chunk a read needs, there are three outcomes:
  - the chunk is in the resident batch, and the cursor is reused;
  - the chunk comes right after the batch, and the cursor is continued;
  - otherwise the cursor is killed and a new range query is issued: the file's
    `files_id`, `n >= pos / chunkSize`, ordered by `n` ascending, projecting
    only `n` and `data`.

  Queries issued, cursor ids and killed cursors are logged, which makes the
  reuse-or-reissue decision observable.
- **The namespace manager** (`Namespace.GridFS`). It keeps the metadata
  records and the chunks stored per file. It supports:
  - creating and saving files, and opening a stored file as a handle;
  - `find`, optionally ordered by filename, through a forward-only list;
  - `find_one` and `find_one_by_filename`;
  - `remove` of one file;
  - `remove_by_filename`.

  Removing a file drops its metadata record and all its chunks.

`Scenarios` replays the tests of the suite against the model, except those listed under "Left out". Each replay is a
method whose `ensures` states the outcome the test asserts, proved from the
operations' contracts.

Modules:
- `ChunkMath`: position to chunk index and offset.
- `Bytes`: byte strings, positioned overwrite, bounded read.
- `Iovec`: gather and scatter over buffer lists.
- `Chunks`: the chunk map and its contents, and the chunk-by-chunk write with its fetch count.
- `CursorCache`: the cursor decisions described above.
- `GridFSFile`: the file handle.
- `Namespace`: the bucket.
- `Optional`: an option type.
- `Scenarios`: the replayed tests.

## Model

| member | source | states |
|---|---|---|
| GridFSFile.File.constructor | tests/test-mongoc-gridfs.c:370-380 | a new file is empty, at position 0, with no cursor; a chunk size of 0 in the options selects the default |
| GridFSFile.File.Tell | tests/test-mongoc-gridfs.c:335 | returns the position |
| GridFSFile.File.Seek | tests/test-mongoc-gridfs.c:334-341 | the target is the offset from the start, the position or the length; a negative target is refused and the position is unchanged; otherwise the position becomes the target |
| GridFSFile.SeekInEmptyFile | tests/test-mongoc-gridfs.c:606-613 | in an empty file, seeking by 0 from any origin lands at 0 |
| GridFSFile.File.LoadChunk | tests/test-mongoc-gridfs.c:388-399 | a needed chunk comes through the cursor cache: the cache changes by one `Fetch`, and the data is the stored chunk |
| GridFSFile.File.PageRead | tests/test-mongoc-gridfs.c:484-487 | copies the rest of the current chunk, or as much as fits, into the buffer in place; the copied bytes are the file's bytes at the position; the rest of the buffer is unchanged |
| GridFSFile.File.FillBuffer | tests/test-mongoc-gridfs.c:484-502 | fills one buffer with the file's bytes from the position; it stops early only at the end of the file or, once `minBytes` are read, at a chunk boundary |
| GridFSFile.File.ReadInto | tests/test-mongoc-gridfs.c:484-487 | filling buffer `i` extends the scatter of the bytes read so far by that buffer's share |
| GridFSFile.File.ReadV | tests/test-mongoc-gridfs.c:484-502 | a read at or past the end reads 0 bytes; otherwise the buffers hold the scatter of the file's bytes from the position; the position advances by the bytes read; a short read ends at the end of the file or at a chunk boundary after `minBytes`; the cache changes as `FetchAll` over the chunks the read needed, in order: the chunk of the first byte read first, the chunk of the last byte read last, and each chunk the same as the one before or the next |
| GridFSFile.File.ReadFrom | tests/test-mongoc-gridfs.c:484-502 | the loop over the buffers of `ReadV`, from a position inside the file: the buffers hold the scatter of the file's bytes from the old position to the new one, which is at most the length; the same short-read rule and the same ordered list of needed chunks as `ReadV` |
| Chunks.PageSlice | tests/test-mongoc-gridfs.c:484-487 | the chunk holding a position inside the file exists and runs from it to the chunk's end; its bytes from the position's offset on are the file's bytes from the position |
| GridFSFile.ReissuedReadQueriesOnce | tests/test-mongoc-gridfs.c:421-441 | a read whose first chunk the cursor can neither serve nor reach by continuing issues exactly one range query, from that chunk; it kills the old cursor if one was live, and the new cursor takes the next cursor id |
| GridFSFile.ForwardReadKeepsCursor | tests/test-mongoc-gridfs.c:410-418 | a read inside the file whose first chunk the live cursor serves from its batch or by continuing it issues no query, kills no cursor and keeps the cursor's id, however many chunks it spans |
| GridFSFile.CopyInto | tests/test-mongoc-gridfs.c:484-487 | copies bytes into a buffer at an offset, in place, leaving the rest of the buffer as it was |
| GridFSFile.Gather | tests/test-mongoc-gridfs.c:550 | the bytes of an iovec list are its buffers' bytes, buffer after buffer, and there are as many as the buffers hold |
| GridFSFile.ReadInOneChunk | tests/test-mongoc-gridfs.c:412-418 | a read inside one chunk changes the cache as a single fetch of that chunk, however many pages it copied |
| GridFSFile.File.WriteV | tests/test-mongoc-gridfs.c:549-572 | returns the iovec total; the contents become the old contents overwritten at the position by the gathered bytes; the length becomes `max(length, pos + n)`; the position advances by `n`; the cursor is dropped; a chunk is fetched only when the write covers it in part |
| GridFSFile.File.WriteAt | tests/test-mongoc-gridfs.c:560-572 | writing bytes at the position: the contents, length, position and cache as for `WriteV` |
| GridFSFile.File.WriteChunks | tests/test-mongoc-gridfs.c:560-572 | the new chunk map is well formed for the new length; its contents are the old contents overwritten by the data |
| GridFSFile.WriteTouched | tests/test-mongoc-gridfs.c:549-572 | writing at a start position into a file of a given old length, the returned chunk map is well formed for the new length and holds the old contents overwritten by the data; the returned fetch count is the number of partly covered chunks that already existed |
| GridFSFile.WriteChunk | tests/test-mongoc-gridfs.c:560-572 | after the chunks before `m` are written, writes chunk `m` too, fetching it first exactly when the write covers it only in part; the fetch count then covers chunk `m` as well |
| Bytes.OverwriteAt | tests/test-mongoc-gridfs.c:560-572 | the overwritten file has `max(len, pos + n)` bytes; each is the data's byte inside the written range, else the old byte, else a zero pad byte |
| Bytes.WriteThenRead | tests/test-mongoc-gridfs.c:549-558 | reading back the written range returns the data written |
| Bytes.OverwriteInside | tests/test-mongoc-gridfs.c:560-572 | a write inside the file keeps the length and every byte outside the written range |
| Bytes.OverwriteMiddle | tests/test-mongoc-gridfs.c:560-572 | overwriting the middle part of a concatenation with equally many bytes replaces only that part |
| Bytes.WriteIntoEmpty | tests/test-mongoc-gridfs.c:615-624 | writing into an empty file at 0 leaves exactly the data |
| Bytes.ReadRangeInside | tests/test-mongoc-gridfs.c:484-502 | a read that stays inside the file returns exactly the bytes it spans |
| Iovec.ScatterThenGather | tests/test-mongoc-gridfs.c:484-487 | gathering the buffers after scattering data that fits into them gives the data back at the front; the sizes do not change |
| Iovec.ScatterSizes | tests/test-mongoc-gridfs.c:484-487 | scattering keeps every buffer's size |
| Iovec.ScatterSplit | tests/test-mongoc-gridfs.c:484-487 | the first buffer is filled first, and the rest of the data goes to the later buffers |
| Iovec.ConcatSnoc | tests/test-mongoc-gridfs.c:550 | gathering one more buffer appends its bytes |
| ChunkMath.IndexOf | tests/test-mongoc-gridfs.c:496-500 | position `n * cs + j`, for `j < cs`, is in chunk `n` at offset `j` |
| ChunkMath.InChunk | tests/test-mongoc-gridfs.c:484-502 | every byte of a file lies in an existing chunk, within that chunk's length |
| ChunkMath.ChunkBelowCount | tests/test-mongoc-gridfs.c:549-552 | chunk `n` exists exactly when it starts before the end; only the last chunk can be short |
| Chunks.AssembleIsFlatten | tests/test-mongoc-gridfs.c:549-558 | the contents read byte by byte from the chunks equal the chunks' data concatenated in order of `n` |
| Chunks.FullOverwriteNeedsNoFetch | tests/test-mongoc-gridfs.c:560-572 | a chunk wholly covered by the write becomes the written bytes, whatever it held |
| Chunks.WrittenChunksCorrect | tests/test-mongoc-gridfs.c:549-572 | after a chunk-by-chunk write, the chunk map is well formed for the new length and its contents are the old contents overwritten by the data |
| Chunks.WrittenByte | tests/test-mongoc-gridfs.c:560-572 | each byte of the written file is the byte of the overwritten contents |
| Chunks.FetchAtMostTwo | tests/test-mongoc-gridfs.c:549-572 | a write fetches at most two existing chunks |
| Chunks.MiddleChunkNoFetch | tests/test-mongoc-gridfs.c:549-572 | a chunk a write touches strictly between the first and the last is never fetched: it lies past the old end of the file or the write covers it entirely |
| Chunks.AlignedWriteNeedsNoFetch | tests/test-mongoc-gridfs.c:560-572 | a write that starts on a chunk boundary inside the file, and ends on a boundary or at or past the end, fetches nothing |
| CursorCache.RangeQueryMatches | tests/test-mongoc-gridfs.c:426-434 | the range query selects exactly this file's chunks from `n` on, ordered by `n` ascending, projecting `n` and `data` |
| CursorCache.FetchLoads | tests/test-mongoc-gridfs.c:388-407 | after a fetch of an existing chunk, that chunk is resident and the cache still agrees with the store |
| CursorCache.NoQueryUnlessReissue | tests/test-mongoc-gridfs.c:410-418 | reuse or continuation issues no query, keeps the cursor id and kills nothing |
| CursorCache.ReissueQueries | tests/test-mongoc-gridfs.c:421-441 | a reissue appends the range query for the needed chunk, kills the old cursor and installs one with a different id |
| CursorCache.FetchAllResident | tests/test-mongoc-gridfs.c:410-418 | a read whose chunks are all resident leaves the cache unchanged |
| CursorCache.FetchAllSame | tests/test-mongoc-gridfs.c:412-418 | needing the same existing chunk repeatedly is one fetch |
| CursorCache.FetchAllAppend | tests/test-mongoc-gridfs.c:484-502 | needing `xs` and then `ys` is needing `xs + ys` |
| CursorCache.FetchAllConsistent | tests/test-mongoc-gridfs.c:383-441 | fetching existing chunks keeps the cache consistent with the store |
| CursorCache.ReadAfterDropQueries | tests/test-mongoc-gridfs.c:560-572 | after a write drops the cursor, the next read's first chunk is never served from a batch: it issues the range query from that chunk and gets a cursor with a new id |
| CursorCache.SequentialKeepsCursor | tests/test-mongoc-gridfs.c:410-418 | a forward run of chunks whose first the cursor can serve by reuse or continuation issues no query, kills nothing, keeps the cursor id and leaves its last chunk resident |
| Namespace.GridFS.constructor | tests/test-mongoc-gridfs.c:166-168 | a new bucket has no files and no chunks |
| Namespace.GridFS.CreateFile | tests/test-mongoc-gridfs.c:98 | a new empty file with a fresh id, the given name and chunk size, or the default chunk size when 0 is given |
| Namespace.GridFS.Save | tests/test-mongoc-gridfs.c:100 | the file's record replaces the one with its id, or is appended; its chunks are stored under its id |
| Namespace.GridFS.Open | tests/test-mongoc-gridfs.c:191-212 | a found record opens as a handle on its metadata and on the chunks stored under its id, at position 0 and with no cursor, so its contents are the stored chunks' bytes |
| GridFSFile.File.Opened | tests/test-mongoc-gridfs.c:191-212 | a handle on a stored file of the given length and chunks, at position 0, with no cursor |
| Namespace.GridFS.Find | tests/test-mongoc-gridfs.c:186 | the list holds the query's results |
| Namespace.FileList.Next | tests/test-mongoc-gridfs.c:191-196 | yields the next record and advances, or nothing at the end |
| Namespace.GridFS.FindOne | tests/test-mongoc-gridfs.c:200-206 | nothing exactly when no record matches, otherwise the first result |
| Namespace.GridFS.FindOneByFilename | tests/test-mongoc-gridfs.c:209-214 | nothing exactly when no file has that name, otherwise a file with that name |
| Namespace.GridFS.Remove | tests/test-mongoc-gridfs.c:136-141 | drops the file's record and all its chunks |
| Namespace.GridFS.RemoveByFilename | tests/test-mongoc-gridfs.c:707-716 | drops every record with that name and their chunks, and nothing else; returns how many were removed |
| Namespace.ResultsCorrect | tests/test-mongoc-gridfs.c:186-196 | a result is exactly a matching record; the results are a permutation of the matching records; they are sorted when ordered by filename |
| Namespace.SortByNameCorrect | tests/test-mongoc-gridfs.c:177-183 | sorting by filename gives a sorted permutation |
| Namespace.SortSortedIsIdentity | tests/test-mongoc-gridfs.c:186-196 | records already in filename order are left as they are |
| Namespace.SelectMembers | tests/test-mongoc-gridfs.c:200-206 | selection keeps exactly the matching records |
| Namespace.RejectMembers | tests/test-mongoc-gridfs.c:707-716 | deletion keeps exactly the records that do not match |
| Namespace.StrLeAtDifference | tests/test-mongoc-gridfs.c:191-194 | strings that agree up to a first difference compare as the characters there do |
| Namespace.StrLeTotal | tests/test-mongoc-gridfs.c:177-183 | filename order is total |
| Namespace.StrLeTrans | tests/test-mongoc-gridfs.c:177-183 | filename order is transitive |
| Namespace.CollectNamed | tests/test-mongoc-gridfs.c:707-716 | the loop over the files collection collects exactly the ids of the records with the name, and counts them |
| Namespace.UpsertMembers | tests/test-mongoc-gridfs.c:171-176 | saving adds no record but the saved one, and keeps exactly the records whose id differs from the saved id |
| Namespace.UpsertIds | tests/test-mongoc-gridfs.c:171-176 | saving keeps `_id` unique, and leaves the saved record and the records with other ids |
| Namespace.RemovedByFilename | tests/test-mongoc-gridfs.c:707-716 | after removing by name from a collection with unique ids, no record has that name and every other record remains; the store left behind keeps every remaining record's chunks |
| Namespace.RejectNamedStored | tests/test-mongoc-gridfs.c:707-716 | removing by name keeps every remaining record's chunks stored and well-formed |
| Namespace.RejectIdStored | tests/test-mongoc-gridfs.c:136-141 | removing one file keeps every other record's chunks stored and well-formed |
| Namespace.RemovedById | tests/test-mongoc-gridfs.c:136-141 | after removing a file, no record has its id and every other record remains |
| Scenarios.SeekInFile | tests/test-mongoc-gridfs.c:334-341 | seek(0, SET) gives 0; seek(chunkSize + 1, CUR) then gives chunkSize + 1; seek(0, END) gives the length |
| Scenarios.EmptyFile | tests/test-mongoc-gridfs.c:606-624 | in an empty file, every seek to 0 gives 0 and a read gives 0; writing "hi" returns 2; reading back 2 bytes gives "hi" |
| Scenarios.ReadTwenty | tests/test-mongoc-gridfs.c:484-487 | a read of 20 into two buffers of 10 returns 20, and the buffers receive the file's bytes from the position |
| Scenarios.ReadAcrossChunks | tests/test-mongoc-gridfs.c:484-502 | reads of 20 at 0, 1 and chunkSize - 1 each return 20, and each read's two buffers hold the file's bytes `[o, o + 10)` and `[o + 10, o + 20)` from its offset `o`; the last leaves tell at chunkSize + 19 |
| Scenarios.ReadFromStart | tests/test-mongoc-gridfs.c:553-558 | after seek(0), reading the whole length returns it, and the buffer holds the contents |
| Scenarios.OverwriteExample | tests/test-mongoc-gridfs.c:560-572 | " baz" written at offset 2 of "foo bar baz" gives "fo bazr baz" |
| Scenarios.WriteAcrossPages | tests/test-mongoc-gridfs.c:546-558 | with chunk size 2, writing "foo bar" and " baz" returns 11, fetches no chunk, and reads back as "foo bar baz" |
| Scenarios.OverwriteOnBoundaries | tests/test-mongoc-gridfs.c:560-572 | writing " baz" at offset 2 returns 4, fetches no chunk, keeps the length at 11, and reads back as "fo bazr baz" |
| Scenarios.WriteAndOverwrite | tests/test-mongoc-gridfs.c:546-572 | the whole write test, run in sequence |
| Scenarios.ReadChunk | tests/test-mongoc-gridfs.c:386-399 | a read from the start of a chunk, asking for fewer bytes than a chunk, returns the whole chunk and changes the cache by one fetch |
| Scenarios.LongSeek | tests/test-mongoc-gridfs.c:383-441 | chunk size 4, batches of 2. The first read issues the range query from chunk 0 and opens a cursor. A read of chunk 1 issues no query and keeps the cursor id. A read of chunk 4 issues the range query from chunk 4, kills the old cursor, and gets a new id |
| Scenarios.SaveNewFiles | tests/test-mongoc-gridfs.c:169-176 | creating and saving one file per name, in order, on a fresh bucket leaves exactly those records, the `k`-th with id `k + 1` and the `k`-th name |
| Scenarios.SaveNew | tests/test-mongoc-gridfs.c:170-174 | creating and saving an empty file appends its record, with the next id and the name, and keeps the bucket valid |
| Scenarios.ListFiles | tests/test-mongoc-gridfs.c:170-214 | "file.0", "file.1" and "file.2" are listed in that order, and then the list ends; find_one and find_one_by_filename for "file.1" return "file.1" |
| Scenarios.ThreeFiles | tests/test-mongoc-gridfs.c:186-206 | the three files sort as saved; only the second is named "file.1" |
| Scenarios.RemoveByHandle | tests/test-mongoc-gridfs.c:130-141 | after save and remove, the name is not found and no chunk remains under the id |
| Scenarios.RemoveOneByFilename | tests/test-mongoc-gridfs.c:695-716 | removing "foo_file_1.txt" by name leaves it unfound with no chunks; "foo_file_2.txt" is still found |
| Scenarios.TwoFiles | tests/test-mongoc-gridfs.c:695-716 | removing "foo_file_1.txt" from the two saved files leaves only the second and removes the chunks of its id only |
| Scenarios.CreateAndSave | tests/test-mongoc-gridfs.c:81-106 | a file created without options and saved is one record with no name, the default chunk size and length 0, with no chunks |
| Scenarios.SaveThenOpen | tests/test-mongoc-gridfs.c:97-99 | a saved file opened again from its record has the saved handle's length, chunk size and contents |

## Left out

- The production implementation (`mongoc-gridfs.c`, `mongoc-gridfs-file.c` and the list and stream sources) is not part of this model. Its behaviour is modelled from what the test suite pins.
- The mock server (its request and reply matching and futures), the real client, and the wire and BSON encodings are out because they are I/O. The store is an in-memory map, and the queries it receives are logged.
- The `createIndexes` commands are out: index provisioning is taken as given.
- Collection-name generation and `drop` exist only to isolate tests.
- Creating a file from an OS stream, and the stream adapter, are out because they are file I/O. The empty-file test starts from a new empty file instead.
- md5, upload date, aliases, content type and metadata documents are not computed. They are only read back, so file records carry only id, name, chunk size and length.
- Store failures and the `bson_error_t` paths are out. The model's store never fails, so `Save`, `Remove` and `RemoveByFilename` always succeed.
- Positions and lengths are unbounded naturals, not the driver's 64-bit integers. A negative seek target is refused.
- A write past the end of the file pads the gap with zero bytes. No test writes past the end, so this padding policy is a choice of the model.
- `WriteV` writes the touched chunks into the handle's own chunk map (`File.chunks`). The bucket's store (`GridFS.store`) changes only in `Save`, so chunks written after the last save do not reach the bucket. The driver buffers the current chunk's bytes and writes them to the chunks collection when a write crosses a chunk boundary, when the handle is saved, and when it is destroyed. The stored bytes after a save, and every byte a read returns, are the same either way.
- `WriteTouched` builds the new chunk map as a value, chunk by chunk, and returns it; `File.WriteChunks` stores it in `File.chunks` once the loop ends. The driver writes each chunk as it goes. Nothing reads the chunks in between, so the result is the same.
- A write drops the read cursor, since its batch may hold chunks the write has replaced.
- A cursor batch is modelled as a run of chunks: the cursor's first chunk and a size given by the store's batch size.
- A seek backwards to a chunk that is still in the cursor's batch is served from the batch without a query, like any resident chunk. The model's reuse is therefore not limited to forward continuation.
- `readv` with `minBytes`: a read stops early only at the end of the file or, once at least `minBytes` bytes are read, at a chunk boundary.
- Scenarios.LongSeek: uses a file of 5 chunks (20 bytes) instead of the 16-byte length the test assigns, so its last read is inside the file. In the test, the last read at line 439 starts at the length and its 2 bytes come from the mock reply.
- Scenarios.LongSeek: expects the first range query to start at chunk 0, not the `$gte 1` of line 394, which is an artefact of the mock. The model does not claim the byte counts of the fake replies.
- Scenarios.ReadAcrossChunks: states the buffers' bytes as slices of the file's contents, not as the literal text of `gridfs-large.dat`, whose contents are not part of this model.
- Scenarios.ReadFromStart: requires the read length to equal the file's length, which is the test's case. A shorter request may read on to the next chunk boundary.
- Namespace.GridFS.FindOneByFilename: states that a found file has the name, and not which of several such files is returned.
- `mongoc_gridfs_file_list_next` returns file handles, and `Namespace.FileList.Next` returns metadata records. The caller opens a record as a `GridFSFile.File` with `Namespace.GridFS.Open`.
- `ReadV`, `ReadFrom` and `ReadInto` require the iovec's buffers to be distinct arrays. The C `readv` accepts iovecs that alias each other, where a later buffer overwrites bytes an earlier one received. The model does not capture that case.
- `test_properties`, `test_create_from_stream` and `test_stream` are out: they only read back stored fields or go through OS streams.
