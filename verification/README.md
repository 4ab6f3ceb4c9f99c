# Resumable chunked upload: a Dafny model

This project models the resumable chunked-transfer protocol of a large-file
uploader. It has a server half and a client half.

The **server** (an Express router over two Mongo collections) has three routes:

- `POST /uploads/init` creates an upload session, or resumes the one that already exists for the same file name and size.
- `POST /uploads/:uploadId/chunk?chunkIndex=k` streams one chunk into a per-upload backing file at byte offset `k · 5 MiB`. It records the chunk under a unique `(uploadId, chunkIndex)` index.
- `POST /uploads/:uploadId/finalize` checks that the number of chunk records equals `totalChunks`. It then hashes the file with SHA-256, lists the ZIP entries (best effort) and marks the session COMPLETED.

The **client** (a React component) does the following:

- It slices the file into 5 MiB chunks.
- It skips the indices the server reports as already received.
- It sends each remaining chunk with up to three retries and exponential backoff (500, 1000 and 2000 ms).
- It drains the queue through a pool of three workers, reporting a percentage after each chunk.
- It then asks the server to finalize.

Modules, one per source component:

| module | file | models |
|---|---|---|
| `Results` | results.dfy | `Option` and `Result`, used for validation failures and absent values |
| `JsMath` | js_math.dfy | `Math.ceil` of a quotient, `Math.round` of a percentage, `Math.pow(2, k)` on exact integers |
| `ChunkModel` | chunk_model.dfy | the chunk document: its schema validation, the unique compound index, `find` and `countDocuments` |
| `UploadModel` | upload_model.dfy | the upload session document: its schema validation and status names |
| `ChunkStore` | chunk_store.dfy | the backing file and its only mutation: a positional write through a stream opened `r+` |
| `UploadRoutes` | upload_routes.dfy | the three routes as pure functions over a `Server` (the ledger plus the backing files) |
| `App` | app.dfy | the client: `createChunks`, the resume filter, the initial status map, `uploadChunk`, `uploadChunksWithLimit`, `startUpload` |
| `Reassembly` | reassembly.dfy | client and server together: slices delivered in any order reassemble the file |
| `IndexRange` | index_range.dfy | the chunk handler's missing range check, a concrete run that exposes it, and the corrected handler |

Several things become parameters:

- **The hash function.** SHA-256 (FIPS 180-4) is a parameter `sha256: Bytes -> Digest`.
- **The ZIP listing.** It is a parameter `Option<seq<string>>`: `None` when the parser failed before emitting any entry, `Some(entries)` with the entries it emitted otherwise. A parser that fails part-way still leaves the entries it saw so far, because the list is declared before the `try` and never cleared in the `catch`.
- **Write outcomes.** How a piped write ends is a `WriteOutcome`: it completes, or it fails after `n` bytes reached the disk.
- **The network, as the client sees it.** It is a parameter `net(index, attempt)`, which says whether that attempt got an ok response.
- **Upload ids.** Mongo ObjectIds are natural numbers handed out by a counter.

The headline results are these:

- `Reassembly.ReassemblesInAnyOrder` starts from an upload that is consistent with a file and not yet finalized. The client's slices may be delivered in any order, with repeats and failed writes. Once every index has been written to completion at least once:
  - the backing file equals the original;
  - finalize returns `sha256(original)`;
  - every later finalize returns that same digest.
- `Reassembly.ClientRunReassembles` proves the same for the exact requests one run of `startUpload` sends, starting from init.

## Model

| member | source | states |
|---|---|---|
| ChunkModel.ParseChunkStatus | backend/src/models/chunk.model.js:11-15 | only "PENDING" and "RECEIVED" are accepted, and a parsed status prints back as the name it was parsed from |
| ChunkModel.ChunkStatusNameRoundTrip | backend/src/models/chunk.model.js:13 | every status survives printing then parsing |
| ChunkModel.NewChunkRecord | backend/src/models/chunk.model.js:3-16 | creation succeeds exactly when uploadId and chunkIndex are given and status, if given, is an enumerated name; a failure names exactly the offending fields; a success copies the fields and defaults status to RECEIVED |
| ChunkModel.Insert | backend/src/models/chunk.model.js:21 | an insert is refused exactly when its (uploadId, chunkIndex) key is present; otherwise the record is appended, uniqueness is kept, and the key set grows by exactly the new key |
| ChunkModel.RecordsOf | backend/src/routes/upload.routes.js:43-46 | the records of one upload are exactly the stored records carrying its id, and there are none exactly when no stored record carries it |
| ChunkModel.IndicesOf | backend/src/routes/upload.routes.js:43-50 | the reported index list has one entry per record of the upload and contains exactly the recorded indices |
| ChunkModel.CountIsDistinctIndices | backend/src/models/chunk.model.js:21 | under the unique index, the record count of an upload equals the number of distinct indices it holds |
| ChunkModel.CountGateMeansComplete | backend/src/routes/upload.routes.js:151-158 | when every recorded index lies in [0, n), the count equals n exactly when every index of [0, n) is recorded |
| UploadModel.ParseUploadStatus | backend/src/models/upload.model.js:8-12 | only the four declared status names are accepted, and a parsed status prints back as its name |
| UploadModel.UploadStatusNameRoundTrip | backend/src/models/upload.model.js:10 | every session status survives printing then parsing |
| UploadModel.NewSession | backend/src/models/upload.model.js:3-15 | creation succeeds exactly when a non-empty filename, totalSize and totalChunks are given and the status is valid or absent; failures name the offending fields; a new session copies its fields, is UPLOADING by default and has no digest |
| JsMath.CeilDiv | backend/src/routes/upload.routes.js:30 | the chunk count is the least integer not below totalSize / chunkSize, for either sign of the divisor |
| JsMath.Round | frontend/src/App.jsx:100 | the rounded value is within one half of the exact quotient, halves rounding up |
| JsMath.PercentBounds | frontend/src/App.jsx:100 | the reported percentage of completed out of total chunks lies in 0..100 and is 100 when all are done |
| JsMath.PercentMonotonic | frontend/src/App.jsx:100 | more completed chunks never report a smaller percentage |
| ChunkStore.WriteAt | backend/src/routes/upload.routes.js:101-107 | the file after the write has exactly the old length when the body is empty and otherwise ends at the later of the old end and the written range's end; each byte equals the written byte inside the range, the old byte outside it, and zero in a gap past the old end; an empty write changes nothing |
| ChunkStore.OverwritesDetermines | backend/src/routes/upload.routes.js:101-107 | that length and those bytes determine the file: any file meeting them is the positional write's result |
| ChunkStore.WriteAtIdempotent | backend/src/routes/upload.routes.js:101-107 | writing the same bytes at the same offset twice leaves the file as one write does |
| ChunkStore.WriteAtDisjointCommute | backend/src/routes/upload.routes.js:97-107 | writes to disjoint byte ranges commute, so chunk writes at different indices need no mutual exclusion |
| UploadRoutes.FindFrom | backend/src/routes/upload.routes.js:32 | the lookup returns a session with the requested filename and totalSize, or none exists among the ids searched |
| UploadRoutes.Init | backend/src/routes/upload.routes.js:20-52 | a 400 exactly when a field is missing or falsy, with nothing changed; otherwise totalChunks is the ceiling quotient, the returned session has the requested name and size, the reported indices are exactly those recorded, chunks and files are untouched, and either nothing changes or exactly one UPLOADING session without a digest is added under the next id |
| UploadRoutes.InitFindOrCreate | backend/src/routes/upload.routes.js:32-41 | on a valid ledger, a session for the same (filename, totalSize) is resumed without change; otherwise exactly one new UPLOADING session is added, with no digest and no recorded chunks |
| UploadRoutes.InitPreservesValid | backend/src/routes/upload.routes.js:32-41 | init keeps the ledger invariants: ids below the counter, no two sessions for one (filename, totalSize), unique chunk keys, every record pointing at a session and its file |
| UploadRoutes.InitAgainResumes | backend/src/routes/upload.routes.js:32-52 | repeating the same init returns the same upload id and the same index set and changes nothing |
| UploadRoutes.InitThreeChunkScenario | backend/src/routes/upload.routes.js:30-41 | a 12 000 000-byte file in 5 242 880-byte chunks is announced as three chunks under a fresh id |
| UploadRoutes.Ingest | backend/src/routes/upload.routes.js:63-127 | 400 exactly for a non-number index, 404 exactly for an unknown upload, "already uploaded" exactly for a recorded index, each with nothing changed; a record is added exactly when the offset is writable and the write completes; a failed write is a 500 exactly when the offset is writable and the stream errors, and a refused offset is a 500 exactly when it is negative or past 2^53 − 1; after a store the file is exactly the old file (or the empty one the handler creates) with the body written at index · 5 MiB, after a failed write the same with only the bytes that reached the disk, and after a refused offset it is the old or the freshly created empty file; other uploads' files are untouched |
| UploadRoutes.IngestPreservesValid | backend/src/routes/upload.routes.js:79-117 | the chunk handler keeps the ledger invariants whatever the write outcome |
| UploadRoutes.IngestAgainIsNoop | backend/src/routes/upload.routes.js:78-82 | right after an index is stored, delivering it again with any body and outcome is answered "already uploaded" and changes nothing |
| UploadRoutes.Finalize | backend/src/routes/upload.routes.js:133-207 | 404 exactly for an unknown upload; the stored digest exactly when already COMPLETED; 400 with both counts exactly when the count differs from totalChunks; when the counts agree but the upload has no backing file, a 500 with nothing changed (the hash read stream fails); otherwise the session becomes COMPLETED with the digest of the file bytes and nothing else changes |
| UploadRoutes.FinalizePreservesValid | backend/src/routes/upload.routes.js:194-197 | finalize keeps the ledger invariants |
| UploadRoutes.FinalizeAgainReturnsStoredHash | backend/src/routes/upload.routes.js:142-148 | after a successful finalize, every later finalize returns the stored digest and changes nothing, whatever hash function or ZIP listing it sees |
| UploadRoutes.ZipPeekNeverDecides | backend/src/routes/upload.routes.js:176-192 | whether finalize succeeds and which digest it stores do not depend on the ZIP listing; `filesInZip` is the entries emitted before any failure, and empty when the parser failed before the first entry |
| App.CreateChunks | frontend/src/App.jsx:21-37 | the loop produces exactly the chunk list `ChunksOf(file)` |
| App.ChunkLayout | frontend/src/App.jsx:21-37 | there are ceil(size / 5 MiB) chunks, none for an empty file; chunk i is the non-empty byte range [i·5 MiB, min((i+1)·5 MiB, size)); each starts where the previous ends and the last ends at the end of the file |
| App.ChunkSlice | frontend/src/App.jsx:25-31 | chunk i carries index i and exactly the file bytes of its range |
| App.ChunkOfPosition | frontend/src/App.jsx:25-31 | every byte position of the file lies inside the chunk its position divided by 5 MiB names |
| App.ChunksConcatenateToFile | frontend/src/App.jsx:21-37 | the blobs laid end to end in index order give back the file |
| App.PendingChunks | frontend/src/App.jsx:121-123 | the pending chunks are exactly the chunks whose index the server did not report |
| App.PendingKeepsOrder | frontend/src/App.jsx:121-123 | the filter keeps ascending index order |
| App.PendingInFileOrder | frontend/src/App.jsx:21-123 | the pending list of a file's chunks lists its unreported chunks in ascending index order, the order `createChunks` made them in |
| App.InitialStatus | frontend/src/App.jsx:54-57 | the initial status map has exactly the reported indices as keys, each marked "success" |
| App.ResumeSplitsChunks | frontend/src/App.jsx:54-57 | every chunk is either pending or already marked "success" in the initial map, never both |
| App.BackoffSchedule | frontend/src/App.jsx:80-84 | the waits before the three retries are 500, 1000 and 2000 ms |
| App.Attempt | frontend/src/App.jsx:60-88 | from retry r, the run stops at the first ok attempt or after 4 − r attempts; every attempt before the last failed; the outcome is "success" exactly when the last attempt was ok; the wait before each retry k is 500 · 2^k ms |
| App.UploadChunk | frontend/src/App.jsx:60-88 | a chunk is sent at most four times and ends "success" exactly when its last attempt was ok, or "error" exactly when all four attempts failed |
| App.Drain | frontend/src/App.jsx:95-102 | draining the queue finishes every chunk and reports one progress value per chunk |
| App.DrainAppendsProgress | frontend/src/App.jsx:99-100 | draining appends one report per queued chunk to the reports already made |
| App.DrainAppendsRequests | frontend/src/App.jsx:96-98 | draining appends every attempt of each queued chunk, in queue order, to the requests already sent |
| App.RequestsForCoverQueue | frontend/src/App.jsx:96-98 | the requests for a queue carry only queued chunks, and every queued chunk is requested at least once |
| App.DrainProgress | frontend/src/App.jsx:99-100 | earlier reports are kept, and the k-th new report is round(k / total · 100) |
| App.DrainRequests | frontend/src/App.jsx:95-102 | every queued chunk is requested, and nothing but queued chunks is requested |
| App.DrainStatus | frontend/src/App.jsx:77-86 | every queued chunk's final status is the outcome of its own retry run (`UploadChunk`): "success" exactly when an attempt got an ok response, "error" exactly when all four failed; the statuses of other indices are untouched |
| App.DrainBytes | frontend/src/App.jsx:77-78 | the uploaded-byte counter grows by exactly the sizes of the chunks that ended "success" |
| App.UploadChunksWithLimit | frontend/src/App.jsx:90-107 | with at least one worker every pending chunk is finished; with none, nothing happens |
| App.ProgressClimbsTo100 | frontend/src/App.jsx:99-100 | the reported values lie in 0..100, never decrease, and end at 100 when anything was sent |
| App.ProgressStepsClimb | frontend/src/App.jsx:100 | the reports for a whole queue lie in 0..100, never decrease, and end at 100 |
| App.DrainAttemptsEveryChunk | frontend/src/App.jsx:90-107 | the pool requests every pending chunk and nothing else, leaves each one with the outcome of its own retry run, and counts exactly the successful bytes |
| App.StartUpload | frontend/src/App.jsx:116-128 | a run requests exactly the chunks the server did not report, leaves each of them with the outcome of its own retry run ("success" after an ok response, "error" after four failures), and sends finalize last |
| Reassembly.ChunkSizesAgree | backend/src/routes/upload.routes.js:98-99 | the client's slice start and the server's write offset are the same for every index |
| Reassembly.InitStartsConsistent | backend/src/routes/upload.routes.js:30-41 | the client's init for a new file creates an UPLOADING session with the file's chunk count and nothing recorded |
| Reassembly.SliceAtOffset | backend/src/routes/upload.routes.js:97-105 | the client's slice for chunk k is the non-empty stretch of the file that starts at the server's offset for k |
| Reassembly.WriteOriginalBytes | backend/src/routes/upload.routes.js:101-107 | writing any prefix of a stretch of the original at its own position keeps every span that already matched the original and makes the written span match |
| Reassembly.IngestSliceRecords | backend/src/routes/upload.routes.js:79-117 | delivering a client slice keeps recorded indices recorded, can only add the delivered index, and records it when the write completes |
| Reassembly.IngestSliceKeepsConsistent | backend/src/routes/upload.routes.js:63-127 | delivering any client slice, whatever the outcome, keeps the upload consistent with the original file |
| Reassembly.HandlersAgreeOnClientIndices | backend/src/routes/upload.routes.js:66-70 | on every index a client computes, the corrected chunk handler answers exactly as the handler as written |
| Reassembly.DeliverAllKeepsConsistent | backend/src/routes/upload.routes.js:63-127 | any sequence of deliveries keeps the ledger valid and the upload consistent, and leaves recorded every index that was recorded or written to completion |
| Reassembly.AllRecordedMeansAssembled | backend/src/routes/upload.routes.js:97-107 | once every index of a consistent upload is recorded, its backing file is exactly the original |
| Reassembly.ReassemblesInAnyOrder | backend/src/routes/upload.routes.js:133-203 | deliveries in any order, with repeats and failed writes, that write every index to completion once reassemble the file; finalize then returns its digest, and so does every later finalize |
| Reassembly.NewUploadRoundTrip | backend/src/routes/upload.routes.js:20-203 | init of a new file, deliveries covering every index, then finalize yield the digest of the file |
| Reassembly.InitForClient | backend/src/routes/upload.routes.js:32-52 | provided every existing session with this name and size is unfinalized and holds only this file's bytes at its recorded indices (`ResumableFor`), init, whether it creates or resumes the session, leaves an upload consistent with the file, not finalized, reporting exactly its recorded indices |
| Reassembly.RunSendsClientSlices | frontend/src/App.jsx:116-128 | every chunk request of a run carries an index below the chunk count, not reported by the server, with exactly the client's slice for that index |
| Reassembly.ChunkRequestsOf | frontend/src/App.jsx:121-125 | the requests of a run between init and finalize are chunk requests for unreported indices, each carrying its own slice |
| Reassembly.SentRequestsReassemble | backend/src/routes/upload.routes.js:63-158 | the requests of a run, handled in the order sent with each scheduled index written to completion once, reassemble the file, and finalize returns its digest |
| Reassembly.ClientRunReassembles | frontend/src/App.jsx:116-128 | init, a full `startUpload` run whose every scheduled chunk is written once, and the closing finalize give the digest of the original file, whether the session was new or resumed, provided any session it resumes holds only this file's bytes (`ResumableFor`) |
| IndexRange.InitOpensTwoChunks | backend/src/routes/upload.routes.js:20-52 | init of a (5 MiB + 1)-byte file on an empty server opens upload 0 with two chunks |
| IndexRange.FirstChunkStored | backend/src/routes/upload.routes.js:97-117 | a one-byte chunk 0 is stored at offset 0 |
| IndexRange.OutOfRangeChunkStored | backend/src/routes/upload.routes.js:66-117 | index 2 of a two-chunk upload is stored at offset 10 MiB |
| IndexRange.GapFileHasHole | backend/src/routes/upload.routes.js:101-107 | the resulting file is 10 MiB + 1 bytes long and chunk 1's first byte is a zero that was never sent |
| IndexRange.GapPassesCountGate | backend/src/routes/upload.routes.js:150-174 | with chunk 1 missing, the record count still equals totalChunks and finalize hashes the holed file |
| IndexRange.OutOfRangeIndexPassesCountGate | backend/src/routes/upload.routes.js:66-158 | the whole run: init, index 0, index 2, finalize succeeds while index 1 was never stored |
| IndexRange.IngestInRange | backend/src/routes/upload.routes.js:66-70 | the corrected handler answers 400 with nothing changed for an index outside [0, totalChunks) of a known upload, and answers exactly as the handler as written in every other case: an in-range index, a non-number index, or an unknown upload |
| IndexRange.InitKeepsInRange | backend/src/routes/upload.routes.js:30-41 | init keeps every record's index inside its session's range |
| IndexRange.IngestInRangeKeepsInRange | backend/src/routes/upload.routes.js:66-117 | the corrected handler keeps every record's index inside its session's range |
| IndexRange.FinalizeKeepsInRange | backend/src/routes/upload.routes.js:194-197 | finalize keeps every record's index inside its session's range |
| IndexRange.InRangeFinalizeMeansComplete | backend/src/routes/upload.routes.js:150-158 | with every record in range, finalize succeeds only when every index of [0, totalChunks) is stored |

## Left out

- Concurrency. Requests to the server interleave at every `await`, and the client's three workers run under `Promise.all`. The model takes one request at a time, and the pool drains its queue in order. `WriteAtDisjointCommute` and the unique index carry the part of the concurrency argument that is about state. The race between two inits for the same file, which can create two sessions, is not modelled.
- The transient "uploading" chunk status. The client sets it at the start of every attempt and overwrites it by the end, so the model records only the final "success" or "error".
- Speed, ETA, elapsed time, `receivedAt` and the schemas' timestamps. These are clock readings and have no effect on the protocol.
- React rendering and `handleFileChange`'s state plumbing. The model passes the chunk list and the reported indices directly.
- `backend/src/app.js` (server wiring, CORS, JSON body parsing). It is not part of this model.
- I/O and database failures. In init and finalize, a failing `findOne`, `create`, `findById`, `countDocuments`, `save` or hash read stream gives a 500 from the handler's `catch`. In the chunk handler, the lookups before the write fail the same way, but `Chunk.create` runs inside the asynchronous `finish` listener, outside the `try`. Its rejection is unhandled and no response is ever sent. This includes the duplicate-key error when two deliveries of one index race past the `findOne` check. Under Node's default the process then exits, unless an entry point outside this model installs a handler. Only a failing chunk write (`WriteOutcome`) and the write stream's refusal of its start offset are modelled. A client-side `fetch` exception is folded into a failed attempt.
- Non-integer init fields. The model takes `totalSize` and `chunkSize` as integers. JSON can carry a fraction or a string, and `Math.ceil(totalSize / chunkSize)` then computes with it: `chunkSize: 0.5` announces `2 · totalSize` chunks. Such sessions are outside the model.
- ObjectId format errors. A malformed upload id makes `findById` throw, giving a 500 where the model answers "not found". Non-integer or infinite `chunkIndex` values (`Number("1.5")`, `Infinity`) are likewise left out: the model's index is an integer or NaN.
- SHA-256 and the ZIP parser. They are parameters, so the model states what the handlers do with their results, not how the results are computed.
- App.StartUpload: assumes every chunk request settles. The network parameter `net(index, attempt)` answers every attempt, so a run always drains and ends with the finalize request. In the source, `fetch` has no timeout and a chunk request can go unanswered (the unhandled `Chunk.create` rejection above). One stalled worker keeps `Promise.all` from resolving, and finalize is then never sent. The model proves what happens when every attempt settles, not that it does.
- Reassembly.ClientRunReassembles: assumes any session that init resumes holds only this file's bytes (`ResumableFor`). The server resumes on `(filename, totalSize)` alone, so a different file with the same name and size inherits the old file's recorded chunks. The client then skips those chunks, and finalize hashes a mix of the two files. The theorem does not cover that collision.
- JsMath.Round: uses exact rational arithmetic, whereas the client computes `Math.round((completed / total) * 100)` in binary floating point. The two can differ by one on ties that floating point represents inexactly.
- Negative chunk indices. The chunk handler has no check for them. A negative index makes the file stream refuse its `start` option and throw. The model follows that runtime behaviour: the handler answers 500 after creating the empty backing file, and stores no record. The same happens for an offset beyond 2^53 − 1.
- A completed session still accepts chunk writes. The chunk handler does not look at the status, so a delivery after finalize can change the bytes behind a stored digest. The model keeps this behaviour, and `Reassembly` assumes the session is not yet COMPLETED.
- Offsets use the server's own 5 MiB constant and ignore the `chunkSize` sent at init. Init uses the client's `chunkSize` only to compute `totalChunks`. The reassembly theorems rely on the client sending the same 5 MiB, which `Reassembly.ChunkSizesAgree` states.

## Findings

| source | as written | input that shows it | evidently intended | confidence | as-written member | corrected member |
|---|---|---|---|---|---|---|
| backend/src/routes/upload.routes.js:66-70 | the chunk handler checks only that `chunkIndex` is a number, so an index at or beyond `totalChunks` is stored and counted, and finalize's count gate can then pass with a real chunk missing | a (5 MiB + 1)-byte upload (two chunks) with index 0 and index 2 stored, and index 1 never sent: finalize succeeds and hashes a 10 MiB + 1 byte file whose chunk 1 is zeros | indices outside [0, totalChunks) are refused, so a full count means every chunk is present | high, not executed | IndexRange.OutOfRangeIndexPassesCountGate | IndexRange.IngestInRange |

The corrected handler differs from the handler as written only on out-of-range indices. `Reassembly.HandlersAgreeOnClientIndices` states that the two agree on every index a client computes. For that reason every theorem in `Reassembly` takes a `corrected` flag and holds for both handlers.
