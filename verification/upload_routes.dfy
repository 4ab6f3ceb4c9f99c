/**
 * The server half of the protocol (backend/src/routes/upload.routes.js): the
 * init/resume handshake, chunk ingestion and finalization, as pure
 * transitions over the session ledger and the per-upload backing files.
 */
module UploadRoutes {
  import opened Results
  import opened JsMath
  import opened ChunkModel
  import opened UploadModel
  import opened ChunkStore

  /** The server's own transfer unit (5 MiB); offsets never use the size sent at init. */
  const CHUNK_SIZE: nat := 5 * 1024 * 1024

  /** The Mongo collections: sessions by id (ids handed out in creation order) and chunk records in insertion order. */
  datatype Ledger = Ledger(sessions: map<UploadId, Session>, nextId: UploadId, chunks: seq<ChunkRecord>)

  /** The ledger together with the uploads directory, one backing file per session id. */
  datatype Server = Server(ledger: Ledger, files: map<UploadId, Bytes>)

  const EmptyServer: Server := Server(Ledger(map[], 0, []), map[])

  /** The only session states the handlers produce: UPLOADING without a digest, COMPLETED with one. */
  predicate SessionReachable(se: Session) {
    || (se.status == Uploading && se.finalHash.None?)
    || (se.status == Completed && se.finalHash.Some?)
  }

  predicate SameIdentity(a: Session, b: Session) {
    a.filename == b.filename && a.totalSize == b.totalSize
  }

  /** What every reachable server state satisfies. */
  predicate Valid(s: Server) {
    var l := s.ledger;
    && (forall id :: id in l.sessions ==> id < l.nextId && SessionReachable(l.sessions[id]))
    && (forall a, b :: a in l.sessions && b in l.sessions && a != b ==> !SameIdentity(l.sessions[a], l.sessions[b]))
    && UniqueKeys(l.chunks)
    && (forall r :: r in l.chunks ==>
          r.uploadId in l.sessions && r.uploadId in s.files && r.chunkIndex >= 0 && r.status == Received)
    && (forall id :: id in s.files ==> id in l.sessions)
  }

  lemma EmptyServerValid()
    ensures Valid(EmptyServer)
  {
  }

  // ---------------------------------------------------------------- init

  /** `Upload.findOne({ filename, totalSize })` over the ids in [from, to), oldest first. */
  function FindFrom(sessions: map<UploadId, Session>, from: nat, to: nat, filename: string, totalSize: int)
    : (r: Option<UploadId>)
    ensures r.Some? ==>
      && from <= r.value < to && r.value in sessions
      && sessions[r.value].filename == filename && sessions[r.value].totalSize == totalSize
    ensures r.None? ==>
      forall id :: from <= id < to && id in sessions ==>
        (sessions[id].filename != filename || sessions[id].totalSize != totalSize)
    decreases if from <= to then to - from else 0
  {
    if from >= to then None
    else if from in sessions && sessions[from].filename == filename && sessions[from].totalSize == totalSize then Some(from)
    else FindFrom(sessions, from + 1, to, filename, totalSize)
  }

  predicate HasSessionFor(l: Ledger, filename: string, totalSize: int) {
    exists id :: id in l.sessions && l.sessions[id].filename == filename && l.sessions[id].totalSize == totalSize
  }

  datatype InitRequest = InitRequest(filename: Option<string>, totalSize: Option<int>, chunkSize: Option<int>)

  datatype InitReply =
    | InitOk(uploadId: UploadId, uploadedChunks: seq<int>, totalChunks: int)
    | InitMissingFields

  /** The handler's truthiness test: an absent or empty name, or an absent or zero number. */
  predicate MissingInitField(req: InitRequest) {
    || req.filename.None? || req.filename.value == ""
    || req.totalSize.None? || req.totalSize.value == 0
    || req.chunkSize.None? || req.chunkSize.value == 0
  }

  /** `POST /uploads/init`: find or create the session of (filename, totalSize) and report what it holds. */
  function Init(s: Server, req: InitRequest): (r: (Server, InitReply))
    ensures r.1.InitMissingFields? <==> MissingInitField(req)
    ensures r.1.InitMissingFields? ==> r.0 == s
    ensures r.1.InitOk? ==>
      && r.1.totalChunks == CeilDiv(req.totalSize.value, req.chunkSize.value)
      && r.1.uploadId in r.0.ledger.sessions
      && r.0.ledger.sessions[r.1.uploadId].filename == req.filename.value
      && r.0.ledger.sessions[r.1.uploadId].totalSize == req.totalSize.value
      && (forall k :: k in r.1.uploadedChunks <==> Keyed(r.0.ledger.chunks, r.1.uploadId, k))
      && r.0.ledger.chunks == s.ledger.chunks
      && r.0.files == s.files
    ensures r.1.InitOk? ==>
      || r.0 == s
      || (&& r.1.uploadId == s.ledger.nextId
          && r.0.ledger.nextId == s.ledger.nextId + 1
          && r.0.ledger.sessions == s.ledger.sessions[r.1.uploadId := Session(
               req.filename.value, req.totalSize.value, r.1.totalChunks, Uploading, None)])
  {
    if MissingInitField(req) then (s, InitMissingFields)
    else
      var filename, totalSize := req.filename.value, req.totalSize.value;
      var totalChunks := CeilDiv(totalSize, req.chunkSize.value);
      match FindFrom(s.ledger.sessions, 0, s.ledger.nextId, filename, totalSize)
      case Some(id) =>
        (s, InitOk(id, IndicesOf(s.ledger.chunks, id), totalChunks))
      case None =>
        var made := NewSession(Some(filename), Some(totalSize), Some(totalChunks), Some("UPLOADING"));
        assert made.Success?;
        var id := s.ledger.nextId;
        var l := s.ledger.(sessions := s.ledger.sessions[id := made.value], nextId := id + 1);
        (s.(ledger := l), InitOk(id, IndicesOf(l.chunks, id), totalChunks))
  }

  /**
   * Find-or-create on (filename, totalSize): an existing session is resumed
   * without adding one; otherwise exactly one session is added, with a newId
   * id, status UPLOADING and no digest.
   */
  lemma InitFindOrCreate(s: Server, req: InitRequest)
    requires Valid(s) && !MissingInitField(req)
    ensures Init(s, req).1.InitOk?
    ensures var (s', rep) := Init(s, req);
      && (HasSessionFor(s.ledger, req.filename.value, req.totalSize.value) <==> rep.uploadId in s.ledger.sessions)
      && (HasSessionFor(s.ledger, req.filename.value, req.totalSize.value) ==> s' == s)
      && (!HasSessionFor(s.ledger, req.filename.value, req.totalSize.value) ==>
            && s'.ledger.sessions.Keys == s.ledger.sessions.Keys + {rep.uploadId}
            && s'.ledger.sessions[rep.uploadId].status == Uploading
            && s'.ledger.sessions[rep.uploadId].finalHash.None?
            && |rep.uploadedChunks| == 0)
  {
    var (s', rep) := Init(s, req);
    var filename, totalSize := req.filename.value, req.totalSize.value;
    if !HasSessionFor(s.ledger, filename, totalSize) {
      assert rep.uploadId !in s.ledger.sessions;
      assert forall k :: !Keyed(s'.ledger.chunks, rep.uploadId, k);
    }
  }

  lemma {:induction false} InitPreservesValid(s: Server, req: InitRequest)
    requires Valid(s)
    ensures Valid(Init(s, req).0)
  {
    var (s', rep) := Init(s, req);
    if rep.InitOk? && rep.uploadId !in s.ledger.sessions {
      var l, l' := s.ledger, s'.ledger;
      var newId := rep.uploadId;
      assert newId == l.nextId;
      assert FindFrom(l.sessions, 0, l.nextId, req.filename.value, req.totalSize.value).None?;
      forall a, b | a in l'.sessions && b in l'.sessions && a != b
        ensures !SameIdentity(l'.sessions[a], l'.sessions[b])
      {
        if a == newId { assert b in l.sessions; }
        else if b == newId { assert a in l.sessions; }
      }
    }
  }

  /** Re-sending the same init is answered with the same session and changes nothing. */
  lemma InitAgainResumes(s: Server, req: InitRequest)
    requires Valid(s) && !MissingInitField(req)
    ensures var (s1, rep1) := Init(s, req);
      var (s2, rep2) := Init(s1, req);
      && rep2.InitOk? && rep2.uploadId == rep1.uploadId && s2 == s1
      && (forall k :: k in rep2.uploadedChunks <==> k in rep1.uploadedChunks)
  {
    var (s1, rep1) := Init(s, req);
    InitFindOrCreate(s, req);
    InitPreservesValid(s, req);
    InitFindOrCreate(s1, req);
    assert HasSessionFor(s1.ledger, req.filename.value, req.totalSize.value);
    var (s2, rep2) := Init(s1, req);
    assert rep2.uploadId == rep1.uploadId by {
      assert rep2.uploadId in s1.ledger.sessions && rep1.uploadId in s1.ledger.sessions;
      assert SameIdentity(s1.ledger.sessions[rep1.uploadId], s1.ledger.sessions[rep2.uploadId]);
    }
  }

  /** A 12 000 000-byte file in 5 242 880-byte chunks is announced as three chunks, under upload id 0 of an empty server. */
  lemma InitThreeChunkScenario()
    ensures Init(EmptyServer, InitRequest(Some("a.zip"), Some(12000000), Some(5242880))).1 == InitOk(0, [], 3)
  {
    var req := InitRequest(Some("a.zip"), Some(12000000), Some(5242880));
    EmptyServerValid();
    InitFindOrCreate(EmptyServer, req);
    assert CeilDiv(12000000, 5242880) == 3;
  }

  // ---------------------------------------------------------------- ingest

  /** `Number(req.query.chunkIndex)`: NaN or an integer. */
  datatype IndexArg = NaN | Num(value: int)

  /** How the piped write ends: it finishes, or errors after `written` bytes reached the file. */
  datatype WriteOutcome = Completes | FailsAfter(written: nat)

  datatype ChunkReply =
    | Stored             // 200 "Chunk uploaded successfully"
    | AlreadyUploaded    // 200 "Chunk already uploaded"
    | InvalidChunkIndex  // 400
    | UploadNotFound     // 404
    | WriteFailed        // 500 "File write failed"
    | InternalError      // 500 from the handler's catch: the write stream refused its start offset

  /** The byte offset of a chunk: its index times the server's 5 MiB. */
  function Offset(chunkIndex: int): int {
    chunkIndex * CHUNK_SIZE
  }

  /** A write stream accepts only a start offset that is a safe non-negative integer. */
  predicate Writable(chunkIndex: int) {
    0 <= Offset(chunkIndex) <= MAX_SAFE_INTEGER
  }

  /** The backing file, or the empty file the handler creates when there is none yet. */
  function FileOrEmpty(s: Server, uploadId: UploadId): Bytes {
    if uploadId in s.files then s.files[uploadId] else []
  }

  /**
   * `POST /uploads/:uploadId/chunk`: reject a NaN index or unknown upload,
   * answer a recorded index without writing, otherwise write the body at
   * `chunkIndex × 5 MiB` and, once the write finishes, record the index.
   */
  function Ingest(s: Server, uploadId: UploadId, index: IndexArg, body: Bytes, outcome: WriteOutcome)
    : (r: (Server, ChunkReply))
    ensures r.1 == InvalidChunkIndex <==> index.NaN?
    ensures r.1 == UploadNotFound <==> index.Num? && uploadId !in s.ledger.sessions
    ensures r.1 == AlreadyUploaded <==>
      index.Num? && uploadId in s.ledger.sessions && Keyed(s.ledger.chunks, uploadId, index.value)
    ensures r.1 in {InvalidChunkIndex, UploadNotFound, AlreadyUploaded} ==> r.0 == s
    ensures r.1 == Stored <==>
      && index.Num? && uploadId in s.ledger.sessions && !Keyed(s.ledger.chunks, uploadId, index.value)
      && Writable(index.value) && outcome.Completes?
    ensures r.1 == WriteFailed <==>
      && index.Num? && uploadId in s.ledger.sessions && !Keyed(s.ledger.chunks, uploadId, index.value)
      && Writable(index.value) && outcome.FailsAfter?
    ensures r.1 == InternalError <==>
      index.Num? && uploadId in s.ledger.sessions && !Keyed(s.ledger.chunks, uploadId, index.value)
      && !Writable(index.value)
    ensures r.0.ledger.sessions == s.ledger.sessions && r.0.ledger.nextId == s.ledger.nextId
    ensures r.1 == Stored ==>
      r.0.ledger.chunks == s.ledger.chunks + [ChunkRecord(uploadId, index.value, Received)]
    ensures r.1 != Stored ==> r.0.ledger.chunks == s.ledger.chunks
    ensures r.1 == Stored ==> uploadId in r.0.files
    ensures r.1 == Stored ==>
      Overwrites(r.0.files[uploadId], FileOrEmpty(s, uploadId), Offset(index.value), body)
    ensures r.1 == WriteFailed ==>
      && uploadId in r.0.files
      && Overwrites(r.0.files[uploadId], FileOrEmpty(s, uploadId), Offset(index.value),
                    body[..Min(outcome.written, |body|)])
    ensures r.1 == InternalError ==> uploadId in r.0.files && r.0.files[uploadId] == FileOrEmpty(s, uploadId)
    ensures forall id :: id != uploadId ==>
      (id in r.0.files <==> id in s.files) && (id in s.files ==> r.0.files[id] == s.files[id])
  {
    if index.NaN? then (s, InvalidChunkIndex)
    else if uploadId !in s.ledger.sessions then (s, UploadNotFound)
    else if Keyed(s.ledger.chunks, uploadId, index.value) then (s, AlreadyUploaded)
    else
      var file := FileOrEmpty(s, uploadId);
      var off := Offset(index.value);
      if !Writable(index.value) then (s.(files := s.files[uploadId := file]), InternalError)
      else
        match outcome
        case FailsAfter(n) =>
          (s.(files := s.files[uploadId := WriteAt(file, off, body[..Min(n, |body|)])]), WriteFailed)
        case Completes =>
          var rec := NewChunkRecord(Some(uploadId), Some(index.value), Some("RECEIVED"));
          assert rec.Success?;
          var ins := Insert(s.ledger.chunks, rec.value);
          assert ins.Success?;
          (Server(s.ledger.(chunks := ins.value), s.files[uploadId := WriteAt(file, off, body)]), Stored)
  }

  /** A writable offset belongs to a non-negative index. */
  lemma WritableIndexNonNegative(k: int)
    requires Writable(k)
    ensures k >= 0
  {
  }

  /**
   * A chunk request that got past the guards touches only its own backing
   * file and at most appends one in-range RECEIVED record of a known upload,
   * which keeps the server valid.
   */
  lemma ValidAfterChunkStep(s: Server, s': Server, uploadId: UploadId, k: int, stored: bool)
    requires Valid(s) && uploadId in s.ledger.sessions
    requires s'.ledger.sessions == s.ledger.sessions && s'.ledger.nextId == s.ledger.nextId
    requires s'.files.Keys == s.files.Keys + {uploadId}
    requires stored ==>
      && k >= 0 && !Keyed(s.ledger.chunks, uploadId, k)
      && s'.ledger.chunks == s.ledger.chunks + [ChunkRecord(uploadId, k, Received)]
    requires !stored ==> s'.ledger.chunks == s.ledger.chunks
    ensures Valid(s')
  {
    if stored {
      assert Insert(s.ledger.chunks, ChunkRecord(uploadId, k, Received)).Success?;
    }
  }

  lemma IngestPreservesValid(s: Server, uploadId: UploadId, index: IndexArg, body: Bytes, outcome: WriteOutcome)
    requires Valid(s)
    ensures Valid(Ingest(s, uploadId, index, body, outcome).0)
  {
    var (s', rep) := Ingest(s, uploadId, index, body, outcome);
    if rep !in {InvalidChunkIndex, UploadNotFound, AlreadyUploaded} {
      assert s'.files.Keys == s.files.Keys + {uploadId};
      if rep == Stored {
        WritableIndexNonNegative(index.value);
      }
      ValidAfterChunkStep(s, s', uploadId, index.value, rep == Stored);
    }
  }

  /** A chunk index already recorded is acknowledged again without touching the file or the records. */
  lemma IngestAgainIsNoop(s: Server, uploadId: UploadId, k: int, body: Bytes, body2: Bytes, outcome2: WriteOutcome)
    requires Ingest(s, uploadId, Num(k), body, Completes).1 == Stored
    ensures var s1 := Ingest(s, uploadId, Num(k), body, Completes).0;
      Ingest(s1, uploadId, Num(k), body2, outcome2) == (s1, AlreadyUploaded)
  {
    var s1 := Ingest(s, uploadId, Num(k), body, Completes).0;
    assert ChunkRecord(uploadId, k, Received) in s1.ledger.chunks;
  }

  // ---------------------------------------------------------------- finalize

  datatype FinalizeReply =
    | Finalized(finalHash: Digest, filesInZip: seq<string>)
    | AlreadyFinalized(storedHash: Option<Digest>)
    | FinalizeNotFound                                   // 404
    | Incomplete(uploadedChunks: nat, totalChunks: int)  // 400 "Upload incomplete"
    | FinalizeFailed                                     // 500: the backing file cannot be read

  /**
   * `POST /uploads/:uploadId/finalize`. `sha256` stands for the SHA-256
   * digest (FIPS 180-4) in lower-case hex; `zipPeek` is what the ZIP entry
   * listing produced: `None` when parsing failed before the first entry,
   * otherwise the entries emitted, even if parsing failed after them.
   */
  function Finalize(s: Server, uploadId: UploadId, sha256: Bytes -> Digest, zipPeek: Option<seq<string>>)
    : (r: (Server, FinalizeReply))
    ensures r.1 == FinalizeNotFound <==> uploadId !in s.ledger.sessions
    ensures r.1.AlreadyFinalized? <==>
      uploadId in s.ledger.sessions && s.ledger.sessions[uploadId].status == Completed
    ensures r.1.AlreadyFinalized? ==> r.1.storedHash == s.ledger.sessions[uploadId].finalHash
    ensures r.1.Incomplete? <==>
      && uploadId in s.ledger.sessions && s.ledger.sessions[uploadId].status != Completed
      && CountOf(s.ledger.chunks, uploadId) != s.ledger.sessions[uploadId].totalChunks
    ensures r.1.Incomplete? ==>
      r.1.uploadedChunks == CountOf(s.ledger.chunks, uploadId)
      && r.1.totalChunks == s.ledger.sessions[uploadId].totalChunks
    ensures r.1.Finalized? <==>
      && uploadId in s.ledger.sessions && s.ledger.sessions[uploadId].status != Completed
      && CountOf(s.ledger.chunks, uploadId) == s.ledger.sessions[uploadId].totalChunks
      && uploadId in s.files
    ensures r.1 == FinalizeFailed <==>
      && uploadId in s.ledger.sessions && s.ledger.sessions[uploadId].status != Completed
      && CountOf(s.ledger.chunks, uploadId) == s.ledger.sessions[uploadId].totalChunks
      && uploadId !in s.files
    ensures !r.1.Finalized? ==> r.0 == s
    ensures r.1.Finalized? ==>
      && r.1.finalHash == sha256(s.files[uploadId])
      && r.0.ledger.sessions == s.ledger.sessions[uploadId :=
           s.ledger.sessions[uploadId].(status := Completed, finalHash := Some(r.1.finalHash))]
      && r.0.ledger.chunks == s.ledger.chunks && r.0.ledger.nextId == s.ledger.nextId
      && r.0.files == s.files
  {
    if uploadId !in s.ledger.sessions then (s, FinalizeNotFound)
    else
      var se := s.ledger.sessions[uploadId];
      if se.status == Completed then (s, AlreadyFinalized(se.finalHash))
      else
        var count := CountOf(s.ledger.chunks, uploadId);
        if count != se.totalChunks then (s, Incomplete(count, se.totalChunks))
        else if uploadId !in s.files then (s, FinalizeFailed)
        else
          var finalHash := sha256(s.files[uploadId]);
          var entries := zipPeek.GetOr([]);
          var done := se.(status := Completed, finalHash := Some(finalHash));
          (s.(ledger := s.ledger.(sessions := s.ledger.sessions[uploadId := done])), Finalized(finalHash, entries))
  }

  lemma FinalizePreservesValid(s: Server, uploadId: UploadId, sha256: Bytes -> Digest, zipPeek: Option<seq<string>>)
    requires Valid(s)
    ensures Valid(Finalize(s, uploadId, sha256, zipPeek).0)
  {
    var (s', rep) := Finalize(s, uploadId, sha256, zipPeek);
    if rep.Finalized? {
      var l, l' := s.ledger, s'.ledger;
      forall a, b | a in l'.sessions && b in l'.sessions && a != b
        ensures !SameIdentity(l'.sessions[a], l'.sessions[b])
      {
        assert SameIdentity(l'.sessions[a], l'.sessions[b]) == SameIdentity(l.sessions[a], l.sessions[b]);
      }
    }
  }

  /** Once finalized, every later finalize returns the stored digest and changes nothing. */
  lemma FinalizeAgainReturnsStoredHash(
    s: Server, uploadId: UploadId, sha256: Bytes -> Digest, zipPeek: Option<seq<string>>,
    sha256': Bytes -> Digest, zipPeek': Option<seq<string>>)
    requires Finalize(s, uploadId, sha256, zipPeek).1.Finalized?
    ensures var (s1, rep1) := Finalize(s, uploadId, sha256, zipPeek);
      Finalize(s1, uploadId, sha256', zipPeek') == (s1, AlreadyFinalized(Some(rep1.finalHash)))
  {
  }

  /** The ZIP listing only decides `filesInZip`: whether it parses never changes the outcome or the state. */
  lemma ZipPeekNeverDecides(
    s: Server, uploadId: UploadId, sha256: Bytes -> Digest, peek1: Option<seq<string>>, peek2: Option<seq<string>>)
    ensures var (s1, rep1) := Finalize(s, uploadId, sha256, peek1);
      var (s2, rep2) := Finalize(s, uploadId, sha256, peek2);
      && s1 == s2
      && (rep1.Finalized? <==> rep2.Finalized?)
      && (rep1.Finalized? ==> rep1.finalHash == rep2.finalHash && rep1.filesInZip == peek1.GetOr([]))
      && (!rep1.Finalized? ==> rep1 == rep2)
  {
  }
}
