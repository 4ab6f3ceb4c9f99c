/**
 * The chunk handler stores any integer chunk index it can write, and
 * finalize gates on the number of records alone. An index at or beyond
 * `totalChunks` therefore counts towards the gate in place of a missing one,
 * and finalize then hashes a file with a zero-filled hole. The corrected
 * handler refuses indices outside [0, totalChunks) with the same 400 reply as
 * an unparseable index; under it the count gate does mean "every chunk is
 * here", and it agrees with the handler as written on every index a client
 * computes.
 */
module IndexRange {
  import opened Results
  import opened JsMath
  import opened ChunkModel
  import opened UploadModel
  import opened ChunkStore
  import opened UploadRoutes

  /** The ledger after init of a two-chunk upload on an empty server. */
  const Opened: Server :=
    Server(Ledger(map[0 := Session("a.zip", CHUNK_SIZE + 1, 2, Uploading, None)], 1, []), map[])

  /** ... after chunk 0 (one byte) is stored. */
  const FirstStored: Server :=
    Server(Opened.ledger.(chunks := [ChunkRecord(0, 0, Received)]), map[0 := [1]])

  /** ... after the out-of-range index 2 (one byte) is stored as well. */
  const GapStored: Server :=
    Server(FirstStored.ledger.(chunks := [ChunkRecord(0, 0, Received), ChunkRecord(0, 2, Received)]),
           map[0 := WriteAt([1], 2 * CHUNK_SIZE, [2])])

  lemma InitOpensTwoChunks()
    ensures Init(EmptyServer, InitRequest(Some("a.zip"), Some(CHUNK_SIZE + 1), Some(CHUNK_SIZE)))
         == (Opened, InitOk(0, [], 2))
  {
    var req := InitRequest(Some("a.zip"), Some(CHUNK_SIZE + 1), Some(CHUNK_SIZE));
    EmptyServerValid();
    InitFindOrCreate(EmptyServer, req);
    var (s1, r1) := Init(EmptyServer, req);
    assert CeilDiv(CHUNK_SIZE + 1, CHUNK_SIZE) == 2;
  }

  lemma FirstChunkStored()
    ensures Ingest(Opened, 0, Num(0), [1], Completes) == (FirstStored, Stored)
  {
    var rec := ChunkRecord(0, 0, Received);
    assert !Keyed(Opened.ledger.chunks, 0, 0);
    assert Writable(0) && Offset(0) == 0;
    assert FileOrEmpty(Opened, 0) == [];
    assert NewChunkRecord(Some(0), Some(0), Some("RECEIVED")) == Success(rec);
    assert Opened.ledger.chunks + [rec] == [rec];
    assert Insert(Opened.ledger.chunks, rec) == Success([rec]);
    assert WriteAt([], 0, [1]) == [1];
  }

  lemma OutOfRangeChunkStored()
    ensures Ingest(FirstStored, 0, Num(2), [2], Completes) == (GapStored, Stored)
  {
    var rec := ChunkRecord(0, 2, Received);
    assert !Keyed(FirstStored.ledger.chunks, 0, 2) by {
      assert forall r :: r in FirstStored.ledger.chunks ==> r.chunkIndex == 0;
    }
    assert Writable(2) && Offset(2) == 2 * CHUNK_SIZE;
    assert FileOrEmpty(FirstStored, 0) == [1];
    assert NewChunkRecord(Some(0), Some(2), Some("RECEIVED")) == Success(rec);
    assert FirstStored.ledger.chunks + [rec] == GapStored.ledger.chunks;
    assert Insert(FirstStored.ledger.chunks, rec) == Success(GapStored.ledger.chunks);
    assert FirstStored.files[0 := WriteAt([1], 2 * CHUNK_SIZE, [2])] == GapStored.files;
  }

  /**
   * As written: a two-chunk upload, chunk 0 stored, chunk 1 never sent, and
   * an out-of-range index 2 stored instead. Finalize passes the count gate
   * and hashes a file of 2·CHUNK_SIZE + 1 bytes for a declared size of
   * CHUNK_SIZE + 1, whose byte at chunk 1's start was never written.
   */
  lemma OutOfRangeIndexPassesCountGate(sha256: Bytes -> Digest, zipPeek: Option<seq<string>>)
    ensures Init(EmptyServer, InitRequest(Some("a.zip"), Some(CHUNK_SIZE + 1), Some(CHUNK_SIZE)))
         == (Opened, InitOk(0, [], 2))
    ensures Ingest(Opened, 0, Num(0), [1], Completes) == (FirstStored, Stored)
    ensures Ingest(FirstStored, 0, Num(2), [2], Completes) == (GapStored, Stored)
    ensures !Keyed(GapStored.ledger.chunks, 0, 1)
    ensures |GapStored.files[0]| == 2 * CHUNK_SIZE + 1 && GapStored.files[0][CHUNK_SIZE] == 0
    ensures Finalize(GapStored, 0, sha256, zipPeek).1 == Finalized(sha256(GapStored.files[0]), zipPeek.GetOr([]))
  {
    InitOpensTwoChunks();
    FirstChunkStored();
    OutOfRangeChunkStored();
    GapFileHasHole();
    GapPassesCountGate(sha256, zipPeek);
  }

  lemma GapFileHasHole()
    ensures 0 in GapStored.files
    ensures |GapStored.files[0]| == 2 * CHUNK_SIZE + 1 && GapStored.files[0][CHUNK_SIZE] == 0
  {
    var f := GapStored.files[0];
    assert f[CHUNK_SIZE] == ByteAfterWrite([1], 2 * CHUNK_SIZE, [2], CHUNK_SIZE);
  }

  lemma GapPassesCountGate(sha256: Bytes -> Digest, zipPeek: Option<seq<string>>)
    ensures !Keyed(GapStored.ledger.chunks, 0, 1)
    ensures CountOf(GapStored.ledger.chunks, 0) == GapStored.ledger.sessions[0].totalChunks
    ensures Finalize(GapStored, 0, sha256, zipPeek).1 == Finalized(sha256(GapStored.files[0]), zipPeek.GetOr([]))
  {
    assert !Keyed(GapStored.ledger.chunks, 0, 1) by {
      assert forall r :: r in GapStored.ledger.chunks ==> r.chunkIndex != 1;
    }
    assert RecordsOf(GapStored.ledger.chunks, 0) == GapStored.ledger.chunks;
  }

  /** Every record's index lies in [0, totalChunks) of its session. */
  predicate InRange(s: Server) {
    forall r :: r in s.ledger.chunks && r.uploadId in s.ledger.sessions ==>
      0 <= r.chunkIndex < s.ledger.sessions[r.uploadId].totalChunks
  }

  /** The corrected chunk handler: an index outside [0, totalChunks) of a known upload is a 400, like a non-number. */
  function IngestInRange(s: Server, uploadId: UploadId, index: IndexArg, body: Bytes, outcome: WriteOutcome)
    : (r: (Server, ChunkReply))
    ensures (index.Num? && uploadId in s.ledger.sessions
             && !(0 <= index.value < s.ledger.sessions[uploadId].totalChunks)) ==> r == (s, InvalidChunkIndex)
    ensures (index.Num? && uploadId in s.ledger.sessions
             && 0 <= index.value < s.ledger.sessions[uploadId].totalChunks) ==> r == Ingest(s, uploadId, index, body, outcome)
    ensures !(index.Num? && uploadId in s.ledger.sessions) ==> r == Ingest(s, uploadId, index, body, outcome)
  {
    if index.Num? && uploadId in s.ledger.sessions && !(0 <= index.value < s.ledger.sessions[uploadId].totalChunks) then
      (s, InvalidChunkIndex)
    else
      Ingest(s, uploadId, index, body, outcome)
  }

  /** Init and the corrected handler keep every record in range. */
  lemma InitKeepsInRange(s: Server, req: InitRequest)
    requires Valid(s) && InRange(s)
    ensures InRange(Init(s, req).0)
  {
    var (s', rep) := Init(s, req);
    if rep.InitOk? && s' != s {
      forall r | r in s'.ledger.chunks && r.uploadId in s'.ledger.sessions
        ensures 0 <= r.chunkIndex < s'.ledger.sessions[r.uploadId].totalChunks
      {
        assert r.uploadId < s.ledger.nextId;
      }
    }
  }

  lemma IngestInRangeKeepsInRange(s: Server, uploadId: UploadId, index: IndexArg, body: Bytes, outcome: WriteOutcome)
    requires InRange(s)
    ensures InRange(IngestInRange(s, uploadId, index, body, outcome).0)
  {
  }

  lemma FinalizeKeepsInRange(s: Server, uploadId: UploadId, sha256: Bytes -> Digest, zipPeek: Option<seq<string>>)
    requires InRange(s)
    ensures InRange(Finalize(s, uploadId, sha256, zipPeek).0)
  {
  }

  /**
   * With every record in range, finalize succeeds only when every index of
   * [0, totalChunks) has been stored: the count gate is sound.
   */
  lemma InRangeFinalizeMeansComplete(s: Server, uploadId: UploadId, sha256: Bytes -> Digest, zipPeek: Option<seq<string>>)
    requires Valid(s) && InRange(s)
    ensures Finalize(s, uploadId, sha256, zipPeek).1.Finalized? ==>
      forall k :: 0 <= k < s.ledger.sessions[uploadId].totalChunks ==> Keyed(s.ledger.chunks, uploadId, k)
  {
    if Finalize(s, uploadId, sha256, zipPeek).1.Finalized? {
      var n := s.ledger.sessions[uploadId].totalChunks;
      assert n == CountOf(s.ledger.chunks, uploadId);
      forall k | Keyed(s.ledger.chunks, uploadId, k) ensures 0 <= k < n {
        var r :| r in s.ledger.chunks && r.uploadId == uploadId && r.chunkIndex == k;
      }
      CountGateMeansComplete(s.ledger.chunks, uploadId, n);
    }
  }
}
