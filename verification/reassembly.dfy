/**
 * Client and server together: the slices `createChunks` produces, delivered
 * to the chunk handler in any order, any number of times, with any mix of
 * failed writes, reassemble the original file once every index has been
 * stored; finalize then succeeds with the digest of the original, and
 * finalizing again returns the same digest.
 */
module Reassembly {
  import opened Results
  import opened JsMath
  import opened ChunkModel
  import opened UploadModel
  import opened ChunkStore
  import opened UploadRoutes
  import IndexRange
  import App

  /** The client slices with the unit the server uses for offsets. */
  lemma ChunkSizesAgree()
    ensures App.CHUNK_SIZE == UploadRoutes.CHUNK_SIZE
    ensures forall k: nat :: App.ChunkStart(k) == Offset(k)
  {
  }

  /** The bytes the client sends for chunk `k` of `orig`. */
  function ClientSlice(orig: Bytes, k: nat): Bytes
    requires k < App.NumChunks(|orig|)
  {
    App.ChunksOf(orig)[k].blob
  }

  /** Bytes [lo, hi) of `f` exist and equal those of `orig`. */
  predicate Agrees(f: Bytes, orig: Bytes, lo: nat, hi: nat) {
    hi <= |f| && hi <= |orig| && forall p :: lo <= p < hi ==> f[p] == orig[p]
  }

  /**
   * Upload `id` is on its way to holding `orig`: its chunk count is that of
   * `orig`, every recorded index is a real chunk of it, the backing file is
   * no longer than `orig`, and the span of every recorded chunk already holds
   * the original bytes.
   */
  ghost predicate Consistent(s: Server, id: UploadId, orig: Bytes) {
    var n := App.NumChunks(|orig|);
    && id in s.ledger.sessions
    && s.ledger.sessions[id].totalChunks == n
    && (forall k :: Keyed(s.ledger.chunks, id, k) ==> 0 <= k < n)
    && (id in s.files ==> |s.files[id]| <= |orig|)
    && (forall k :: Keyed(s.ledger.chunks, id, k) && 0 <= k < n ==>
          id in s.files && Agrees(s.files[id], orig, App.ChunkStart(k), App.ChunkEnd(|orig|, k)))
  }

  /** The client's init for a new file creates a session that is consistent with it and holds nothing yet. */
  lemma InitStartsConsistent(s: Server, name: string, orig: Bytes)
    requires Valid(s) && name != "" && |orig| > 0
    requires !HasSessionFor(s.ledger, name, |orig|)
    ensures var (s', rep) := Init(s, InitRequest(Some(name), Some(|orig|), Some(App.CHUNK_SIZE)));
      && rep.InitOk? && |rep.uploadedChunks| == 0
      && rep.totalChunks == App.NumChunks(|orig|)
      && Valid(s') && Consistent(s', rep.uploadId, orig)
      && s'.ledger.sessions[rep.uploadId].status == Uploading
  {
    var req := InitRequest(Some(name), Some(|orig|), Some(App.CHUNK_SIZE));
    InitFindOrCreate(s, req);
    InitPreservesValid(s, req);
    var (s', rep) := Init(s, req);
    assert rep.uploadId !in s.files;
    assert forall k :: !Keyed(s'.ledger.chunks, rep.uploadId, k) by {
      forall k ensures !Keyed(s'.ledger.chunks, rep.uploadId, k) {
        assert k !in rep.uploadedChunks;
      }
    }
  }

  /** The client's slice for chunk `k` is the non-empty stretch of the original at the server's offset for `k`. */
  lemma SliceAtOffset(orig: Bytes, k: nat)
    requires k < App.NumChunks(|orig|)
    ensures Offset(k) == App.ChunkStart(k) < App.ChunkEnd(|orig|, k) <= |orig|
    ensures ClientSlice(orig, k) == orig[App.ChunkStart(k)..App.ChunkEnd(|orig|, k)]
  {
    App.ChunkSlice(orig, k);
  }

  /** The first `m` bytes of the client's slice `k` are the original's bytes from its offset on. */
  lemma SlicePrefix(orig: Bytes, k: nat, m: nat)
    requires k < App.NumChunks(|orig|) && m <= |ClientSlice(orig, k)|
    ensures App.ChunkStart(k) + m <= App.ChunkEnd(|orig|, k) <= |orig|
    ensures ClientSlice(orig, k)[..m] == orig[App.ChunkStart(k)..App.ChunkStart(k) + m]
  {
    SliceAtOffset(orig, k);
  }

  /** Writing a stretch of the original at its own position keeps every agreeing span agreeing. */
  lemma WriteOriginalBytes(f: Bytes, orig: Bytes, off: nat, m: nat)
    requires |f| <= |orig| && off + m <= |orig|
    ensures var g := WriteAt(f, off, orig[off..off + m]);
      && |g| <= |orig|
      && (forall lo: nat, hi: nat :: Agrees(f, orig, lo, hi) ==> Agrees(g, orig, lo, hi))
      && (m > 0 ==> Agrees(g, orig, off, off + m))
  {
    var d := orig[off..off + m];
    var g := WriteAt(f, off, d);
    forall lo: nat, hi: nat | Agrees(f, orig, lo, hi) ensures Agrees(g, orig, lo, hi) {
      forall p | lo <= p < hi ensures g[p] == orig[p] {
        assert g[p] == ByteAfterWrite(f, off, d, p);
      }
    }
    if m > 0 {
      forall p | off <= p < off + m ensures g[p] == orig[p] {
        assert g[p] == ByteAfterWrite(f, off, d, p);
      }
    }
  }

  /**
   * How one delivery of a client slice changes the records of the upload:
   * recorded indices stay recorded, the only index that can appear is the
   * delivered one, and a write that completes leaves it recorded.
   */
  lemma IngestSliceRecords(s: Server, id: UploadId, orig: Bytes, k: nat, outcome: WriteOutcome)
    requires id in s.ledger.sessions
    requires k < App.NumChunks(|orig|) && |orig| <= MAX_SAFE_INTEGER
    ensures var s' := Ingest(s, id, Num(k), ClientSlice(orig, k), outcome).0;
      && (forall j :: Keyed(s.ledger.chunks, id, j) ==> Keyed(s'.ledger.chunks, id, j))
      && (forall j :: Keyed(s'.ledger.chunks, id, j) ==> Keyed(s.ledger.chunks, id, j) || j == k)
      && (outcome.Completes? ==> Keyed(s'.ledger.chunks, id, k))
  {
    var (s', rep) := Ingest(s, id, Num(k), ClientSlice(orig, k), outcome);
    SliceAtOffset(orig, k);
    assert Writable(k);
    if rep == Stored {
      var rec := ChunkRecord(id, k, Received);
      assert Insert(s.ledger.chunks, rec).Success?;
    }
  }

  /**
   * The step shared by every outcome of a delivery of chunk `k`: the new
   * file extends the agreement of the old one, and the only newly recorded
   * index is `k`, whose span the new file holds.
   */
  lemma ConsistentAfterWrite(s: Server, s': Server, id: UploadId, orig: Bytes, k: nat, g: Bytes)
    requires Consistent(s, id, orig) && k < App.NumChunks(|orig|)
    requires s'.ledger.sessions == s.ledger.sessions
    requires id in s'.files && s'.files[id] == g && |g| <= |orig|
    requires forall lo: nat, hi: nat :: Agrees(FileOrEmpty(s, id), orig, lo, hi) ==> Agrees(g, orig, lo, hi)
    requires forall j :: Keyed(s'.ledger.chunks, id, j) ==> Keyed(s.ledger.chunks, id, j) || j == k
    requires Keyed(s'.ledger.chunks, id, k) ==> Agrees(g, orig, App.ChunkStart(k), App.ChunkEnd(|orig|, k))
    ensures Consistent(s', id, orig)
  {
    var n := App.NumChunks(|orig|);
    forall j | Keyed(s'.ledger.chunks, id, j) && 0 <= j < n
      ensures Agrees(g, orig, App.ChunkStart(j), App.ChunkEnd(|orig|, j))
    {
      if j != k {
        assert Agrees(FileOrEmpty(s, id), orig, App.ChunkStart(j), App.ChunkEnd(|orig|, j));
      }
    }
  }

  /**
   * A delivery of chunk `k` that wrote the first `m` bytes of its slice:
   * the upload stays consistent when a recorded `k` means the whole slice
   * was written.
   */
  lemma ConsistentAfterSliceWrite(s: Server, s': Server, id: UploadId, orig: Bytes, k: nat, m: nat)
    requires Consistent(s, id, orig) && k < App.NumChunks(|orig|)
    requires App.ChunkStart(k) + m <= App.ChunkEnd(|orig|, k) <= |orig|
    requires s'.ledger.sessions == s.ledger.sessions && id in s'.files
    requires Overwrites(s'.files[id], FileOrEmpty(s, id), App.ChunkStart(k), orig[App.ChunkStart(k)..App.ChunkStart(k) + m])
    requires forall j :: Keyed(s'.ledger.chunks, id, j) ==> Keyed(s.ledger.chunks, id, j) || j == k
    requires Keyed(s'.ledger.chunks, id, k) ==> App.ChunkStart(k) + m == App.ChunkEnd(|orig|, k)
    ensures Consistent(s', id, orig)
  {
    var off, f0 := App.ChunkStart(k), FileOrEmpty(s, id);
    WriteOriginalBytes(f0, orig, off, m);
    OverwritesDetermines(s'.files[id], f0, off, orig[off..off + m]);
    ConsistentAfterWrite(s, s', id, orig, k, s'.files[id]);
  }

  /** Delivering any slice of `orig` to its own index keeps the upload consistent with `orig`. */
  lemma IngestSliceKeepsConsistent(s: Server, id: UploadId, orig: Bytes, k: nat, outcome: WriteOutcome)
    requires Consistent(s, id, orig)
    requires k < App.NumChunks(|orig|) && |orig| <= MAX_SAFE_INTEGER
    ensures Consistent(Ingest(s, id, Num(k), ClientSlice(orig, k), outcome).0, id, orig)
  {
    var slice := ClientSlice(orig, k);
    var (s', rep) := Ingest(s, id, Num(k), slice, outcome);
    IngestSliceRecords(s, id, orig, k, outcome);
    SliceAtOffset(orig, k);
    var off, end := App.ChunkStart(k), App.ChunkEnd(|orig|, k);
    assert Writable(k);
    if rep == Stored {
      ConsistentAfterSliceWrite(s, s', id, orig, k, end - off);
    } else if rep == WriteFailed {
      var m := Min(outcome.written, |slice|);
      SlicePrefix(orig, k, m);
      ConsistentAfterSliceWrite(s, s', id, orig, k, m);
    } else if rep == InternalError {
      assert false;
    }
  }

  /**
   * The chunk handler: as written when `corrected` is false, with the range
   * check of the corrected handler when it is true.
   */
  function Handler(corrected: bool, s: Server, id: UploadId, index: IndexArg, body: Bytes, outcome: WriteOutcome)
    : (Server, ChunkReply)
  {
    if corrected then IndexRange.IngestInRange(s, id, index, body, outcome) else Ingest(s, id, index, body, outcome)
  }

  /** On the indices a client computes for `orig`, the corrected handler and the handler as written agree. */
  lemma HandlersAgreeOnClientIndices(corrected: bool, s: Server, id: UploadId, orig: Bytes, k: nat, body: Bytes, outcome: WriteOutcome)
    requires Consistent(s, id, orig) && k < App.NumChunks(|orig|)
    ensures Handler(corrected, s, id, Num(k), body, outcome) == Ingest(s, id, Num(k), body, outcome)
  {
  }

  /** One chunk upload as the server receives it: the index, and how its write ends. */
  datatype Delivery = Delivery(index: nat, outcome: WriteOutcome)

  predicate ChunkIndices(ds: seq<Delivery>, n: nat) {
    forall j :: 0 <= j < |ds| ==> ds[j].index < n
  }

  /**
   * The server handling the deliveries one after another, each carrying the
   * client's slice for its index, through the handler `corrected` selects.
   */
  function DeliverAll(corrected: bool, s: Server, id: UploadId, orig: Bytes, ds: seq<Delivery>): Server
    requires ChunkIndices(ds, App.NumChunks(|orig|))
    decreases |ds|
  {
    if |ds| == 0 then s
    else
      var d := ds[0];
      DeliverAll(corrected, Handler(corrected, s, id, Num(d.index), ClientSlice(orig, d.index), d.outcome).0, id, orig, ds[1..])
  }

  /** A delivery of index `k` whose write completes. */
  ghost predicate CompletedDelivery(ds: seq<Delivery>, k: nat) {
    exists j :: 0 <= j < |ds| && ds[j].index == k && ds[j].outcome.Completes?
  }

  lemma {:induction false} DeliverAllKeepsConsistent(corrected: bool, s: Server, id: UploadId, orig: Bytes, ds: seq<Delivery>)
    requires Valid(s) && Consistent(s, id, orig) && |orig| <= MAX_SAFE_INTEGER
    requires ChunkIndices(ds, App.NumChunks(|orig|))
    ensures var s' := DeliverAll(corrected, s, id, orig, ds);
      && Valid(s') && Consistent(s', id, orig)
      && s'.ledger.sessions == s.ledger.sessions
      && (forall k: nat :: Keyed(s.ledger.chunks, id, k) || CompletedDelivery(ds, k) ==> Keyed(s'.ledger.chunks, id, k))
    decreases |ds|
  {
    if |ds| > 0 {
      var s1 := Ingest(s, id, Num(ds[0].index), ClientSlice(orig, ds[0].index), ds[0].outcome).0;
      HandlersAgreeOnClientIndices(corrected, s, id, orig, ds[0].index, ClientSlice(orig, ds[0].index), ds[0].outcome);
      IngestPreservesValid(s, id, Num(ds[0].index), ClientSlice(orig, ds[0].index), ds[0].outcome);
      IngestSliceKeepsConsistent(s, id, orig, ds[0].index, ds[0].outcome);
      IngestSliceRecords(s, id, orig, ds[0].index, ds[0].outcome);
      var rest := ds[1..];
      assert ChunkIndices(rest, App.NumChunks(|orig|));
      DeliverAllKeepsConsistent(corrected, s1, id, orig, rest);
      forall k: nat | Keyed(s.ledger.chunks, id, k) || CompletedDelivery(ds, k)
        ensures Keyed(DeliverAll(corrected, s, id, orig, ds).ledger.chunks, id, k)
      {
        if !Keyed(s1.ledger.chunks, id, k) {
          var j :| 0 <= j < |ds| && ds[j].index == k && ds[j].outcome.Completes?;
          assert j != 0;
          assert rest[j - 1] == ds[j];
          assert CompletedDelivery(rest, k);
        }
      }
    }
  }

  /** Once every index of a consistent upload is recorded, its backing file is exactly the original. */
  lemma AllRecordedMeansAssembled(s: Server, id: UploadId, orig: Bytes)
    requires Consistent(s, id, orig) && |orig| > 0
    requires forall k :: 0 <= k < App.NumChunks(|orig|) ==> Keyed(s.ledger.chunks, id, k)
    ensures id in s.files && s.files[id] == orig
  {
    var n := App.NumChunks(|orig|);
    App.ChunkOfPosition(|orig|, |orig| - 1);
    var last := (|orig| - 1) / App.CHUNK_SIZE;
    assert Keyed(s.ledger.chunks, id, last);
    var f := s.files[id];
    assert |f| == |orig|;
    forall p | 0 <= p < |orig| ensures f[p] == orig[p] {
      App.ChunkOfPosition(|orig|, p);
      var k := p / App.CHUNK_SIZE;
      assert Keyed(s.ledger.chunks, id, k);
      assert Agrees(f, orig, App.ChunkStart(k), App.ChunkEnd(|orig|, k));
    }
  }

  /**
   * The end-to-end property. Starting from a consistent upload that is not yet
   * finalized, deliver the client's slices in any order, with repeats and
   * failed writes, so that each index is either already recorded or written
   * to completion at least once. Then, with the chunk handler as written
   * or with the corrected one, the backing file equals the original file,
   * finalize succeeds with the digest of the original, and every later
   * finalize returns that same digest.
   */
  lemma ReassemblesInAnyOrder(
    corrected: bool, s: Server, id: UploadId, orig: Bytes, ds: seq<Delivery>,
    sha256: Bytes -> Digest, zipPeek: Option<seq<string>>,
    sha256': Bytes -> Digest, zipPeek': Option<seq<string>>)
    requires Valid(s) && Consistent(s, id, orig)
    requires 0 < |orig| <= MAX_SAFE_INTEGER
    requires s.ledger.sessions[id].status != Completed
    requires ChunkIndices(ds, App.NumChunks(|orig|))
    requires forall k: nat :: k < App.NumChunks(|orig|) ==> Keyed(s.ledger.chunks, id, k) || CompletedDelivery(ds, k)
    ensures var s1 := DeliverAll(corrected, s, id, orig, ds);
      && id in s1.files && s1.files[id] == orig
      && var (s2, rep) := Finalize(s1, id, sha256, zipPeek);
      && rep == Finalized(sha256(orig), zipPeek.GetOr([]))
      && Finalize(s2, id, sha256', zipPeek') == (s2, AlreadyFinalized(Some(sha256(orig))))
  {
    var n := App.NumChunks(|orig|);
    var s1 := DeliverAll(corrected, s, id, orig, ds);
    DeliverAllKeepsConsistent(corrected, s, id, orig, ds);
    AllRecordedMeansAssembled(s1, id, orig);
    CountGateMeansComplete(s1.ledger.chunks, id, n);
    assert CountOf(s1.ledger.chunks, id) == s1.ledger.sessions[id].totalChunks;
  }

  /**
   * A new file from scratch: init, then deliveries covering every index with
   * at least one completed write, then finalize, yields the digest of the file.
   */
  lemma NewUploadRoundTrip(
    corrected: bool, s: Server, name: string, orig: Bytes, ds: seq<Delivery>, sha256: Bytes -> Digest, zipPeek: Option<seq<string>>)
    requires Valid(s) && name != "" && 0 < |orig| <= MAX_SAFE_INTEGER
    requires !HasSessionFor(s.ledger, name, |orig|)
    requires ChunkIndices(ds, App.NumChunks(|orig|))
    requires forall k: nat :: k < App.NumChunks(|orig|) ==> CompletedDelivery(ds, k)
    ensures var (s1, rep) := Init(s, InitRequest(Some(name), Some(|orig|), Some(App.CHUNK_SIZE)));
      && rep.InitOk?
      && var s2 := DeliverAll(corrected, s1, rep.uploadId, orig, ds);
      && rep.uploadId in s2.files && s2.files[rep.uploadId] == orig
      && Finalize(s2, rep.uploadId, sha256, zipPeek).1 == Finalized(sha256(orig), zipPeek.GetOr([]))
  {
    var r := Init(s, InitRequest(Some(name), Some(|orig|), Some(App.CHUNK_SIZE)));
    InitStartsConsistent(s, name, orig);
    var s1, id := r.0, r.1.uploadId;
    assert Valid(s1) && Consistent(s1, id, orig);
    assert s1.ledger.sessions[id].status != Completed;
    ReassemblesInAnyOrder(corrected, s1, id, orig, ds, sha256, zipPeek, sha256, zipPeek);
  }

  // ---------------------------------------------------------------- the client's own run

  /**
   * Every session already recorded for this file name and size is consistent
   * with `orig` and not finalized. The server resumes on name and size alone,
   * so a different file of the same name and size breaks this hypothesis.
   */
  ghost predicate ResumableFor(s: Server, name: string, orig: Bytes) {
    forall id :: (id in s.ledger.sessions && s.ledger.sessions[id].filename == name
                  && s.ledger.sessions[id].totalSize == |orig|) ==>
      Consistent(s, id, orig) && s.ledger.sessions[id].status != Completed
  }

  /** The client's init, whether it creates the session or resumes it, leaves a consistent, unfinalized upload. */
  lemma InitForClient(s: Server, name: string, orig: Bytes)
    requires Valid(s) && name != "" && |orig| > 0 && ResumableFor(s, name, orig)
    ensures var (s1, rep) := Init(s, InitRequest(Some(name), Some(|orig|), Some(App.CHUNK_SIZE)));
      && rep.InitOk? && Valid(s1) && Consistent(s1, rep.uploadId, orig)
      && s1.ledger.sessions[rep.uploadId].status != Completed
      && (forall k :: k in rep.uploadedChunks <==> Keyed(s1.ledger.chunks, rep.uploadId, k))
  {
    var req := InitRequest(Some(name), Some(|orig|), Some(App.CHUNK_SIZE));
    InitFindOrCreate(s, req);
    InitPreservesValid(s, req);
    if !HasSessionFor(s.ledger, name, |orig|) {
      InitStartsConsistent(s, name, orig);
    }
  }

  /** The chunk requests of a run as the server sees them: the index sent, and how the write of request `j` ends. */
  function Sent(reqs: seq<App.Request>, writes: nat -> WriteOutcome): seq<Delivery>
    requires forall rq :: rq in reqs ==> rq.ChunkRequest?
  {
    seq(|reqs|, j requires 0 <= j < |reqs| => Delivery(reqs[j].index, writes(j)))
  }

  /** Every chunk the client schedules has at least one request whose write completes. */
  predicate EveryPendingStored(uploaded: seq<int>, middle: seq<App.Request>, writes: nat -> WriteOutcome, n: nat) {
    forall k: nat :: k < n && k !in uploaded ==>
      exists j :: 0 <= j < |middle| && middle[j].ChunkRequest? && middle[j].index == k && writes(j).Completes?
  }

  /** The chunk requests of `startUpload` carry exactly the client's slice for their index. */
  lemma RunSendsClientSlices(orig: Bytes, uploaded: seq<int>, net: (nat, nat) -> bool, p: App.Pool)
    ensures var r := App.StartUpload(App.ChunksOf(orig), uploaded, net, p);
      forall rq :: rq in r.requests[|p.requests|..|r.requests| - 1] ==>
        rq.ChunkRequest? && rq.index < App.NumChunks(|orig|) && rq.index !in uploaded
        && rq.blob == ClientSlice(orig, rq.index)
  {
    var cs := App.ChunksOf(orig);
    var r := App.StartUpload(cs, uploaded, net, p);
    forall rq | rq in r.requests[|p.requests|..|r.requests| - 1]
      ensures rq.ChunkRequest? && rq.index < App.NumChunks(|orig|) && rq.blob == ClientSlice(orig, rq.index)
    {
      var i :| 0 <= i < |cs| && cs[i] == App.Chunk(rq.index, rq.blob);
      App.ChunkSlice(orig, i);
    }
  }

  /** The chunk requests a run of `startUpload` sends, between init and finalize. */
  function ChunkRequestsOf(orig: Bytes, uploaded: seq<int>, net: (nat, nat) -> bool, p: App.Pool)
    : (middle: seq<App.Request>)
    ensures forall rq :: rq in middle ==>
      rq.ChunkRequest? && rq.index < App.NumChunks(|orig|) && rq.index !in uploaded
      && rq.blob == ClientSlice(orig, rq.index)
  {
    RunSendsClientSlices(orig, uploaded, net, p);
    var r := App.StartUpload(App.ChunksOf(orig), uploaded, net, p);
    r.requests[|p.requests|..|r.requests| - 1]
  }

  /** Chunk requests handled in the order sent, each scheduled index written to completion once, reassemble the file. */
  lemma SentRequestsReassemble(
    corrected: bool, s1: Server, id: UploadId, orig: Bytes, uploaded: seq<int>, middle: seq<App.Request>,
    writes: nat -> WriteOutcome, sha256: Bytes -> Digest, zipPeek: Option<seq<string>>)
    requires Valid(s1) && Consistent(s1, id, orig) && s1.ledger.sessions[id].status != Completed
    requires 0 < |orig| <= MAX_SAFE_INTEGER
    requires forall k :: k in uploaded <==> Keyed(s1.ledger.chunks, id, k)
    requires forall rq :: rq in middle ==> rq.ChunkRequest? && rq.index < App.NumChunks(|orig|)
    requires EveryPendingStored(uploaded, middle, writes, App.NumChunks(|orig|))
    ensures var s2 := DeliverAll(corrected, s1, id, orig, Sent(middle, writes));
      && id in s2.files && s2.files[id] == orig
      && Finalize(s2, id, sha256, zipPeek).1 == Finalized(sha256(orig), zipPeek.GetOr([]))
  {
    var n := App.NumChunks(|orig|);
    var ds := Sent(middle, writes);
    assert ChunkIndices(ds, n) by {
      forall j | 0 <= j < |ds| ensures ds[j].index < n {
        assert middle[j] in middle;
      }
    }
    forall k: nat | k < n ensures Keyed(s1.ledger.chunks, id, k) || CompletedDelivery(ds, k) {
      if !Keyed(s1.ledger.chunks, id, k) {
        assert k !in uploaded;
        var j :| 0 <= j < |middle| && middle[j].ChunkRequest? && middle[j].index == k && writes(j).Completes?;
        assert ds[j].index == k && ds[j].outcome.Completes?;
      }
    }
    ReassemblesInAnyOrder(corrected, s1, id, orig, ds, sha256, zipPeek, sha256, zipPeek);
  }

  /** The client's init request for `orig`. */
  function InitFor(name: string, orig: Bytes): InitRequest {
    InitRequest(Some(name), Some(|orig|), Some(App.CHUNK_SIZE))
  }

  /**
   * The whole transfer: the client inits, `startUpload` sends its chunk
   * requests (each carrying the client's own slice), and the server handles
   * them in the order sent, with any mix of failed writes as long as every
   * scheduled chunk is written to completion once; the finalize request the
   * run ends with then returns the digest of the original file.
   */
  lemma ClientRunReassembles(
    corrected: bool, s: Server, name: string, orig: Bytes, net: (nat, nat) -> bool, p: App.Pool,
    writes: nat -> WriteOutcome, sha256: Bytes -> Digest, zipPeek: Option<seq<string>>)
    requires Valid(s) && name != "" && 0 < |orig| <= MAX_SAFE_INTEGER && ResumableFor(s, name, orig)
    requires var rep := Init(s, InitFor(name, orig)).1;
      rep.InitOk? &&
      EveryPendingStored(rep.uploadedChunks, ChunkRequestsOf(orig, rep.uploadedChunks, net, p), writes,
        App.NumChunks(|orig|))
    ensures var (s1, rep) := Init(s, InitFor(name, orig));
      && rep.InitOk?
      && var s2 := DeliverAll(corrected, s1, rep.uploadId, orig, Sent(ChunkRequestsOf(orig, rep.uploadedChunks, net, p), writes));
      && rep.uploadId in s2.files && s2.files[rep.uploadId] == orig
      && Finalize(s2, rep.uploadId, sha256, zipPeek).1 == Finalized(sha256(orig), zipPeek.GetOr([]))
  {
    var (s1, rep) := Init(s, InitFor(name, orig));
    InitForClient(s, name, orig);
    SentRequestsReassemble(corrected, s1, rep.uploadId, orig, rep.uploadedChunks,
      ChunkRequestsOf(orig, rep.uploadedChunks, net, p), writes, sha256, zipPeek);
  }
}
