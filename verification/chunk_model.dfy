/**
 * The chunk document of the session ledger (backend/src/models/chunk.model.js):
 * one record per received chunk index of an upload, with the schema's field
 * validation, its status enumeration and default, and the unique compound
 * index on (uploadId, chunkIndex).
 */
module ChunkModel {
  import opened Results

  /** Identity of an upload session (a Mongo ObjectId). */
  type UploadId = nat

  datatype ChunkStatus = Pending | Received

  function ChunkStatusName(s: ChunkStatus): string {
    match s
    case Pending => "PENDING"
    case Received => "RECEIVED"
  }

  /** The schema's `enum` check: only the two declared names are accepted. */
  function ParseChunkStatus(name: string): (r: Option<ChunkStatus>)
    ensures r.Some? ==> ChunkStatusName(r.value) == name
  {
    if name == "PENDING" then Some(Pending)
    else if name == "RECEIVED" then Some(Received)
    else None
  }

  lemma ChunkStatusNameRoundTrip(s: ChunkStatus)
    ensures ParseChunkStatus(ChunkStatusName(s)) == Some(s)
  {
  }

  datatype ChunkRecord = ChunkRecord(uploadId: UploadId, chunkIndex: int, status: ChunkStatus)

  /** The schema fields a failed validation names. */
  datatype ChunkField = UploadIdField | ChunkIndexField | StatusField

  /**
   * Creating a chunk document: `uploadId` and `chunkIndex` are required,
   * `status` must be one of the enumerated names and defaults to RECEIVED.
   * Validation reports every offending field.
   */
  function NewChunkRecord(uploadId: Option<UploadId>, chunkIndex: Option<int>, status: Option<string>)
    : (r: Result<ChunkRecord, set<ChunkField>>)
    ensures r.Failure? ==>
      && (UploadIdField in r.error <==> uploadId.None?)
      && (ChunkIndexField in r.error <==> chunkIndex.None?)
      && (StatusField in r.error <==> status.Some? && ParseChunkStatus(status.value).None?)
    ensures r.Success? <==>
      uploadId.Some? && chunkIndex.Some? && (status.None? || ParseChunkStatus(status.value).Some?)
    ensures r.Success? ==>
      && r.value.uploadId == uploadId.value
      && r.value.chunkIndex == chunkIndex.value
      && ChunkStatusName(r.value.status) == status.GetOr("RECEIVED")
  {
    var bad :=
      (if uploadId.None? then {UploadIdField} else {})
      + (if chunkIndex.None? then {ChunkIndexField} else {})
      + (if status.Some? && ParseChunkStatus(status.value).None? then {StatusField} else {});
    if bad != {} then Failure(bad)
    else
      var st := if status.Some? then ParseChunkStatus(status.value).value else Received;
      Success(ChunkRecord(uploadId.value, chunkIndex.value, st))
  }

  /** True when some record carries the key (uploadId, chunkIndex). */
  predicate Keyed(rs: seq<ChunkRecord>, uploadId: UploadId, chunkIndex: int) {
    exists r :: r in rs && r.uploadId == uploadId && r.chunkIndex == chunkIndex
  }

  /** The unique compound index: no two records share (uploadId, chunkIndex). */
  predicate UniqueKeys(rs: seq<ChunkRecord>) {
    forall i, j :: 0 <= i < j < |rs| ==>
      rs[i].uploadId != rs[j].uploadId || rs[i].chunkIndex != rs[j].chunkIndex
  }

  /** The storage engine's duplicate-key rejection. */
  datatype InsertError = DuplicateKey

  /** Inserting a record, refused when its key is already present. */
  function Insert(rs: seq<ChunkRecord>, rec: ChunkRecord): (r: Result<seq<ChunkRecord>, InsertError>)
    ensures r.Failure? <==> Keyed(rs, rec.uploadId, rec.chunkIndex)
    ensures r.Success? ==> r.value == rs + [rec]
    ensures r.Success? && UniqueKeys(rs) ==> UniqueKeys(r.value)
    ensures r.Success? ==> forall u, k :: Keyed(r.value, u, k) <==> Keyed(rs, u, k) || (u == rec.uploadId && k == rec.chunkIndex)
  {
    if Keyed(rs, rec.uploadId, rec.chunkIndex) then Failure(DuplicateKey)
    else
      var rs' := rs + [rec];
      assert forall u, k :: Keyed(rs', u, k) ==> Keyed(rs, u, k) || (u == rec.uploadId && k == rec.chunkIndex) by {
        forall u, k | Keyed(rs', u, k) ensures Keyed(rs, u, k) || (u == rec.uploadId && k == rec.chunkIndex) {
          var r :| r in rs' && r.uploadId == u && r.chunkIndex == k;
          if r != rec { assert r in rs; }
        }
      }
      assert rec in rs';
      assert UniqueKeys(rs) ==> UniqueKeys(rs') by {
        if UniqueKeys(rs) {
          forall i, j | 0 <= i < j < |rs'|
            ensures rs'[i].uploadId != rs'[j].uploadId || rs'[i].chunkIndex != rs'[j].chunkIndex
          {
            if j == |rs| { assert rs'[i] in rs; }
          }
        }
      }
      Success(rs')
  }

  /** `Chunk.find({ uploadId })`: the records of one upload, in insertion order. */
  function RecordsOf(rs: seq<ChunkRecord>, uploadId: UploadId): (out: seq<ChunkRecord>)
    ensures forall r :: r in out <==> r in rs && r.uploadId == uploadId
    ensures |out| == 0 <==> forall r :: r in rs ==> r.uploadId != uploadId
  {
    if |rs| == 0 then []
    else
      var last := rs[|rs| - 1];
      assert rs == rs[..|rs| - 1] + [last];
      RecordsOf(rs[..|rs| - 1], uploadId) + (if last.uploadId == uploadId then [last] else [])
  }

  /** `uploadedChunks.map((c) => c.chunkIndex)`: the indices recorded for one upload. */
  function IndicesOf(rs: seq<ChunkRecord>, uploadId: UploadId): (ks: seq<int>)
    ensures |ks| == CountOf(rs, uploadId)
    ensures forall k :: k in ks <==> Keyed(rs, uploadId, k)
  {
    var recs := RecordsOf(rs, uploadId);
    var ks := seq(|recs|, i requires 0 <= i < |recs| => recs[i].chunkIndex);
    assert forall k :: k in ks ==> Keyed(rs, uploadId, k) by {
      forall k | k in ks ensures Keyed(rs, uploadId, k) {
        var i :| 0 <= i < |ks| && ks[i] == k;
        assert recs[i] in recs;
      }
    }
    assert forall k :: Keyed(rs, uploadId, k) ==> k in ks by {
      forall k | Keyed(rs, uploadId, k) ensures k in ks {
        var r :| r in rs && r.uploadId == uploadId && r.chunkIndex == k;
        var i :| 0 <= i < |recs| && recs[i] == r;
        assert ks[i] == k;
      }
    }
    ks
  }

  /** `Chunk.countDocuments({ uploadId })`. */
  function CountOf(rs: seq<ChunkRecord>, uploadId: UploadId): nat {
    |RecordsOf(rs, uploadId)|
  }

  /** The set of indices recorded for one upload. */
  function IndexSetOf(rs: seq<ChunkRecord>, uploadId: UploadId): (ks: set<int>)
    ensures forall k :: k in ks <==> Keyed(rs, uploadId, k)
  {
    if |rs| == 0 then {}
    else
      var last := rs[|rs| - 1];
      assert rs == rs[..|rs| - 1] + [last];
      IndexSetOf(rs[..|rs| - 1], uploadId) + (if last.uploadId == uploadId then {last.chunkIndex} else {})
  }

  /** Under the unique index, the record count of an upload is the number of distinct indices it holds. */
  lemma {:induction false} CountIsDistinctIndices(rs: seq<ChunkRecord>, uploadId: UploadId)
    requires UniqueKeys(rs)
    ensures |IndexSetOf(rs, uploadId)| == CountOf(rs, uploadId)
  {
    if |rs| > 0 {
      var pre, last := rs[..|rs| - 1], rs[|rs| - 1];
      assert UniqueKeys(pre);
      CountIsDistinctIndices(pre, uploadId);
      assert last.uploadId == uploadId ==> last.chunkIndex !in IndexSetOf(pre, uploadId);
    }
  }

  function Range(n: nat): (s: set<int>)
    ensures forall k :: k in s <==> 0 <= k < n
    ensures |s| == n
  {
    if n == 0 then {} else
      var s := Range(n - 1) + {n - 1};
      assert n - 1 !in Range(n - 1);
      s
  }

  /** A subset of a finite set with the same cardinality is the whole set. */
  lemma SubsetOfEqualSize<T>(a: set<T>, b: set<T>)
    requires a <= b && |a| == |b|
    ensures a == b
  {
    DifferenceSize(a, b);
    assert |b - a| == 0;
  }

  lemma {:induction false} DifferenceSize<T>(a: set<T>, b: set<T>)
    requires a <= b
    ensures |b - a| == |b| - |a|
  {
    if a != {} {
      var x :| x in a;
      DifferenceSize(a - {x}, b - {x});
      assert b - a == (b - {x}) - (a - {x});
    }
  }

  /**
   * When every recorded index of an upload lies in [0, n), the record count
   * equals n exactly when every index of [0, n) is recorded.
   */
  lemma {:induction false} CountGateMeansComplete(rs: seq<ChunkRecord>, uploadId: UploadId, n: nat)
    requires UniqueKeys(rs)
    requires forall k :: Keyed(rs, uploadId, k) ==> 0 <= k < n
    ensures CountOf(rs, uploadId) == n <==> forall k :: 0 <= k < n ==> Keyed(rs, uploadId, k)
  {
    var ks := IndexSetOf(rs, uploadId);
    CountIsDistinctIndices(rs, uploadId);
    assert ks <= Range(n);
    if CountOf(rs, uploadId) == n {
      SubsetOfEqualSize(ks, Range(n));
    }
    if forall k :: 0 <= k < n ==> Keyed(rs, uploadId, k) {
      assert ks == Range(n);
    }
  }
}
