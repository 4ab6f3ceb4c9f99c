/**
 * The client half of the protocol (frontend/src/App.jsx): slicing the file
 * into fixed-size chunks, skipping the chunks the server already holds,
 * sending each remaining chunk with bounded retries and exponential backoff,
 * draining the queue through a worker pool while reporting progress, and
 * requesting finalize once the pool is done.
 *
 * The network is a parameter: `net(index, attempt)` says whether attempt
 * `attempt` (0-based) of chunk `index` got an ok response. Workers run one
 * after another; timer waits are recorded as delay values.
 */
module App {
  import opened JsMath

  /** The client's transfer unit (5 MiB), also sent as `chunkSize` at init. */
  const CHUNK_SIZE: nat := 5 * 1024 * 1024

  /** Retries after the first attempt of a chunk. */
  const MAX_RETRIES: nat := 3

  /** Delay before the first retry, in milliseconds. */
  const BASE_DELAY_MS: nat := 500

  /** Default worker count of the pool. */
  const POOL_LIMIT: nat := 3

  type Bytes = seq<bv8>

  datatype Chunk = Chunk(index: nat, blob: Bytes)

  // ---------------------------------------------------------------- slicing

  /** `Blob.slice(start, end)` for non-negative bounds: both are clamped to the size. */
  function BlobSlice(file: Bytes, start: nat, end: nat): Bytes {
    var lo := Min(start, |file|);
    var hi := Max(lo, Min(end, |file|));
    file[lo..hi]
  }

  /** The number of chunks of a file of `size` bytes. */
  function NumChunks(size: nat): nat {
    (size + CHUNK_SIZE - 1) / CHUNK_SIZE
  }

  function ChunkStart(i: nat): nat {
    i * CHUNK_SIZE
  }

  function ChunkEnd(size: nat, i: nat): nat {
    Min((i + 1) * CHUNK_SIZE, size)
  }

  /** Chunk `i` carries `blob = file.slice(i·CHUNK_SIZE, i·CHUNK_SIZE + CHUNK_SIZE)`. */
  function ChunksOf(file: Bytes): seq<Chunk> {
    seq(NumChunks(|file|), i requires 0 <= i < NumChunks(|file|) =>
      Chunk(i, BlobSlice(file, i * CHUNK_SIZE, i * CHUNK_SIZE + CHUNK_SIZE)))
  }

  /**
   * `createChunks`: the loop as written, stepping `index` while
   * `index * CHUNK_SIZE < file.size`.
   */
  method CreateChunks(file: Bytes) returns (chunks: seq<Chunk>)
    ensures chunks == ChunksOf(file)
  {
    chunks := [];
    var index: nat := 0;
    while index * CHUNK_SIZE < |file|
      invariant index <= NumChunks(|file|)
      invariant chunks == ChunksOf(file)[..index]
      decreases |file| - index * CHUNK_SIZE
    {
      chunks := chunks + [Chunk(index, BlobSlice(file, index * CHUNK_SIZE, index * CHUNK_SIZE + CHUNK_SIZE))];
      index := index + 1;
    }
  }

  /**
   * The chunks are `ceil(size / CHUNK_SIZE)` in number, indexed 0..n-1; chunk
   * i is exactly the bytes [i·CHUNK_SIZE, min((i+1)·CHUNK_SIZE, size)), each
   * non-empty, each starting where the previous one ends, the last ending at
   * the end of the file; an empty file has none.
   */
  lemma ChunkLayout(file: Bytes)
    ensures var cs := ChunksOf(file);
      && |cs| == CeilDiv(|file|, CHUNK_SIZE)
      && (|file| == 0 <==> |cs| == 0)
      && (forall i :: 0 <= i < |cs| ==>
            && cs[i].index == i
            && ChunkStart(i) < ChunkEnd(|file|, i)
            && cs[i].blob == file[ChunkStart(i)..ChunkEnd(|file|, i)])
      && (forall i :: 0 <= i < |cs| - 1 ==> ChunkEnd(|file|, i) == ChunkStart(i + 1))
      && (|cs| > 0 ==> ChunkEnd(|file|, |cs| - 1) == |file|)
  {
    var n := NumChunks(|file|);
    assert (n - 1) * CHUNK_SIZE < |file| <= n * CHUNK_SIZE;
  }

  /** Every byte of the file lies in the chunk its position divided by the chunk size names. */
  lemma ChunkOfPosition(size: nat, p: nat)
    requires p < size
    ensures p / CHUNK_SIZE < NumChunks(size)
    ensures ChunkStart(p / CHUNK_SIZE) <= p < ChunkEnd(size, p / CHUNK_SIZE)
  {
    var k, n := p / CHUNK_SIZE, NumChunks(size);
    assert n == CeilDiv(size, CHUNK_SIZE);
    assert k * CHUNK_SIZE <= p < (k + 1) * CHUNK_SIZE;
    CancelFactor(k, n, CHUNK_SIZE);
  }

  /** The blobs laid end to end. */
  function Concat(cs: seq<Chunk>): Bytes {
    if |cs| == 0 then [] else Concat(cs[..|cs| - 1]) + cs[|cs| - 1].blob
  }

  /** Concatenating the chunks in index order gives back the file. */
  lemma ChunksConcatenateToFile(file: Bytes)
    ensures Concat(ChunksOf(file)) == file
  {
    var cs := ChunksOf(file);
    ChunkLayout(file);
    ConcatPrefix(file, |cs|);
    assert cs[..|cs|] == cs;
  }

  lemma {:induction false} ConcatPrefix(file: Bytes, k: nat)
    requires k <= NumChunks(|file|)
    ensures Concat(ChunksOf(file)[..k]) == file[..Min(k * CHUNK_SIZE, |file|)]
  {
    if k > 0 {
      var cs := ChunksOf(file);
      ConcatPrefix(file, k - 1);
      ChunkSlice(file, k - 1);
      assert cs[..k][..k - 1] == cs[..k - 1];
      assert file[..Min(k * CHUNK_SIZE, |file|)]
          == file[..ChunkStart(k - 1)] + file[ChunkStart(k - 1)..ChunkEnd(|file|, k - 1)];
    }
  }

  /** Chunk `i` is the non-empty stretch [ChunkStart(i), ChunkEnd(i)) of the file. */
  lemma ChunkSlice(file: Bytes, i: nat)
    requires i < NumChunks(|file|)
    ensures ChunkStart(i) < ChunkEnd(|file|, i) <= |file|
    ensures ChunksOf(file)[i] == Chunk(i, file[ChunkStart(i)..ChunkEnd(|file|, i)])
  {
    var n := NumChunks(|file|);
    assert n == CeilDiv(|file|, CHUNK_SIZE);
    ScaleMonotonic(i, n - 1, CHUNK_SIZE);
  }

  // ---------------------------------------------------------------- resume

  /** `chunks.filter((c) => !uploadedChunks.includes(c.index))`. */
  function PendingChunks(chunks: seq<Chunk>, uploaded: seq<int>): (p: seq<Chunk>)
    ensures forall c :: c in p <==> c in chunks && c.index !in uploaded
    ensures |p| <= |chunks|
  {
    if |chunks| == 0 then []
    else (if chunks[0].index in uploaded then [] else [chunks[0]]) + PendingChunks(chunks[1..], uploaded)
  }

  predicate Ascending(cs: seq<Chunk>) {
    forall i, j :: 0 <= i < j < |cs| ==> cs[i].index < cs[j].index
  }

  /** The filter keeps the original order: ascending indices stay ascending. */
  lemma {:induction false} PendingKeepsOrder(chunks: seq<Chunk>, uploaded: seq<int>)
    requires Ascending(chunks)
    ensures Ascending(PendingChunks(chunks, uploaded))
  {
    if |chunks| > 0 {
      var rest := PendingChunks(chunks[1..], uploaded);
      PendingKeepsOrder(chunks[1..], uploaded);
      forall c | c in rest ensures chunks[0].index < c.index {
        var j :| 0 <= j < |chunks[1..]| && chunks[1..][j] == c;
        assert chunks[j + 1] == c;
      }
    }
  }

  /** The pending list of a file's chunks keeps the file's order: unreported chunks in ascending index order. */
  lemma PendingInFileOrder(file: Bytes, uploaded: seq<int>)
    ensures Ascending(PendingChunks(ChunksOf(file), uploaded))
  {
    PendingKeepsOrder(ChunksOf(file), uploaded);
  }

  /**
   * A chunk's entry in the client's status map. `Uploading` is the transient
   * value an attempt sets while it runs; every attempt overwrites it before
   * the chunk is done, so the operations here record only the final
   * "success" or "error" and never produce it.
   */
  datatype ChunkState = Uploading | Success | Error

  /** The status map built at init: every reported index marked "success". */
  function InitialStatus(uploaded: seq<int>): (m: map<int, ChunkState>)
    ensures forall i :: i in m <==> i in uploaded
    ensures forall i :: i in m ==> m[i] == Success
  {
    map i | i in uploaded :: Success
  }

  /**
   * Every chunk of the file is either scheduled or already marked "success",
   * never both.
   */
  lemma ResumeSplitsChunks(file: Bytes, uploaded: seq<int>)
    ensures forall c :: c in ChunksOf(file) ==>
      (c in PendingChunks(ChunksOf(file), uploaded) <==> c.index !in InitialStatus(uploaded))
    ensures forall c :: c in ChunksOf(file) && c !in PendingChunks(ChunksOf(file), uploaded) ==>
      InitialStatus(uploaded)[c.index] == Success
  {
  }

  // ---------------------------------------------------------------- retry

  /** The wait before retry number `retry + 1`: `Math.pow(2, retry) * 500` ms. */
  function Backoff(retry: nat): nat {
    Pow2(retry) * BASE_DELAY_MS
  }

  lemma BackoffSchedule()
    ensures Backoff(0) == 500 && Backoff(1) == 1000 && Backoff(2) == 2000
  {
  }

  /** One chunk's life: its final state, how many requests it took, the waits between them. */
  datatype ChunkRun = ChunkRun(outcome: ChunkState, attempts: nat, delays: seq<nat>)

  /** `uploadChunk(uploadId, chunk, retry)` for the chunk with index `index`. */
  function Attempt(net: (nat, nat) -> bool, index: nat, retry: nat): (run: ChunkRun)
    requires retry <= MAX_RETRIES
    ensures run.outcome == Success || run.outcome == Error
    ensures 1 <= run.attempts <= MAX_RETRIES + 1 - retry
    ensures |run.delays| == run.attempts - 1
    ensures forall k :: 0 <= k < |run.delays| ==> run.delays[k] == Backoff(retry + k)
    ensures forall a :: retry <= a < retry + run.attempts - 1 ==> !net(index, a)
    ensures run.outcome == Success <==> net(index, retry + run.attempts - 1)
    ensures run.outcome == Error ==> run.attempts == MAX_RETRIES + 1 - retry
    decreases MAX_RETRIES - retry
  {
    if net(index, retry) then ChunkRun(Success, 1, [])
    else if retry < MAX_RETRIES then
      var rest := Attempt(net, index, retry + 1);
      ChunkRun(rest.outcome, rest.attempts + 1, [Backoff(retry)] + rest.delays)
    else ChunkRun(Error, 1, [])
  }

  /**
   * A chunk is sent at most four times. It ends "success" on the first ok
   * response, or "error" after four failed attempts; the waits before the
   * retries are 500, 1000 and 2000 ms in turn.
   */
  function UploadChunk(net: (nat, nat) -> bool, index: nat): (run: ChunkRun)
    ensures 1 <= run.attempts <= MAX_RETRIES + 1
    ensures forall k :: 0 <= k < |run.delays| ==> run.delays[k] == BASE_DELAY_MS * Pow2(k)
    ensures |run.delays| == run.attempts - 1
    ensures forall a :: 0 <= a < run.attempts - 1 ==> !net(index, a)
    ensures run.outcome == Success <==> net(index, run.attempts - 1)
    ensures run.outcome == Error <==> run.attempts == MAX_RETRIES + 1 && !net(index, MAX_RETRIES)
    ensures run.outcome == Success || run.outcome == Error
  {
    Attempt(net, index, 0)
  }

  // ---------------------------------------------------------------- pool

  /** A request the client sends: one chunk attempt, or the finalize call. */
  datatype Request = ChunkRequest(index: nat, blob: Bytes) | FinalizeRequest

  /** The client's observable state across a transfer. */
  datatype Pool = Pool(
    completed: nat,                  // chunks taken off the queue and finished
    status: map<int, ChunkState>,    // the per-chunk status map
    uploadedBytes: int,              // bytes of chunks that ended "success"
    progress: seq<int>,              // every value passed to the progress setter, in order
    requests: seq<Request>)          // every request sent, in order

  function Repeat(rq: Request, n: nat): (rs: seq<Request>)
    ensures |rs| == n && forall k :: 0 <= k < n ==> rs[k] == rq
  {
    seq(n, _ => rq)
  }

  predicate IndexIn(queue: seq<Chunk>, i: int) {
    exists c :: c in queue && c.index == i
  }

  /** The bytes of the queued chunks whose run ends "success". */
  function SucceededBytes(queue: seq<Chunk>, net: (nat, nat) -> bool): nat {
    if |queue| == 0 then 0
    else
      (if UploadChunk(net, queue[0].index).outcome == Success then |queue[0].blob| else 0)
      + SucceededBytes(queue[1..], net)
  }

  /** One worker iteration: take `c` off the queue, send it, count it, report progress. */
  function Step(c: Chunk, total: nat, net: (nat, nat) -> bool, p: Pool): Pool
    requires p.completed < total
  {
    var run := UploadChunk(net, c.index);
    var completed := p.completed + 1;
    Pool(
      completed,
      p.status[c.index := run.outcome],
      if run.outcome == Success then p.uploadedBytes + |c.blob| else p.uploadedBytes,
      p.progress + [Percent(completed, total)],
      p.requests + Repeat(ChunkRequest(c.index, c.blob), run.attempts))
  }

  /** Workers taking chunks off the front of the shared queue until it is empty. */
  function Drain(queue: seq<Chunk>, total: nat, net: (nat, nat) -> bool, p: Pool): (r: Pool)
    requires p.completed + |queue| == total
    ensures r.completed == total
    ensures |r.progress| == |p.progress| + |queue|
    decreases |queue|
  {
    if |queue| == 0 then p
    else Drain(queue[1..], total, net, Step(queue[0], total, net, p))
  }

  /** The progress values reported for `count` chunks finishing after `done` had finished. */
  function ProgressSteps(done: nat, count: nat, total: nat): (vs: seq<int>)
    requires done + count <= total
    ensures |vs| == count
    decreases count
  {
    if count == 0 then [] else [Percent(done + 1, total)] + ProgressSteps(done + 1, count - 1, total)
  }

  lemma {:induction false} ProgressStepsAt(done: nat, count: nat, total: nat)
    requires done + count <= total
    ensures forall k :: 0 <= k < count ==> ProgressSteps(done, count, total)[k] == Percent(done + 1 + k, total)
    decreases count
  {
    if count > 0 {
      ProgressStepsAt(done + 1, count - 1, total);
    }
  }

  /** The requests the workers send for `queue`: every attempt of each chunk, in queue order. */
  function RequestsFor(queue: seq<Chunk>, net: (nat, nat) -> bool): seq<Request> {
    if |queue| == 0 then []
    else
      var c := queue[0];
      Repeat(ChunkRequest(c.index, c.blob), UploadChunk(net, c.index).attempts) + RequestsFor(queue[1..], net)
  }

  /** Draining appends the queue's progress reports to those already made. */
  lemma {:induction false} DrainAppendsProgress(queue: seq<Chunk>, total: nat, net: (nat, nat) -> bool, p: Pool)
    requires p.completed + |queue| == total
    ensures Drain(queue, total, net, p).progress == p.progress + ProgressSteps(p.completed, |queue|, total)
    decreases |queue|
  {
    if |queue| > 0 {
      var p' := Step(queue[0], total, net, p);
      assert Drain(queue, total, net, p) == Drain(queue[1..], total, net, p');
      DrainAppendsProgress(queue[1..], total, net, p');
      assert p'.progress == p.progress + [Percent(p.completed + 1, total)];
    }
  }

  /** Draining appends the queue's requests to those already sent. */
  lemma {:induction false} DrainAppendsRequests(queue: seq<Chunk>, total: nat, net: (nat, nat) -> bool, p: Pool)
    requires p.completed + |queue| == total
    ensures Drain(queue, total, net, p).requests == p.requests + RequestsFor(queue, net)
    decreases |queue|
  {
    if |queue| > 0 {
      var c := queue[0];
      var p' := Step(c, total, net, p);
      assert Drain(queue, total, net, p) == Drain(queue[1..], total, net, p');
      DrainAppendsRequests(queue[1..], total, net, p');
      var mine := Repeat(ChunkRequest(c.index, c.blob), UploadChunk(net, c.index).attempts);
      var later := RequestsFor(queue[1..], net);
      assert p'.requests == p.requests + mine;
      assert RequestsFor(queue, net) == mine + later;
      assert p.requests + (mine + later) == (p.requests + mine) + later;
    }
  }

  /** The requests for a queue are requests for its chunks, and every chunk is requested at least once. */
  lemma {:induction false} RequestsForCoverQueue(queue: seq<Chunk>, net: (nat, nat) -> bool)
    ensures forall rq :: rq in RequestsFor(queue, net) ==> rq.ChunkRequest? && Chunk(rq.index, rq.blob) in queue
    ensures forall c :: c in queue ==> ChunkRequest(c.index, c.blob) in RequestsFor(queue, net)
    decreases |queue|
  {
    if |queue| > 0 {
      var c0 := queue[0];
      var mine := Repeat(ChunkRequest(c0.index, c0.blob), UploadChunk(net, c0.index).attempts);
      assert RequestsFor(queue, net) == mine + RequestsFor(queue[1..], net);
      RequestsForCoverQueue(queue[1..], net);
      assert mine[0] == ChunkRequest(c0.index, c0.blob);
      forall c | c in queue ensures ChunkRequest(c.index, c.blob) in RequestsFor(queue, net) {
        if c != c0 {
          assert c in queue[1..];
        }
      }
      forall rq | rq in RequestsFor(queue, net) ensures rq.ChunkRequest? && Chunk(rq.index, rq.blob) in queue {
        if rq !in mine {
          assert rq in RequestsFor(queue[1..], net);
          assert forall d :: d in queue[1..] ==> d in queue;
        }
      }
    }
  }

  /** The k-th value reported while draining is `round(k / total * 100)`; earlier reports are kept. */
  lemma DrainProgress(queue: seq<Chunk>, total: nat, net: (nat, nat) -> bool, p: Pool)
    requires p.completed + |queue| == total
    ensures var r := Drain(queue, total, net, p);
      && r.progress[..|p.progress|] == p.progress
      && forall k :: |p.progress| <= k < |r.progress| ==>
           r.progress[k] == Percent(p.completed + 1 + (k - |p.progress|), total)
  {
    DrainAppendsProgress(queue, total, net, p);
    ProgressStepsAt(p.completed, |queue|, total);
    var r := Drain(queue, total, net, p);
    assert r.progress[..|p.progress|] == p.progress;
  }

  /** Every chunk on the queue is requested, and nothing but queued chunks is requested. */
  lemma DrainRequests(queue: seq<Chunk>, total: nat, net: (nat, nat) -> bool, p: Pool)
    requires p.completed + |queue| == total
    ensures var r := Drain(queue, total, net, p);
      && |r.requests| >= |p.requests| && r.requests[..|p.requests|] == p.requests
      && (forall rq :: rq in r.requests[|p.requests|..] ==> rq.ChunkRequest? && Chunk(rq.index, rq.blob) in queue)
      && (forall c :: c in queue ==> ChunkRequest(c.index, c.blob) in r.requests[|p.requests|..])
  {
    DrainAppendsRequests(queue, total, net, p);
    RequestsForCoverQueue(queue, net);
    var r := Drain(queue, total, net, p);
    assert r.requests[..|p.requests|] == p.requests;
    assert r.requests[|p.requests|..] == RequestsFor(queue, net);
  }

  /**
   * Each queued chunk ends with the outcome of its own retry run, "success"
   * or "error"; statuses of other indices are untouched.
   */
  lemma {:induction false} DrainStatus(queue: seq<Chunk>, total: nat, net: (nat, nat) -> bool, p: Pool)
    requires p.completed + |queue| == total
    ensures var r := Drain(queue, total, net, p);
      && (forall c :: c in queue ==> c.index in r.status && (r.status[c.index] == Success || r.status[c.index] == Error))
      && (forall c :: c in queue ==> r.status[c.index] == UploadChunk(net, c.index).outcome)
      && (forall i :: i in p.status && !IndexIn(queue, i) ==> i in r.status && r.status[i] == p.status[i])
    decreases |queue|
  {
    if |queue| > 0 {
      var p' := Step(queue[0], total, net, p);
      var r := Drain(queue[1..], total, net, p');
      DrainStatus(queue[1..], total, net, p');
      forall c | c in queue ensures c.index in r.status && r.status[c.index] == UploadChunk(net, c.index).outcome {
        if c !in queue[1..] {
          assert c == queue[0];
          if IndexIn(queue[1..], c.index) {
            var d :| d in queue[1..] && d.index == c.index;
          }
        }
      }
      forall i | i in p.status && !IndexIn(queue, i) ensures i in r.status && r.status[i] == p.status[i] {
        assert queue[0] in queue;
        assert forall d :: d in queue[1..] ==> d in queue;
      }
    }
  }

  /** `uploadedBytes` grows by exactly the sizes of the queued chunks that end "success". */
  lemma {:induction false} DrainBytes(queue: seq<Chunk>, total: nat, net: (nat, nat) -> bool, p: Pool)
    requires p.completed + |queue| == total
    ensures Drain(queue, total, net, p).uploadedBytes == p.uploadedBytes + SucceededBytes(queue, net)
    decreases |queue|
  {
    if |queue| > 0 {
      DrainBytes(queue[1..], total, net, Step(queue[0], total, net, p));
    }
  }

  /**
   * `uploadChunksWithLimit(pending, limit)`: with at least one worker every
   * pending chunk is taken off the queue exactly once; with none, nothing happens.
   */
  function UploadChunksWithLimit(pending: seq<Chunk>, limit: nat, net: (nat, nat) -> bool, p: Pool): (r: Pool)
    ensures limit == 0 ==> r == p.(completed := 0)
    ensures limit > 0 ==> r.completed == |pending|
  {
    if limit == 0 then p.(completed := 0)
    else Drain(pending, |pending|, net, p.(completed := 0))
  }

  /**
   * Progress values set while the queue drains stay within 0..100, never
   * decrease, and end at 100 when there was anything to send.
   */
  lemma {:induction false} ProgressClimbsTo100(pending: seq<Chunk>, limit: nat, net: (nat, nat) -> bool, p: Pool)
    requires limit > 0
    ensures var r := UploadChunksWithLimit(pending, limit, net, p);
      var newValues := r.progress[|p.progress|..];
      && |newValues| == |pending|
      && (forall k :: 0 <= k < |newValues| ==> 0 <= newValues[k] <= 100)
      && (forall k, j :: 0 <= k <= j < |newValues| ==> newValues[k] <= newValues[j])
      && (|pending| > 0 ==> newValues[|newValues| - 1] == 100)
  {
    var q := p.(completed := 0);
    DrainAppendsProgress(pending, |pending|, net, q);
    ProgressStepsClimb(|pending|);
    var r := Drain(pending, |pending|, net, q);
    assert r.progress[|p.progress|..] == ProgressSteps(0, |pending|, |pending|);
  }

  /** The reports for a whole queue of `count` chunks lie in 0..100, never decrease, and end at 100. */
  lemma ProgressStepsClimb(count: nat)
    ensures var vs := ProgressSteps(0, count, count);
      && (forall k :: 0 <= k < count ==> 0 <= vs[k] <= 100)
      && (forall k, j :: 0 <= k <= j < count ==> vs[k] <= vs[j])
      && (count > 0 ==> vs[count - 1] == 100)
  {
    var vs := ProgressSteps(0, count, count);
    ProgressStepsAt(0, count, count);
    forall k | 0 <= k < count ensures 0 <= vs[k] <= 100 {
      PercentBounds(k + 1, count);
    }
    forall k, j | 0 <= k <= j < count ensures vs[k] <= vs[j] {
      PercentMonotonic(k + 1, j + 1, count);
    }
    if count > 0 {
      PercentBounds(count, count);
    }
  }

  /**
   * Draining attempts every pending chunk: each one is requested, ends with
   * the outcome of its own retry run, and `uploadedBytes` grows by exactly the sizes of
   * the chunks that ended "success".
   */
  lemma DrainAttemptsEveryChunk(pending: seq<Chunk>, limit: nat, net: (nat, nat) -> bool, p: Pool)
    requires limit > 0
    ensures var r := UploadChunksWithLimit(pending, limit, net, p);
      && |r.requests| >= |p.requests| && r.requests[..|p.requests|] == p.requests
      && (forall c :: c in pending ==> ChunkRequest(c.index, c.blob) in r.requests[|p.requests|..])
      && (forall rq :: rq in r.requests[|p.requests|..] ==> rq.ChunkRequest? && Chunk(rq.index, rq.blob) in pending)
      && (forall c :: c in pending ==> c.index in r.status && (r.status[c.index] == Success || r.status[c.index] == Error))
      && (forall c :: c in pending ==> r.status[c.index] == UploadChunk(net, c.index).outcome)
      && (forall i :: i in p.status && !IndexIn(pending, i) ==> i in r.status && r.status[i] == p.status[i])
      && r.uploadedBytes == p.uploadedBytes + SucceededBytes(pending, net)
  {
    var q := p.(completed := 0);
    DrainRequests(pending, |pending|, net, q);
    DrainStatus(pending, |pending|, net, q);
    DrainBytes(pending, |pending|, net, q);
  }

  /** The result of `startUpload`: the pool after the transfer, finalize requested last. */
  function StartUpload(chunks: seq<Chunk>, uploaded: seq<int>, net: (nat, nat) -> bool, p: Pool): (r: Pool)
    ensures |r.requests| > |p.requests| && r.requests[|r.requests| - 1] == FinalizeRequest
    ensures r.requests[..|p.requests|] == p.requests
    ensures forall rq :: rq in r.requests[|p.requests|..|r.requests| - 1] ==>
      rq.ChunkRequest? && Chunk(rq.index, rq.blob) in chunks && rq.index !in uploaded
    ensures forall c :: c in chunks && c.index !in uploaded ==>
      ChunkRequest(c.index, c.blob) in r.requests[|p.requests|..|r.requests| - 1]
    ensures forall c :: c in chunks && c.index !in uploaded ==>
      c.index in r.status && (r.status[c.index] == Success || r.status[c.index] == Error)
    ensures forall c :: c in chunks && c.index !in uploaded ==>
      r.status[c.index] == UploadChunk(net, c.index).outcome
    ensures r.completed == |PendingChunks(chunks, uploaded)|
  {
    var pending := PendingChunks(chunks, uploaded);
    var drained := UploadChunksWithLimit(pending, POOL_LIMIT, net, p.(uploadedBytes := 0));
    DrainAttemptsEveryChunk(pending, POOL_LIMIT, net, p.(uploadedBytes := 0));
    var r := drained.(requests := drained.requests + [FinalizeRequest]);
    assert r.requests[|p.requests|..|r.requests| - 1] == drained.requests[|p.requests|..];
    assert r.requests[..|p.requests|] == drained.requests[..|p.requests|] by {
      assert r.requests[..|p.requests|] == r.requests[..|drained.requests|][..|p.requests|];
    }
    r
  }
}
