/**
 * The per-upload backing file and its only mutation: a positional write
 * through a stream opened with flags "r+" at a start offset
 * (backend/src/routes/upload.routes.js, chunk handler). Writing past the end
 * of the file leaves a zero-filled gap; an empty body writes nothing.
 */
module ChunkStore {
  import opened JsMath

  type Bytes = seq<bv8>

  /** `Number.MAX_SAFE_INTEGER`, the largest start offset a write stream accepts. */
  const MAX_SAFE_INTEGER: int := 0x1F_FFFF_FFFF_FFFF

  function Zeros(n: nat): (z: Bytes)
    ensures |z| == n
    ensures forall p :: 0 <= p < n ==> z[p] == 0
  {
    seq(n, _ => 0)
  }

  /** The byte found at position `p` after writing `data` at `off` over `f`. */
  function ByteAfterWrite(f: Bytes, off: nat, data: Bytes, p: nat): bv8 {
    if off <= p < off + |data| then data[p - off]
    else if p < |f| then f[p]
    else 0
  }

  /**
   * `g` is what writing `data` at `off` over `f` leaves: an empty write keeps
   * the length, any other ends the file at the later of its old end and the
   * write's end, and every byte is the one `ByteAfterWrite` names.
   */
  predicate Overwrites(g: Bytes, f: Bytes, off: nat, data: Bytes) {
    && |g| == (if |data| == 0 then |f| else Max(|f|, off + |data|))
    && forall p :: 0 <= p < |g| ==> g[p] == ByteAfterWrite(f, off, data, p)
  }

  /** Writes `data` starting at byte `off` of `f`, extending the file when needed. */
  function WriteAt(f: Bytes, off: nat, data: Bytes): (g: Bytes)
    ensures |data| == 0 ==> g == f
    ensures Overwrites(g, f, off, data)
  {
    if |data| == 0 then f
    else if off <= |f| then
      f[..off] + data + (if off + |data| < |f| then f[off + |data|..] else [])
    else
      f + Zeros(off - |f|) + data
  }

  /** Length and bytes pin the file down: `WriteAt` is the only file `Overwrites` admits. */
  lemma OverwritesDetermines(g: Bytes, f: Bytes, off: nat, data: Bytes)
    requires Overwrites(g, f, off, data)
    ensures g == WriteAt(f, off, data)
  {
    var w := WriteAt(f, off, data);
    assert |g| == |w|;
    forall p | 0 <= p < |g| ensures g[p] == w[p] {
    }
  }

  /** Re-sending the same bytes to the same offset changes nothing. */
  lemma WriteAtIdempotent(f: Bytes, off: nat, data: Bytes)
    ensures WriteAt(WriteAt(f, off, data), off, data) == WriteAt(f, off, data)
  {
    var g := WriteAt(f, off, data);
    var h := WriteAt(g, off, data);
    if |data| > 0 {
      assert |h| == |g|;
      forall p | 0 <= p < |h| ensures h[p] == g[p] {
        assert h[p] == ByteAfterWrite(g, off, data, p);
      }
    }
  }

  /** Writes to disjoint byte ranges commute, so concurrent chunk writes need no mutual exclusion. */
  lemma WriteAtDisjointCommute(f: Bytes, off1: nat, d1: Bytes, off2: nat, d2: Bytes)
    requires off1 + |d1| <= off2 || off2 + |d2| <= off1
    ensures WriteAt(WriteAt(f, off1, d1), off2, d2) == WriteAt(WriteAt(f, off2, d2), off1, d1)
  {
    var a := WriteAt(WriteAt(f, off1, d1), off2, d2);
    var b := WriteAt(WriteAt(f, off2, d2), off1, d1);
    if |d1| > 0 && |d2| > 0 {
      assert |a| == |b|;
      forall p | 0 <= p < |a| ensures a[p] == b[p] {
        assert a[p] == ByteAfterWrite(WriteAt(f, off1, d1), off2, d2, p);
        assert b[p] == ByteAfterWrite(WriteAt(f, off2, d2), off1, d1, p);
      }
    }
  }
}
