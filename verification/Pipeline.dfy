/** From an object's bytes to its stored shards and back. */
module Pipeline {
  import opened Bytes
  import opened Domain
  import opened Chunking
  import opened Erasure
  import opened Recovery
  import opened RoundTrip
  import opened Losses

  datatype Config = Config(chunkSize: int64, codec: Codec, maxFileSize: int) {
    /** Chunk size zero would never finish splitting, and the storage size divides by the data shard count. */
    predicate Valid() {
      chunkSize > 0 && (codec.parityShards > 0 ==> codec.dataShards > 0)
    }

    predicate Coded() {
      codec.parityShards > 0
    }
  }

  function Chunks(cfg: Config, raw: Blob): seq<Blob>
    requires cfg.Valid()
  {
    Pieces(raw, cfg.chunkSize as nat)
  }

  /** The blobs written for an object, and the chunk numbers they are filed under. */
  function StoredData(cfg: Config, raw: Blob): seq<Blob>
    requires cfg.Valid()
  {
    if cfg.Coded() then EmittedData(cfg.codec, Chunks(cfg, raw)) else Chunks(cfg, raw)
  }

  function StoredRows(cfg: Config, raw: Blob, sha256: Hash): (rows: seq<FileChunk>)
    requires cfg.Valid()
    ensures |rows| == |StoredData(cfg, raw)|
  {
    if cfg.Coded() then EmittedRows(cfg.codec, Chunks(cfg, raw), sha256) else ChunkRows(Chunks(cfg, raw), sha256)
  }

  /** What a read of the object gives back. */
  function Retrieved(cfg: Config, raw: Blob): Blob
    requires cfg.Valid()
  {
    if cfg.Coded() then
      Concat(Chunks(cfg, raw)[..Kept(cfg.codec, Chunks(cfg, raw))]) + Concat(Filler(cfg.codec, Chunks(cfg, raw)))
    else raw
  }

  function StorageSize(cfg: Config, n: nat): nat
    requires cfg.Valid()
  {
    if cfg.Coded() then n * (cfg.codec.dataShards + cfg.codec.parityShards) / cfg.codec.dataShards else n
  }

  /** Without parity the size itself, with parity the largest whole number that k data shards make of n(k+p). */
  lemma StorageSizeExactly(cfg: Config, n: nat)
    requires cfg.Valid()
    ensures
      var k, p, m := cfg.codec.dataShards, cfg.codec.parityShards, StorageSize(cfg, n);
      if p == 0 then m == n else m * k <= n * (k + p) < (m + 1) * k
  {
    var k, p := cfg.codec.dataShards, cfg.codec.parityShards;
    if p > 0 {
      FloorBelow(n * (k + p), k, n * (k + p) / k);
    }
  }

  /** Chunk numbers ascend strictly, so sorting by number keeps the stored order. */
  lemma StoredAscending(cfg: Config, raw: Blob, sha256: Hash)
    requires cfg.Valid()
    ensures forall s, t :: 0 <= s < t < |StoredRows(cfg, raw, sha256)| ==>
        StoredRows(cfg, raw, sha256)[s].chunkIndex < StoredRows(cfg, raw, sha256)[t].chunkIndex
  {
  }

  /** Every descriptor gives the size and the checksum of its blob. */
  lemma StoredDescribed(cfg: Config, raw: Blob, sha256: Hash, t: nat)
    requires cfg.Valid() && t < |StoredData(cfg, raw)|
    ensures StoredRows(cfg, raw, sha256)[t].size == |StoredData(cfg, raw)[t]|
    ensures StoredRows(cfg, raw, sha256)[t].checksum == sha256(StoredData(cfg, raw)[t])
  {
  }

  /** Decoding or merging the stored blobs gives `Retrieved`. */
  lemma StoredReadsBack(cfg: Config, raw: Blob, sha256: Hash)
    requires cfg.Valid()
    ensures
      var rows, data := StoredRows(cfg, raw, sha256), StoredData(cfg, raw);
      if cfg.Coded() then Reconstruct(cfg.codec, Available(rows, data)) == Retrieved(cfg, raw)
      else Concat(data) == Retrieved(cfg, raw)
  {
    if cfg.Coded() {
      AllEmittedAvailable(cfg.codec, Chunks(cfg, raw), sha256);
      DecodeComplete(cfg.codec, Chunks(cfg, raw), Available(StoredRows(cfg, raw, sha256), StoredData(cfg, raw)));
    } else {
      PiecesJoin(raw, cfg.chunkSize as nat);
    }
  }

  lemma ChunksNonempty(cfg: Config, raw: Blob)
    requires cfg.Valid()
    ensures Chunks(cfg, raw) == [] <==> raw == []
    ensures forall t :: 0 <= t < |Chunks(cfg, raw)| ==> Chunks(cfg, raw)[t] != []
  {
    PieceCountBounds(|raw|, cfg.chunkSize as nat);
    forall t | 0 <= t < |Chunks(cfg, raw)|
      ensures Chunks(cfg, raw)[t] != []
    {
      PieceSizes(raw, cfg.chunkSize as nat, t);
    }
  }

  /** The chunk count reaches the shard count `k` exactly for sizes in ((k-1)c, kc]. */
  lemma ChunkCountExactly(n: nat, c: nat, k: nat)
    requires c > 0 && n > 0 && k > 0
    ensures PieceCount(n, c) == k <==> (k - 1) * c < n <= k * c
    ensures PieceCount(n, c) > k <==> n > k * c
  {
    PieceCountBounds(n, c);
    PieceCountUnique(n, c, k);
    var m := PieceCount(n, c);
    assert (k - 1) * c == k * c - c;
    assert (m - 1) * c == m * c - c;
    assert (m - 1 - k) * c == (m - 1) * c - k * c;
    assert (k - m) * c == k * c - m * c;
    MulGap(m - 1 - k, c);
    MulGap(k - m, c);
  }

  /** With parity, an object is read back as stored exactly when its chunks fill the data shards. */
  lemma PutGetExactly(cfg: Config, raw: Blob)
    requires cfg.Valid() && raw != []
    ensures
      var k, c := cfg.codec.dataShards, cfg.chunkSize as nat;
      Retrieved(cfg, raw) == raw <==> cfg.codec.parityShards == 0 || (k - 1) * c < |raw| <= k * c
  {
    if cfg.Coded() {
      var chunks := Chunks(cfg, raw);
      ChunksNonempty(cfg, raw);
      PiecesJoin(raw, cfg.chunkSize as nat);
      SplitAtKept(cfg.codec, chunks, Concat(Filler(cfg.codec, chunks)));
      SurplusOrFiller(cfg.codec, chunks);
      ChunkCountExactly(|raw|, cfg.chunkSize as nat, cfg.codec.dataShards);
    }
  }

  /** A larger object loses everything beyond the first k chunks. */
  lemma PutGetTruncates(cfg: Config, raw: Blob)
    requires cfg.Valid() && cfg.codec.parityShards > 0 && |raw| > cfg.codec.dataShards * cfg.chunkSize as nat
    ensures Retrieved(cfg, raw) == raw[..cfg.codec.dataShards * cfg.chunkSize as nat]
  {
    var k, c := cfg.codec.dataShards, cfg.chunkSize as nat;
    ChunkCountExactly(|raw|, c, k);
    PiecesPrefix(raw, c, k);
    assert Filler(cfg.codec, Chunks(cfg, raw)) == [];
    assert Retrieved(cfg, raw) == Concat(Pieces(raw, c)[..k]) + [];
  }

  lemma ShardSizeNext(blobs: seq<Blob>, j: nat)
    requires j < |blobs|
    ensures
      var before := ShardSize(blobs[..j]);
      ShardSize(blobs[..j + 1]) == if |blobs[j]| > before then |blobs[j]| else before
  {
    assert blobs[..j + 1][..j] == blobs[..j];
  }

  lemma {:induction false} LargestPiece(raw: Blob, c: nat, t: nat)
    requires c > 0 && t <= PieceCount(|raw|, c)
    ensures ShardSize(Pieces(raw, c)[..t]) == if t > 0 then Min(c, |raw|) else 0
  {
    if t > 0 {
      LargestPiece(raw, c, t - 1);
      PieceSizes(raw, c, t - 1);
      ShardSizeNext(Pieces(raw, c), t - 1);
      LaterPieceFits(t - 1, c, |raw|);
    }
  }

  lemma LaterPieceFits(t: nat, c: nat, n: nat)
    requires t * c < n
    ensures Min(c, n - t * c) <= Min(c, n)
    ensures t == 0 ==> Min(c, n - t * c) == Min(c, n)
  {
    MulMonotone(0, t, c);
  }

  lemma ShardSizeOfChunks(cfg: Config, raw: Blob)
    requires cfg.Valid() && raw != []
    ensures ShardSize(Chunks(cfg, raw)) == Min(cfg.chunkSize as nat, |raw|)
  {
    var chunks := Chunks(cfg, raw);
    ChunksNonempty(cfg, raw);
    LargestPiece(raw, cfg.chunkSize as nat, |chunks|);
    assert chunks[..|chunks|] == chunks;
  }

  /** A smaller object comes back followed by min(p, k - ceil(n/c)) blocks of min(c, n) bytes. */
  lemma PutGetPads(cfg: Config, raw: Blob)
    requires cfg.Valid() && cfg.codec.parityShards > 0 && raw != []
    requires |raw| <= (cfg.codec.dataShards - 1) * cfg.chunkSize as nat
    ensures
      var fill := Filler(cfg.codec, Chunks(cfg, raw));
      && Retrieved(cfg, raw) == raw + Concat(fill)
      && |fill| == Min(cfg.codec.parityShards, cfg.codec.dataShards - PieceCount(|raw|, cfg.chunkSize as nat)) > 0
      && |Concat(fill)| == |fill| * Min(cfg.chunkSize as nat, |raw|)
      && fill[0] == ChunkSyndrome(cfg.codec, Chunks(cfg, raw))
      && forall t :: 0 < t < |fill| ==> fill[t] == Zeros(Min(cfg.chunkSize as nat, |raw|))
  {
    var c := cfg.chunkSize as nat;
    var chunks := Chunks(cfg, raw);
    ChunkCountExactly(|raw|, c, cfg.codec.dataShards);
    assert (cfg.codec.dataShards - 1) * c == cfg.codec.dataShards * c - c;
    PiecesJoin(raw, c);
    assert chunks[..|chunks|] == chunks;
    FillerSize(cfg.codec, chunks);
    ShardSizeOfChunks(cfg, raw);
  }

  // ---------- recorded against written bytes ----------

  lemma {:induction false} KeptSize(raw: Blob, c: nat, t: nat)
    requires c > 0 && t <= PieceCount(|raw|, c)
    ensures TotalSize(Pieces(raw, c)[..t]) == Min(t * c, |raw|)
  {
    ConcatSize(Pieces(raw, c)[..t]);
    PiecesPrefix(raw, c, t);
    assert t * c >= 0;
  }

  lemma KeptWritten(cfg: Config, raw: Blob)
    requires cfg.Valid() && raw != []
    ensures TotalSize(Chunks(cfg, raw)[..Kept(cfg.codec, Chunks(cfg, raw))])
        == Min(cfg.codec.dataShards * cfg.chunkSize as nat, |raw|)
  {
    var c, k := cfg.chunkSize as nat, cfg.codec.dataShards;
    KeptSize(raw, c, Kept(cfg.codec, Chunks(cfg, raw)));
    PieceCountBounds(|raw|, c);
    if k > PieceCount(|raw|, c) {
      MulMonotone(PieceCount(|raw|, c), k, c);
    }
  }

  lemma ParityWritten(cfg: Config, raw: Blob)
    requires cfg.Valid() && raw != []
    ensures TotalSize(ParityShards(cfg.codec, Chunks(cfg, raw)))
        == cfg.codec.parityShards * Min(cfg.chunkSize as nat, |raw|)
  {
    ShardSizeOfChunks(cfg, raw);
    TotalOfEqual(ParityShards(cfg.codec, Chunks(cfg, raw)), Min(cfg.chunkSize as nat, |raw|));
  }

  lemma WrittenSize(cfg: Config, raw: Blob)
    requires cfg.Valid() && cfg.codec.parityShards > 0 && raw != []
    ensures TotalSize(StoredData(cfg, raw))
        == Min(cfg.codec.dataShards * cfg.chunkSize as nat, |raw|)
           + cfg.codec.parityShards * Min(cfg.chunkSize as nat, |raw|)
  {
    var chunks := Chunks(cfg, raw);
    ConcatAppend(chunks[..Kept(cfg.codec, chunks)], ParityShards(cfg.codec, chunks));
    KeptWritten(cfg, raw);
    ParityWritten(cfg, raw);
  }

  lemma FloorBelow(x: nat, k: nat, y: nat)
    requires k > 0
    ensures x / k <= y <==> x < (y + 1) * k
    ensures x / k >= y <==> x >= y * k
  {
    var q := x / k;
    assert x == q * k + x % k;
    assert (y - q) * k == y * k - q * k;
    assert (y + 1) * k == y * k + k;
    MulGap(y - q, k);
  }

  /**
   * The recorded storage size never exceeds the bytes written unless chunks were dropped, and equals them
   * exactly when the object is k equal chunks; when chunks were dropped it is strictly larger.
   */
  lemma StorageSizeAgainstWritten(cfg: Config, raw: Blob)
    requires cfg.Valid() && cfg.codec.parityShards > 0 && raw != []
    ensures
      var k, c, n := cfg.codec.dataShards, cfg.chunkSize as nat, |raw|;
      var recorded, written := StorageSize(cfg, n), TotalSize(StoredData(cfg, raw));
      && (n <= k * c ==> recorded <= written)
      && (n <= k * c ==> (recorded == written <==> n == k * Min(c, n)))
      && (n > k * c ==> recorded > written)
  {
    var k, p, c, n := cfg.codec.dataShards, cfg.codec.parityShards, cfg.chunkSize as nat, |raw|;
    WrittenSize(cfg, raw);
    if n <= k * c {
      WithinShards(n, k, p, c);
    } else {
      BeyondShards(n, k, p, c);
    }
  }

  lemma WithinShards(n: nat, k: nat, p: nat, c: nat)
    requires n > 0 && k > 0 && p > 0 && c > 0 && n <= k * c
    ensures n * (k + p) / k <= n + p * Min(c, n)
    ensures n * (k + p) / k == n + p * Min(c, n) <==> n == k * Min(c, n)
  {
    MulMonotone(1, k, n);
    WithinShardsOf(n, k, p, Min(c, n));
  }

  lemma WithinShardsOf(n: nat, k: nat, p: nat, s: nat)
    requires k > 0 && p > 0 && n <= k * s
    ensures n * (k + p) / k <= n + p * s
    ensures n * (k + p) / k == n + p * s <==> n == k * s
  {
    RecordedWithin(n, k, p, s);
    FloorBelow(n * (k + p), k, n + p * s);
  }

  lemma BeyondShards(n: nat, k: nat, p: nat, c: nat)
    requires k > 0 && p > 0 && c > 0 && n > k * c
    ensures n * (k + p) / k > k * c + p * Min(c, n)
  {
    assert k * c >= c by { assert (k - 1) * c >= 0; }
    RecordedBeyond(n, k, p, c);
    FloorBelow(n * (k + p), k, k * c + p * c + 1);
  }

  lemma Distribute(a: int, b: int, m: int)
    ensures (a + b) * m == a * m + b * m
  {
  }

  lemma Regroup(a: int, b: int, m: int)
    ensures (a * b) * m == (a * m) * b == a * (b * m)
  {
  }

  lemma Commute(a: int, b: int)
    ensures a * b == b * a
  {
  }

  lemma RecordedWithin(n: nat, k: nat, p: nat, s: nat)
    requires k > 0 && p > 0 && n <= k * s
    ensures n * (k + p) < (n + p * s + 1) * k
    ensures n * (k + p) >= (n + p * s) * k <==> n == k * s
  {
    var full, w := k * s, p * s;
    var gap := full - n;
    Commute(n, k + p);
    Distribute(k, p, n);
    Commute(k, n);
    Distribute(n, w, k);
    Distribute(n + w, 1, k);
    Regroup(p, s, k);
    Commute(s, k);
    GapAmounts(w * k, p, full, n, gap);
  }

  lemma GapAmounts(wk: int, p: nat, full: nat, n: nat, gap: nat)
    requires p > 0 && full == n + gap && wk == p * full
    ensures wk >= p * n
    ensures wk == p * n <==> gap == 0
  {
    Commute(p, full);
    Commute(p, n);
    Distribute(n, gap, p);
    MulGap(gap, p);
  }

  lemma RecordedBeyond(n: nat, k: nat, p: nat, c: nat)
    requires k > 0 && p > 0 && n > k * c
    ensures n * (k + p) >= (k * c + p * c + 1) * k
  {
    var d, t, e := k * c, k + p, k * c + p * c;
    Distribute(d, n - d, t);
    MulMonotone(1, n - d, t);
    Distribute(k, p, c);
    Regroup(k, c, t);
    Commute(c, t);
    Commute(k, t * c);
    Distribute(e, 1, k);
  }
}
