/** What every completed operation keeps, over whole sequential runs. */
module Invariants {
  import opened Bytes
  import opened Domain
  import opened Chunking
  import opened Pipeline
  import opened Store
  import opened Tallies

  // ---------- the invariant ----------

  predicate ClockOk(s: State) {
    && (forall f, g :: 0 <= f < g < |s.files| ==> s.files[f].createdAt < s.files[g].createdAt)
    && (forall f :: 0 <= f < |s.files| ==> s.files[f].createdAt <= s.clock)
  }

  /** Each row describes the bytes it was put with. */
  predicate RowsOk(cfg: Config, s: State, sha256: Hash)
    requires cfg.Valid()
  {
    && |s.contents| == |s.files|
    && forall f :: 0 <= f < |s.files| ==> Describes(cfg, s.files[f], s.contents[f], sha256)
  }

  predicate Describes(cfg: Config, row: FileRow, raw: Blob, sha256: Hash)
    requires cfg.Valid()
  {
    && row.size == |raw| && row.checksum == sha256(raw)
    && row.chunkCount == |StoredData(cfg, raw)| && row.storageSize == StorageSize(cfg, |raw|)
  }

  /** The chunk rows of file `f` as they were written. */
  function FileRows(cfg: Config, s: State, f: nat, sha256: Hash): seq<FileChunk>
    requires cfg.Valid() && f < |s.files| == |s.contents|
  {
    PlacedRows(s.files[f].bucket, f, StoredRows(cfg, s.contents[f], sha256))
  }

  ghost predicate ChunksOk(cfg: Config, s: State, sha256: Hash)
    requires cfg.Valid() && |s.contents| == |s.files|
  {
    && (forall i :: 0 <= i < |s.chunkRows| ==> s.chunkRows[i].file < |s.files|)
    && (forall f: nat :: f < |s.files| ==> RowsOf(s.chunkRows, f) == FileRows(cfg, s, f, sha256))
  }

  /** Every blob of file `f` is on disk, unaltered. */
  ghost predicate OnDisk(cfg: Config, s: State, f: nat, sha256: Hash)
    requires cfg.Valid() && f < |s.files| == |s.contents|
  {
    forall t :: 0 <= t < |StoredData(cfg, s.contents[f])| ==>
      && FileRows(cfg, s, f, sha256)[t].storagePath in s.disk
      && s.disk[FileRows(cfg, s, f, sha256)[t].storagePath] == StoredData(cfg, s.contents[f])[t]
  }

  ghost predicate DiskOk(cfg: Config, s: State, sha256: Hash)
    requires cfg.Valid() && |s.contents| == |s.files|
  {
    && (forall f: nat :: f < |s.files| && s.files[f].Live() ==> OnDisk(cfg, s, f, sha256))
    && (forall p :: p in s.disk && p.ObjectPath? ==> p.file < |s.files|)
  }

  /** The rows the counters account for: live ones, and those only the cleanup job removed. */
  function Accounted(s: State): set<nat> {
    LiveIds(s.files) + s.reaped
  }

  ghost predicate CountersOk(s: State) {
    && (forall f :: f in s.reaped ==> f < |s.files| && !s.files[f].Live())
    && (forall b: nat, m: Measure :: b < |s.buckets| ==> Recorded(m, s.buckets[b]) == Tally(m, s.files, Accounted(s), b))
  }

  predicate QuotaOk(s: State) {
    forall b :: 0 <= b < |s.buckets| && s.buckets[b].maxSizeBytes > 0 ==>
      s.buckets[b].currentSizeBytes <= s.buckets[b].maxSizeBytes
  }

  predicate BucketsOk(s: State) {
    && (forall f :: 0 <= f < |s.files| ==> s.files[f].bucket < |s.buckets|)
    && (forall f :: 0 <= f < |s.files| && s.files[f].Live() ==> s.buckets[s.files[f].bucket].deletedAt.None?)
    && (forall b, b' :: 0 <= b < b' < |s.buckets| && s.buckets[b].deletedAt.None? && s.buckets[b'].deletedAt.None? ==>
          s.buckets[b].name != s.buckets[b'].name)
  }

  ghost predicate Inv(cfg: Config, s: State, sha256: Hash)
    requires cfg.Valid()
  {
    && ClockOk(s) && RowsOk(cfg, s, sha256) && ChunksOk(cfg, s, sha256) && DiskOk(cfg, s, sha256)
    && CountersOk(s) && QuotaOk(s) && BucketsOk(s)
  }

  // ---------- chunk rows and paths ----------

  lemma {:induction false} RowsOfAppend(xs: seq<ChunkRow>, ys: seq<ChunkRow>, f: nat)
    ensures RowsOf(xs + ys, f) == RowsOf(xs, f) + RowsOf(ys, f)
  {
    if ys == [] {
      assert xs + ys == xs;
    } else {
      var n := |ys| - 1;
      assert (xs + ys)[..|xs + ys| - 1] == xs + ys[..n];
      RowsOfAppend(xs, ys[..n], f);
    }
  }

  lemma {:induction false} RowsOfRecord(file: nat, rows: seq<FileChunk>, f: nat)
    ensures RowsOf(RecordRows(file, rows), f) == if f == file then rows else []
  {
    if rows != [] {
      var n := |rows| - 1;
      assert RecordRows(file, rows)[..n] == RecordRows(file, rows[..n]);
      RowsOfRecord(file, rows[..n], f);
      assert rows[..n] + [rows[n]] == rows;
    }
  }

  lemma {:induction false} RowsOfNone(chunkRows: seq<ChunkRow>, f: nat)
    requires forall i :: 0 <= i < |chunkRows| ==> chunkRows[i].file != f
    ensures RowsOf(chunkRows, f) == []
  {
    if chunkRows != [] {
      RowsOfNone(chunkRows[..|chunkRows| - 1], f);
    }
  }

  predicate Ascending(rows: seq<FileChunk>) {
    forall s, t :: 0 <= s < t < |rows| ==> rows[s].chunkIndex < rows[t].chunkIndex
  }

  lemma {:induction false} SortOfAscending(rows: seq<FileChunk>)
    requires Ascending(rows)
    ensures SortByIndex(rows) == rows
  {
    if rows != [] {
      var n := |rows| - 1;
      SortOfAscending(rows[..n]);
      assert rows[..n] + [rows[n]] == rows;
    }
  }

  lemma FileRowsAscending(cfg: Config, s: State, f: nat, sha256: Hash)
    requires cfg.Valid() && f < |s.files| == |s.contents|
    ensures Ascending(FileRows(cfg, s, f, sha256))
  {
    StoredAscending(cfg, s.contents[f], sha256);
  }

  /** The listing of a file's chunks is what was written for it, in order. */
  lemma ListingIsWritten(cfg: Config, s: State, f: nat, sha256: Hash)
    requires cfg.Valid() && f < |s.files| == |s.contents| && ChunksOk(cfg, s, sha256)
    ensures ListChunks(s.chunkRows, f) == FileRows(cfg, s, f, sha256)
  {
    FileRowsAscending(cfg, s, f, sha256);
    SortOfAscending(FileRows(cfg, s, f, sha256));
  }

  lemma {:induction false} WriteBlobsElsewhere(disk: map<Path, Blob>, rows: seq<FileChunk>, data: seq<Blob>, p: Path)
    requires |rows| == |data| && forall t :: 0 <= t < |rows| ==> rows[t].storagePath != p
    ensures p in WriteBlobs(disk, rows, data) <==> p in disk
    ensures p in disk ==> WriteBlobs(disk, rows, data)[p] == disk[p]
  {
    if rows != [] {
      var n := |rows| - 1;
      WriteBlobsElsewhere(disk, rows[..n], data[..n], p);
    }
  }

  lemma {:induction false} WriteBlobsAt(disk: map<Path, Blob>, rows: seq<FileChunk>, data: seq<Blob>, t: nat)
    requires |rows| == |data| && t < |rows|
    requires forall i, j :: 0 <= i < j < |rows| ==> rows[i].storagePath != rows[j].storagePath
    ensures rows[t].storagePath in WriteBlobs(disk, rows, data)
    ensures WriteBlobs(disk, rows, data)[rows[t].storagePath] == data[t]
  {
    var n := |rows| - 1;
    if t < n {
      WriteBlobsAt(disk, rows[..n], data[..n], t);
    }
  }
}
