/** Each completed operation keeps the invariant; so does every sequential run. */
module Preservation {
  import opened Bytes
  import opened Domain
  import opened Chunking
  import opened Pipeline
  import opened Store
  import opened Tallies
  import opened Invariants
  import opened Services

  // ---------- put ----------

  lemma PutFileRows(cfg: Config, s: State, s': State, f: nat, sha256: Hash)
    requires cfg.Valid() && f < |s.files| == |s.contents| && |s'.files| == |s'.contents| == |s.files| + 1
    requires s'.files[f].bucket == s.files[f].bucket && s'.contents[f] == s.contents[f]
    ensures FileRows(cfg, s', f, sha256) == FileRows(cfg, s, f, sha256)
  {
  }

  lemma PutKeepsChunks(cfg: Config, s: State, bucket: nat, key: string, raw: Blob, ttl: Option<int>, now: nat, sha256: Hash)
    requires cfg.Valid() && Inv(cfg, s, sha256) && PutError(cfg, s, bucket, raw).None?
    ensures ChunksOk(cfg, AfterPut(cfg, s, bucket, key, raw, ttl, now, sha256), sha256)
  {
    var s' := AfterPut(cfg, s, bucket, key, raw, ttl, now, sha256);
    var n := |s.files|;
    var rows := PlacedRows(bucket, n, StoredRows(cfg, raw, sha256));
    forall f: nat | f < n + 1
      ensures RowsOf(s'.chunkRows, f) == FileRows(cfg, s', f, sha256)
    {
      RowsOfAppend(s.chunkRows, RecordRows(n, rows), f);
      RowsOfRecord(n, rows, f);
      if f == n {
        RowsOfNone(s.chunkRows, n);
        assert FileRows(cfg, s', n, sha256) == rows;
        assert [] + rows == rows;
      } else {
        PutFileRows(cfg, s, s', f, sha256);
        assert RowsOf(s.chunkRows, f) + [] == RowsOf(s.chunkRows, f);
      }
    }
  }

  lemma PutDisk(cfg: Config, disk: map<Path, Blob>, bucket: nat, n: nat, raw: Blob, sha256: Hash)
    requires cfg.Valid()
    ensures
      var rows, data := PlacedRows(bucket, n, StoredRows(cfg, raw, sha256)), StoredData(cfg, raw);
      var disk' := WriteBlobs(disk, rows, data);
      && (forall i, j :: 0 <= i < j < |rows| ==> rows[i].storagePath != rows[j].storagePath)
      && (forall t :: 0 <= t < |data| ==> rows[t].storagePath in disk' && disk'[rows[t].storagePath] == data[t])
      && (forall p: Path :: (p.ObjectPath? ==> p.file != n) ==>
            (p in disk' <==> p in disk) && (p in disk ==> disk'[p] == disk[p]))
      && (forall p :: p in disk' && p !in disk ==> p in PathsOf(rows))
  {
    var rows, data := PlacedRows(bucket, n, StoredRows(cfg, raw, sha256)), StoredData(cfg, raw);
    var disk' := WriteBlobs(disk, rows, data);
    StoredAscending(cfg, raw, sha256);
    forall t | 0 <= t < |data|
      ensures rows[t].storagePath in disk' && disk'[rows[t].storagePath] == data[t]
    {
      WriteBlobsAt(disk, rows, data, t);
    }
    forall p: Path | p.ObjectPath? ==> p.file != n
      ensures (p in disk' <==> p in disk) && (p in disk ==> disk'[p] == disk[p])
    {
      WriteBlobsElsewhere(disk, rows, data, p);
    }
    forall p | p in disk' && p !in disk
      ensures p in PathsOf(rows)
    {
      if p !in PathsOf(rows) {
        WriteBlobsElsewhere(disk, rows, data, p);
      }
    }
  }

  lemma PutKeepsDisk(cfg: Config, s: State, bucket: nat, key: string, raw: Blob, ttl: Option<int>, now: nat, sha256: Hash)
    requires cfg.Valid() && Inv(cfg, s, sha256) && PutError(cfg, s, bucket, raw).None?
    ensures DiskOk(cfg, AfterPut(cfg, s, bucket, key, raw, ttl, now, sha256), sha256)
  {
    var s' := AfterPut(cfg, s, bucket, key, raw, ttl, now, sha256);
    var n := |s.files|;
    PutDisk(cfg, s.disk, bucket, n, raw, sha256);
    forall f: nat | f < n + 1 && s'.files[f].Live()
      ensures OnDisk(cfg, s', f, sha256)
    {
      if f < n {
        PutFileRows(cfg, s, s', f, sha256);
        assert OnDisk(cfg, s, f, sha256);
      }
    }
    forall p | p in s'.disk && p.ObjectPath?
      ensures p.file < n + 1
    {
      if p.file != n {
        assert p in s.disk;
      }
    }
  }

  lemma PutKeepsCounters(cfg: Config, s: State, bucket: nat, key: string, raw: Blob, ttl: Option<int>, now: nat,
                         sha256: Hash)
    requires cfg.Valid() && Inv(cfg, s, sha256) && PutError(cfg, s, bucket, raw).None?
    ensures CountersOk(AfterPut(cfg, s, bucket, key, raw, ttl, now, sha256))
  {
    var s' := AfterPut(cfg, s, bucket, key, raw, ttl, now, sha256);
    var n := |s.files|;
    LivePush(s.files, s'.files[n]);
    assert Accounted(s') == Accounted(s) + {n};
    forall b: nat, m: Measure | b < |s'.buckets|
      ensures Recorded(m, s'.buckets[b]) == Tally(m, s'.files, Accounted(s'), b)
    {
      TallyPush(m, s.files, s'.files[n], Accounted(s'), b);
      TallySame(m, s.files, s.files, Accounted(s), Accounted(s'), b);
      assert Recorded(m, s.buckets[b]) == Tally(m, s.files, Accounted(s), b);
    }
  }

  lemma PutKeepsRows(cfg: Config, s: State, bucket: nat, key: string, raw: Blob, ttl: Option<int>, now: nat, sha256: Hash)
    requires cfg.Valid() && ClockOk(s) && RowsOk(cfg, s, sha256) && PutError(cfg, s, bucket, raw).None? && now > s.clock
    ensures
      var s' := AfterPut(cfg, s, bucket, key, raw, ttl, now, sha256);
      ClockOk(s') && RowsOk(cfg, s', sha256)
  {
    assert Describes(cfg, NewFile(cfg, bucket, key, raw, ttl, now, sha256), raw, sha256);
  }

  lemma PutKeepsBuckets(cfg: Config, s: State, bucket: nat, key: string, raw: Blob, ttl: Option<int>, now: nat, sha256: Hash)
    requires cfg.Valid() && QuotaOk(s) && BucketsOk(s) && PutError(cfg, s, bucket, raw).None?
    ensures
      var s' := AfterPut(cfg, s, bucket, key, raw, ttl, now, sha256);
      QuotaOk(s') && BucketsOk(s')
  {
  }

  lemma PutKeepsInv(cfg: Config, s: State, bucket: nat, key: string, raw: Blob, ttl: Option<int>, now: nat, sha256: Hash)
    requires cfg.Valid() && Inv(cfg, s, sha256) && PutError(cfg, s, bucket, raw).None? && now > s.clock
    ensures Inv(cfg, AfterPut(cfg, s, bucket, key, raw, ttl, now, sha256), sha256)
  {
    PutKeepsRows(cfg, s, bucket, key, raw, ttl, now, sha256);
    PutKeepsBuckets(cfg, s, bucket, key, raw, ttl, now, sha256);
    PutKeepsChunks(cfg, s, bucket, key, raw, ttl, now, sha256);
    PutKeepsDisk(cfg, s, bucket, key, raw, ttl, now, sha256);
    PutKeepsCounters(cfg, s, bucket, key, raw, ttl, now, sha256);
  }

  // ---------- delete ----------

  lemma DeleteFileRows(cfg: Config, s: State, s': State, sha256: Hash)
    requires cfg.Valid() && |s.files| == |s.contents| && |s'.files| == |s.files| && s'.contents == s.contents
    requires forall f :: 0 <= f < |s.files| ==> s'.files[f].bucket == s.files[f].bucket
    ensures forall f: nat :: f < |s.files| ==> FileRows(cfg, s', f, sha256) == FileRows(cfg, s, f, sha256)
  {
  }

  lemma WrittenPaths(cfg: Config, s: State, f: nat, sha256: Hash)
    requires cfg.Valid() && f < |s.files| == |s.contents| && ChunksOk(cfg, s, sha256)
    ensures forall p :: p in PathsOf(ListChunks(s.chunkRows, f)) ==> p.ObjectPath? && p.file == f
  {
    ListingIsWritten(cfg, s, f, sha256);
  }

  /** Erasing paths of other files leaves a file's blobs on disk. */
  lemma StaysOnDisk(cfg: Config, s: State, s': State, f: nat, sha256: Hash, erased: set<Path>)
    requires cfg.Valid() && f < |s.files| == |s.contents| && f < |s'.files| == |s'.contents|
    requires s'.contents[f] == s.contents[f] && FileRows(cfg, s', f, sha256) == FileRows(cfg, s, f, sha256)
    requires s'.disk == s.disk - erased && forall p :: p in erased ==> p.ObjectPath? && p.file != f
    requires OnDisk(cfg, s, f, sha256)
    ensures OnDisk(cfg, s', f, sha256)
  {
    var rows := FileRows(cfg, s, f, sha256);
    forall t | 0 <= t < |StoredData(cfg, s.contents[f])|
      ensures rows[t].storagePath in s'.disk && s'.disk[rows[t].storagePath] == StoredData(cfg, s.contents[f])[t]
    {
      assert rows[t].storagePath.file == f;
    }
  }

  lemma DeleteKeepsDisk(cfg: Config, s: State, bucket: nat, key: string, now: nat, sha256: Hash)
    requires cfg.Valid() && Inv(cfg, s, sha256) && Newest(s.files, bucket, key).Some?
    ensures DiskOk(cfg, AfterDelete(s, bucket, key, now), sha256)
  {
    var s' := AfterDelete(s, bucket, key, now);
    var file := Newest(s.files, bucket, key).value;
    var erased := PathsOf(ListChunks(s.chunkRows, file));
    DeleteFileRows(cfg, s, s', sha256);
    WrittenPaths(cfg, s, file, sha256);
    forall f: nat | f < |s'.files| && s'.files[f].Live()
      ensures OnDisk(cfg, s', f, sha256)
    {
      StaysOnDisk(cfg, s, s', f, sha256, erased);
    }
  }

  /** The row being deleted is accounted for, so the subtraction stays above zero. */
  lemma DeleteDoesNotClamp(s: State, f: nat, m: Measure)
    requires CountersOk(s) && f < |s.files| && s.files[f].Live() && s.files[f].bucket < |s.buckets|
    ensures Recorded(m, s.buckets[s.files[f].bucket]) >= Amount(m, s.files[f].size)
  {
    TallyRemove(m, s.files, Accounted(s), f, s.files[f].bucket);
    assert Recorded(m, s.buckets[s.files[f].bucket]) == Tally(m, s.files, Accounted(s), s.files[f].bucket);
  }

  function Share(s: State, f: nat, b: nat, m: Measure): nat
    requires f < |s.files|
  {
    if s.files[f].bucket == b then Amount(m, s.files[f].size) else 0
  }

  /** One live row leaves, and its bucket's counters drop by its amounts. */
  lemma RemovalKeepsCounters(s: State, s': State, f: nat, now: nat)
    requires CountersOk(s) && f < |s.files| && s.files[f].Live()
    requires s'.files == s.files[f := s.files[f].(deletedAt := Some(now))] && s'.reaped == s.reaped
    requires |s'.buckets| == |s.buckets|
    requires forall b: nat, m: Measure :: b < |s.buckets| ==>
      (Recorded(m, s'.buckets[b]) == Recorded(m, s.buckets[b]) - Share(s, f, b, m))
    ensures CountersOk(s')
  {
    LiveRemove(s.files, f, now);
    assert Accounted(s') == Accounted(s) - {f};
    forall b: nat, m: Measure | b < |s'.buckets|
      ensures Recorded(m, s'.buckets[b]) == Tally(m, s'.files, Accounted(s'), b)
    {
      TallyRemove(m, s.files, Accounted(s), f, b);
      TallySame(m, s.files, s'.files, Accounted(s'), Accounted(s'), b);
      assert Recorded(m, s.buckets[b]) == Tally(m, s.files, Accounted(s), b);
    }
  }

  lemma DeleteKeepsCounters(cfg: Config, s: State, bucket: nat, key: string, now: nat, sha256: Hash)
    requires cfg.Valid() && Inv(cfg, s, sha256) && Newest(s.files, bucket, key).Some?
    ensures CountersOk(AfterDelete(s, bucket, key, now))
  {
    var s' := AfterDelete(s, bucket, key, now);
    var f := Newest(s.files, bucket, key).value;
    DeleteDoesNotClamp(s, f, Bytes);
    DeleteDoesNotClamp(s, f, Objects);
    RemovalKeepsCounters(s, s', f, now);
  }

  lemma DeleteKeepsRows(cfg: Config, s: State, bucket: nat, key: string, now: nat, sha256: Hash)
    requires cfg.Valid() && ClockOk(s) && RowsOk(cfg, s, sha256) && Newest(s.files, bucket, key).Some? && now > s.clock
    ensures ClockOk(AfterDelete(s, bucket, key, now)) && RowsOk(cfg, AfterDelete(s, bucket, key, now), sha256)
  {
  }

  lemma DeleteKeepsBuckets(s: State, bucket: nat, key: string, now: nat)
    requires QuotaOk(s) && BucketsOk(s) && CountersOk(s) && Newest(s.files, bucket, key).Some?
    ensures QuotaOk(AfterDelete(s, bucket, key, now)) && BucketsOk(AfterDelete(s, bucket, key, now))
  {
    DeleteDoesNotClamp(s, Newest(s.files, bucket, key).value, Bytes);
  }

  lemma DeleteKeepsChunks(cfg: Config, s: State, bucket: nat, key: string, now: nat, sha256: Hash)
    requires cfg.Valid() && |s.contents| == |s.files| && ChunksOk(cfg, s, sha256) && Newest(s.files, bucket, key).Some?
    ensures ChunksOk(cfg, AfterDelete(s, bucket, key, now), sha256)
  {
    DeleteFileRows(cfg, s, AfterDelete(s, bucket, key, now), sha256);
  }

  lemma DeleteKeepsInv(cfg: Config, s: State, bucket: nat, key: string, now: nat, sha256: Hash)
    requires cfg.Valid() && Inv(cfg, s, sha256) && Newest(s.files, bucket, key).Some? && now > s.clock
    ensures Inv(cfg, AfterDelete(s, bucket, key, now), sha256)
  {
    DeleteKeepsRows(cfg, s, bucket, key, now, sha256);
    DeleteKeepsBuckets(s, bucket, key, now);
    DeleteKeepsChunks(cfg, s, bucket, key, now, sha256);
    DeleteKeepsDisk(cfg, s, bucket, key, now, sha256);
    DeleteKeepsCounters(cfg, s, bucket, key, now, sha256);
  }

  // ---------- cleanup ----------

  /** The cleanup job moves rows from live to reaped, so the accounted rows stay the same. */
  lemma CleanupKeepsCounters(s: State, now: nat, ids: seq<nat>)
    requires CountersOk(s)
    requires forall i :: 0 <= i < |ids| ==> ids[i] < |s.files| && s.files[ids[i]].Live()
    ensures CountersOk(AfterCleanup(s, now, ids))
  {
    var s' := AfterCleanup(s, now, ids);
    forall f
      ensures f in Accounted(s') <==> f in Accounted(s)
    {
      if 0 <= f < |s.files| {
        assert IsLive(s'.files, f) <==> IsLive(s.files, f) && f !in ids;
      }
    }
    forall b: nat, m: Measure | b < |s'.buckets|
      ensures Recorded(m, s'.buckets[b]) == Tally(m, s'.files, Accounted(s'), b)
    {
      TallySame(m, s.files, s'.files, Accounted(s), Accounted(s'), b);
      assert Recorded(m, s.buckets[b]) == Tally(m, s.files, Accounted(s), b);
    }
  }

  lemma CleanupKeepsTables(cfg: Config, s: State, now: nat, ids: seq<nat>, sha256: Hash)
    requires cfg.Valid() && |s.contents| == |s.files| && ChunksOk(cfg, s, sha256) && DiskOk(cfg, s, sha256)
    requires forall i :: 0 <= i < |ids| ==> ids[i] < |s.files|
    ensures ChunksOk(cfg, AfterCleanup(s, now, ids), sha256) && DiskOk(cfg, AfterCleanup(s, now, ids), sha256)
  {
    var s' := AfterCleanup(s, now, ids);
    DeleteFileRows(cfg, s, s', sha256);
    forall f: nat | f < |s'.files| && s'.files[f].Live()
      ensures OnDisk(cfg, s', f, sha256)
    {
      assert OnDisk(cfg, s, f, sha256);
    }
  }

  lemma CleanupKeepsRows(cfg: Config, s: State, now: nat, ids: seq<nat>, sha256: Hash)
    requires cfg.Valid() && ClockOk(s) && RowsOk(cfg, s, sha256) && now > s.clock
    requires forall i :: 0 <= i < |ids| ==> ids[i] < |s.files|
    ensures ClockOk(AfterCleanup(s, now, ids)) && RowsOk(cfg, AfterCleanup(s, now, ids), sha256)
  {
  }

  lemma CleanupKeepsBuckets(s: State, now: nat, ids: seq<nat>)
    requires QuotaOk(s) && BucketsOk(s) && forall i :: 0 <= i < |ids| ==> ids[i] < |s.files|
    ensures QuotaOk(AfterCleanup(s, now, ids)) && BucketsOk(AfterCleanup(s, now, ids))
  {
    forall f | 0 <= f < |s.files|
      ensures AfterCleanup(s, now, ids).files[f].bucket == s.files[f].bucket
      ensures AfterCleanup(s, now, ids).files[f].Live() ==> s.files[f].Live()
    {
    }
  }

  lemma CleanupKeepsInv(cfg: Config, s: State, now: nat, ids: seq<nat>, sha256: Hash)
    requires cfg.Valid() && Inv(cfg, s, sha256) && now > s.clock
    requires forall i :: 0 <= i < |ids| ==> ids[i] < |s.files| && s.files[ids[i]].Live()
    ensures Inv(cfg, AfterCleanup(s, now, ids), sha256)
  {
    CleanupKeepsRows(cfg, s, now, ids, sha256);
    CleanupKeepsBuckets(s, now, ids);
    CleanupKeepsTables(cfg, s, now, ids, sha256);
    CleanupKeepsCounters(s, now, ids);
  }

  // ---------- buckets ----------

  lemma SameTables(cfg: Config, s: State, s': State, sha256: Hash)
    requires cfg.Valid() && |s.files| == |s.contents|
    requires s' == s.(buckets := s'.buckets, clock := s'.clock)
    requires ChunksOk(cfg, s, sha256) && DiskOk(cfg, s, sha256)
    ensures ChunksOk(cfg, s', sha256) && DiskOk(cfg, s', sha256)
  {
    DeleteFileRows(cfg, s, s', sha256);
    forall f: nat | f < |s'.files| && s'.files[f].Live()
      ensures OnDisk(cfg, s', f, sha256)
    {
      assert OnDisk(cfg, s, f, sha256);
    }
  }

  lemma CreateBucketKeepsInv(cfg: Config, s: State, name: string, maxSizeBytes: int, now: nat, sha256: Hash)
    requires cfg.Valid() && Inv(cfg, s, sha256) && now > s.clock && LiveBucketNamed(s.buckets, name).None?
    ensures Inv(cfg, AfterCreateBucket(s, name, maxSizeBytes, now), sha256)
  {
    var s' := AfterCreateBucket(s, name, maxSizeBytes, now);
    SameTables(cfg, s, s', sha256);
    NameFoundExactly(s.buckets, name);
    forall b: nat, m: Measure | b < |s'.buckets|
      ensures Recorded(m, s'.buckets[b]) == Tally(m, s'.files, Accounted(s'), b)
    {
      if b == |s.buckets| {
        TallyZero(m, s.files, Accounted(s), b);
      } else {
        assert Recorded(m, s.buckets[b]) == Tally(m, s.files, Accounted(s), b);
      }
    }
  }

  lemma DeleteBucketKeepsBuckets(s: State, bucket: nat, now: nat)
    requires QuotaOk(s) && BucketsOk(s) && DeleteBucketError(s, bucket).None?
    ensures QuotaOk(AfterDeleteBucket(s, bucket, now)) && BucketsOk(AfterDeleteBucket(s, bucket, now))
  {
    LiveCountZero(s.files, bucket);
  }

  lemma DeleteBucketKeepsInv(cfg: Config, s: State, bucket: nat, now: nat, sha256: Hash)
    requires cfg.Valid() && Inv(cfg, s, sha256) && now > s.clock && DeleteBucketError(s, bucket).None?
    ensures Inv(cfg, AfterDeleteBucket(s, bucket, now), sha256)
  {
    var s' := AfterDeleteBucket(s, bucket, now);
    SameTables(cfg, s, s', sha256);
    DeleteBucketKeepsBuckets(s, bucket, now);
    SameCounters(s, s');
  }

  lemma SameCounters(s: State, s': State)
    requires CountersOk(s) && s'.files == s.files && s'.reaped == s.reaped && |s'.buckets| == |s.buckets|
    requires forall b :: 0 <= b < |s.buckets| ==>
      && s'.buckets[b].currentSizeBytes == s.buckets[b].currentSizeBytes
      && s'.buckets[b].objectCount == s.buckets[b].objectCount
    ensures CountersOk(s')
  {
    forall b: nat, m: Measure | b < |s'.buckets|
      ensures Recorded(m, s'.buckets[b]) == Tally(m, s'.files, Accounted(s'), b)
    {
      assert Recorded(m, s.buckets[b]) == Tally(m, s.files, Accounted(s), b);
    }
  }

  lemma VersioningKeepsInv(cfg: Config, s: State, bucket: nat, versioning: Versioning, now: nat, sha256: Hash)
    requires cfg.Valid() && Inv(cfg, s, sha256) && now > s.clock && BucketById(s.buckets, bucket).Ok?
    ensures Inv(cfg, AfterVersioning(s, bucket, versioning, now), sha256)
  {
    var s' := AfterVersioning(s, bucket, versioning, now);
    SameTables(cfg, s, s', sha256);
    SameCounters(s, s');
  }

  lemma UploadPartKeepsInv(cfg: Config, s: State, upload: nat, number: int, data: Blob, sha256: Hash)
    requires cfg.Valid() && Inv(cfg, s, sha256)
    ensures Inv(cfg, AfterUploadPart(s, upload, number, data), sha256)
  {
    var s' := AfterUploadPart(s, upload, number, data);
    DeleteFileRows(cfg, s, s', sha256);
    forall f: nat | f < |s'.files| && s'.files[f].Live()
      ensures OnDisk(cfg, s', f, sha256)
    {
      assert OnDisk(cfg, s, f, sha256);
    }
    SameCounters(s, s');
  }

  // ---------- runs ----------

  datatype Op =
    | Put(bucket: nat, key: string, raw: Blob, ttl: Option<int>, now: nat)
    | Delete(bucket: nat, key: string, now: nat)
    | Cleanup(now: nat, ids: seq<nat>)
    | CreateBucket(name: string, maxSizeBytes: int, now: nat)
    | DeleteBucket(bucket: nat, now: nat)
    | SetVersioning(bucket: nat, versioning: Versioning, now: nat)
    | UploadPart(upload: nat, number: int, data: Blob)
    | Complete(upload: nat, bucket: nat, key: string, parts: seq<FilePart>, now: nat)

  /** The clock moves forward; the cleanup job works on what its listing returned. */
  ghost predicate Allowed(s: State, op: Op) {
    match op
    case UploadPart(_, _, _) => true
    case Cleanup(now, ids) => now > s.clock && ExpiredListing(s.files, now, CLEANUP_LIMIT, ids)
    case _ => op.now > s.clock
  }

  /** A rejected operation changes nothing. */
  ghost function Apply(cfg: Config, s: State, op: Op, sha256: Hash): State
    requires cfg.Valid() && Allowed(s, op)
  {
    match op
    case Put(bucket, key, raw, ttl, now) =>
      if PutError(cfg, s, bucket, raw).Some? then s else AfterPut(cfg, s, bucket, key, raw, ttl, now, sha256)
    case Delete(bucket, key, now) =>
      if Newest(s.files, bucket, key).None? then s else AfterDelete(s, bucket, key, now)
    case Cleanup(now, ids) => AfterCleanup(s, now, ids)
    case CreateBucket(name, maxSizeBytes, now) =>
      if CreateBucketError(s, name).Some? then s else AfterCreateBucket(s, name, maxSizeBytes, now)
    case DeleteBucket(bucket, now) =>
      if DeleteBucketError(s, bucket).Some? then s else AfterDeleteBucket(s, bucket, now)
    case SetVersioning(bucket, versioning, now) =>
      if BucketById(s.buckets, bucket).Err? then s else AfterVersioning(s, bucket, versioning, now)
    case UploadPart(upload, number, data) => AfterUploadPart(s, upload, number, data)
    case Complete(upload, bucket, key, parts, now) =>
      var joined := JoinedParts(s.disk, upload, parts);
      if joined.None? || PutError(cfg, s, bucket, joined.value).Some? then s
      else AfterPut(cfg, s, bucket, key, joined.value, None, now, sha256)
  }

  lemma StepKeepsInv(cfg: Config, s: State, op: Op, sha256: Hash)
    requires cfg.Valid() && Allowed(s, op) && Inv(cfg, s, sha256)
    ensures Inv(cfg, Apply(cfg, s, op, sha256), sha256)
  {
    match op
    case Put(bucket, key, raw, ttl, now) =>
      if PutError(cfg, s, bucket, raw).None? {
        PutKeepsInv(cfg, s, bucket, key, raw, ttl, now, sha256);
      }
    case Delete(bucket, key, now) =>
      if Newest(s.files, bucket, key).Some? {
        DeleteKeepsInv(cfg, s, bucket, key, now, sha256);
      }
    case Cleanup(now, ids) => CleanupKeepsInv(cfg, s, now, ids, sha256);
    case CreateBucket(name, maxSizeBytes, now) =>
      if CreateBucketError(s, name).None? {
        CreateBucketKeepsInv(cfg, s, name, maxSizeBytes, now, sha256);
      }
    case DeleteBucket(bucket, now) =>
      if DeleteBucketError(s, bucket).None? {
        DeleteBucketKeepsInv(cfg, s, bucket, now, sha256);
      }
    case SetVersioning(bucket, versioning, now) =>
      if BucketById(s.buckets, bucket).Ok? {
        VersioningKeepsInv(cfg, s, bucket, versioning, now, sha256);
      }
    case UploadPart(upload, number, data) => UploadPartKeepsInv(cfg, s, upload, number, data, sha256);
    case Complete(upload, bucket, key, parts, now) =>
      var joined := JoinedParts(s.disk, upload, parts);
      if joined.Some? && PutError(cfg, s, bucket, joined.value).None? {
        PutKeepsInv(cfg, s, bucket, key, joined.value, None, now, sha256);
      }
  }

  /** States reachable by sequential runs from the empty store. */
  ghost predicate Run(cfg: Config, states: seq<State>, ops: seq<Op>, sha256: Hash)
    requires cfg.Valid()
  {
    && |states| == |ops| + 1
    && states[0] == EMPTY
    && forall i :: 0 <= i < |ops| ==>
         Allowed(states[i], ops[i]) && states[i + 1] == Apply(cfg, states[i], ops[i], sha256)
  }

  lemma EmptyInv(cfg: Config, sha256: Hash)
    requires cfg.Valid()
    ensures Inv(cfg, EMPTY, sha256)
  {
  }

  lemma {:induction false} RunKeepsInv(cfg: Config, states: seq<State>, ops: seq<Op>, sha256: Hash, i: nat)
    requires cfg.Valid() && Run(cfg, states, ops, sha256) && i <= |ops|
    ensures Inv(cfg, states[i], sha256)
  {
    if i == 0 {
      EmptyInv(cfg, sha256);
    } else {
      RunKeepsInv(cfg, states, ops, sha256, i - 1);
      StepKeepsInv(cfg, states[i - 1], ops[i - 1], sha256);
    }
  }
}
