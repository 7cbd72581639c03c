/** The file and bucket services, step by step on the tables and the disk. */
module Services {
  import opened Bytes
  import opened Domain
  import opened Chunking
  import opened Pipeline
  import opened Store
  import opened Repositories
  import opened Tallies
  import Erasure
  import Recovery

  ghost function Snapshot(db: Database, disk: DiskStore): State
    reads db, disk
  {
    State(db.buckets, db.files, db.chunkRows, disk.blobs, db.clock, db.contents, db.reaped)
  }

  class FileService {
    const cfg: Config
    const sha256: Hash
    const db: Database
    const disk: DiskStore

    constructor (cfg: Config, sha256: Hash, db: Database, disk: DiskStore)
      ensures this.cfg == cfg && this.sha256 == sha256 && this.db == db && this.disk == disk
    {
      this.cfg, this.sha256, this.db, this.disk := cfg, sha256, db, disk;
    }

    ghost function Abs(): State
      reads db, disk
    {
      Snapshot(db, disk)
    }

    method PutObject(bucket: nat, key: string, raw: Blob, ttl: Option<int>, now: nat) returns (r: Result<(nat, FileRow)>)
      requires cfg.Valid() && now > db.clock && |raw| <= MAX_LENGTH
      modifies db, disk
      ensures match PutError(cfg, old(Abs()), bucket, raw)
        case Some(e) => r == Err(e) && Abs() == old(Abs())
        case None =>
          && Abs() == AfterPut(cfg, old(Abs()), bucket, key, raw, ttl, now, sha256)
          && r == Ok((|old(db.files)|, NewFile(cfg, bucket, key, raw, ttl, now, sha256)))
      ensures !(bucket < |old(db.buckets)| && old(db.buckets)[bucket].deletedAt.None?) ==> r == Err(NotFound)
      ensures bucket < |old(db.buckets)| && old(db.buckets)[bucket].deletedAt.None? ==>
          Answers(cfg, old(db.buckets)[bucket], raw, r)
    {
      var found := BucketById(db.buckets, bucket);
      if found.Err? {
        return Err(found.error);
      }
      var snapshot := found.value;
      if |raw| > cfg.maxFileSize {
        return Err(EntityTooLarge);
      }
      if snapshot.maxSizeBytes > 0 && snapshot.currentSizeBytes + |raw| > snapshot.maxSizeBytes {
        return Err(StorageQuota);
      }
      var coded := EncodeObject(raw);
      if coded.Err? {
        return Err(coded.error);
      }
      var fileId, row := StoreObject(bucket, snapshot, key, raw, ttl, now, coded.value);
      r := Ok((fileId, row));
    }

    /** Everything a put does once nothing can reject it. */
    method StoreObject(bucket: nat, snapshot: Bucket, key: string, raw: Blob, ttl: Option<int>, now: nat, shards: Shards)
        returns (fileId: nat, row: FileRow)
      requires cfg.Valid() && PutError(cfg, Abs(), bucket, raw).None? && BucketById(db.buckets, bucket) == Ok(snapshot)
      requires shards == Shards(StoredRows(cfg, raw, sha256), StoredData(cfg, raw))
      modifies db, disk
      ensures Abs() == AfterPut(cfg, old(Abs()), bucket, key, raw, ttl, now, sha256)
      ensures fileId == |old(db.files)| && row == NewFile(cfg, bucket, key, raw, ttl, now, sha256)
    {
      ghost var before := Abs();
      var etag := sha256(raw);
      fileId := |db.files|;
      var placed := WriteChunks(bucket, fileId, shards);
      var storageSize := MeasureStorage(|raw|);
      var expiresAt := if ttl.Some? then Some(now + ttl.value) else None;
      row := FileRow(bucket, key, |raw|, etag, |placed|, storageSize, now, expiresAt, None);
      RecordObject(bucket, snapshot, row, raw, placed, now);
      AllOfPut(cfg, before, bucket, key, raw, ttl, now, sha256, snapshot, Abs());
    }

    method MeasureStorage(size: nat) returns (storageSize: nat)
      requires cfg.Valid()
      ensures storageSize == StorageSize(cfg, size)
      ensures cfg.codec.parityShards == 0 ==> storageSize == size
      ensures cfg.codec.parityShards > 0 ==>
          var k, p := cfg.codec.dataShards, cfg.codec.parityShards;
          storageSize * k <= size * (k + p) < (storageSize + 1) * k
    {
      StorageSizeExactly(cfg, size);
      storageSize := size;
      if cfg.codec.parityShards > 0 {
        var totalShards := cfg.codec.dataShards + cfg.codec.parityShards;
        storageSize := size * totalShards / cfg.codec.dataShards;
      }
    }

    /** The table writes of a put: the file row, its chunk rows, and the whole bucket snapshot. */
    method RecordObject(bucket: nat, snapshot: Bucket, row: FileRow, raw: Blob, placed: seq<FileChunk>, now: nat)
      requires BucketById(db.buckets, bucket) == Ok(snapshot)
      modifies db
      ensures db.files == old(db.files) + [row] && db.contents == old(db.contents) + [raw]
      ensures db.chunkRows == old(db.chunkRows) + RecordRows(|old(db.files)|, placed)
      ensures db.buckets == old(db.buckets)[bucket := snapshot.(
                currentSizeBytes := snapshot.currentSizeBytes + |raw|, objectCount := snapshot.objectCount + 1)]
      ensures db.clock == now && db.reaped == old(db.reaped)
    {
      var fileId := db.CreateFile(row, raw);
      RecordChunks(fileId, placed);
      var updated := snapshot.(currentSizeBytes := snapshot.currentSizeBytes + |raw|,
                               objectCount := snapshot.objectCount + 1);
      var _ := db.UpdateBucket(bucket, updated);
      db.clock := now;
    }

    /** Chunking, and erasure coding when parity is configured. */
    method EncodeObject(raw: Blob) returns (r: Result<Shards>)
      requires cfg.Valid() && |raw| <= MAX_LENGTH
      ensures r == if cfg.Coded() && raw == [] then Err(NoChunks)
                   else Ok(Shards(StoredRows(cfg, raw, sha256), StoredData(cfg, raw)))
      ensures r.Err? <==> cfg.codec.parityShards > 0 && raw == []
    {
      var split := Split(cfg.chunkSize, raw, sha256);
      ChunksNonempty(cfg, raw);
      if cfg.codec.parityShards > 0 {
        r := Erasure.Encode(cfg.codec, split.data, sha256);
      } else {
        r := Ok(split);
      }
    }

    method WriteChunks(bucket: nat, fileId: nat, shards: Shards) returns (placed: seq<FileChunk>)
      requires |shards.rows| == |shards.data|
      modifies disk
      ensures placed == PlacedRows(bucket, fileId, shards.rows)
      ensures disk.blobs == WriteBlobs(old(disk.blobs), placed, shards.data)
    {
      ghost var target := PlacedRows(bucket, fileId, shards.rows);
      placed := [];
      for i := 0 to |shards.rows|
        invariant placed == target[..i]
        invariant disk.blobs == WriteBlobs(old(disk.blobs), target[..i], shards.data[..i])
      {
        var chunk := shards.rows[i];
        var chunkPath := ObjectPath(bucket, fileId, chunk.chunkIndex);
        disk.Write(chunkPath, shards.data[i]);
        placed := placed + [chunk.(storagePath := chunkPath)];
        assert target[..i + 1][..i] == target[..i] && shards.data[..i + 1][..i] == shards.data[..i];
      }
      assert target[..|shards.rows|] == target && shards.data[..|shards.rows|] == shards.data;
    }

    method RecordChunks(fileId: nat, placed: seq<FileChunk>)
      modifies db`chunkRows
      ensures db.chunkRows == old(db.chunkRows) + RecordRows(fileId, placed)
    {
      for i := 0 to |placed|
        invariant db.chunkRows == old(db.chunkRows) + RecordRows(fileId, placed[..i])
      {
        db.CreateChunk(fileId, placed[i]);
        assert RecordRows(fileId, placed[..i + 1]) == RecordRows(fileId, placed[..i]) + [ChunkRow(fileId, placed[i])];
      }
      assert placed[..|placed|] == placed;
    }

    method GetObject(bucket: nat, key: string, version: Option<nat>, now: nat) returns (r: Result<(nat, Blob)>)
      ensures r == GetResult(cfg, Abs(), bucket, key, version, now)
    {
      var found := db.GetFileByKey(bucket, key, version);
      if found.Err? {
        return Err(found.error);
      }
      var file := found.value;
      if Expired(db.files[file], now) {
        return Err(NotFound);
      }
      var chunks := db.ListChunksOf(file);
      if |chunks| > 0 {
        var blobs := ReadChunks(chunks);
        if blobs.Err? {
          return Err(blobs.error);
        }
        var decoded: Result<Blob>;
        if cfg.codec.parityShards > 0 {
          decoded := Recovery.Decode(cfg.codec, chunks, blobs.value);
        } else {
          decoded := Merge(blobs.value);
        }
        match decoded {
          case Ok(bytes) => r := Ok((file, bytes));
          case Err(e) => r := Err(e);
        }
      } else {
        r := Err(NotFound);
      }
    }

    method ReadChunks(rows: seq<FileChunk>) returns (r: Result<seq<Blob>>)
      ensures r == if ReadBlobs(disk.blobs, rows).Some? then Ok(ReadBlobs(disk.blobs, rows).value) else Err(MissingBlob)
      ensures r.Ok? ==> |r.value| == |rows|
    {
      var data: seq<Blob> := [];
      for i := 0 to |rows|
        invariant ReadBlobs(disk.blobs, rows[..i]) == Some(data) && |data| == i
      {
        assert rows[..i + 1][..i] == rows[..i];
        var blob := disk.Read(rows[i].storagePath);
        if blob.Err? {
          ReadFails(disk.blobs, rows, i);
          return Err(blob.error);
        }
        data := data + [blob.value];
      }
      assert rows[..|rows|] == rows;
      r := Ok(data);
    }

    method DeleteObject(bucket: nat, key: string, now: nat) returns (r: Result<()>)
      requires now > db.clock
      modifies db, disk
      ensures if Newest(old(db.files), bucket, key).None? then r == Err(NotFound) && Abs() == old(Abs())
              else r == Ok(()) && Abs() == AfterDelete(old(Abs()), bucket, key, now)
      ensures r == Err(NotFound) <==> forall f: nat :: f < |old(db.files)| && old(db.files)[f].deletedAt.None? ==>
                old(db.files)[f].bucket != bucket || old(db.files)[f].key != key
      ensures r == Err(NotFound) || r == Ok(())
    {
      NewestExactly(db.files, bucket, key);
      var found := db.GetFileByKey(bucket, key, None);
      if found.Err? {
        return Err(found.error);
      }
      var file := found.value;
      var size := db.files[file].size;
      var chunks := db.ListChunksOf(file);
      DeleteChunks(chunks);
      var gone := db.SoftDeleteFile(file, now);
      if gone.Err? {
        return gone;
      }
      var row := BucketById(db.buckets, bucket);
      if row.Ok? {
        var snapshot := row.value;
        snapshot := snapshot.(currentSizeBytes := snapshot.currentSizeBytes - size);
        if snapshot.currentSizeBytes < 0 {
          snapshot := snapshot.(currentSizeBytes := 0);
        }
        snapshot := snapshot.(objectCount := snapshot.objectCount - 1);
        if snapshot.objectCount < 0 {
          snapshot := snapshot.(objectCount := 0);
        }
        var _ := db.UpdateBucket(bucket, snapshot);
      }
      db.clock := now;
      r := Ok(());
    }

    method DeleteChunks(rows: seq<FileChunk>)
      modifies disk
      ensures disk.blobs == old(disk.blobs) - PathsOf(rows)
    {
      for i := 0 to |rows|
        invariant disk.blobs == old(disk.blobs) - PathsOf(rows[..i])
      {
        disk.Delete(rows[i].storagePath);
        PathsNext(rows, i);
      }
      assert rows[..|rows|] == rows;
    }

    method CleanupExpiredObjects(now: nat) returns (count: nat, ghost ids: seq<nat>)
      requires now > db.clock
      modifies db
      ensures ExpiredListing(old(db.files), now, CLEANUP_LIMIT, ids) && count == |ids|
      ensures Abs() == AfterCleanup(old(Abs()), now, ids)
      ensures CleanedUp(old(db.files), db.files, now, count)
    {
      var expired := db.ListExpired(now, CLEANUP_LIMIT);
      ids := expired;
      ghost var files, reaped := db.files, db.reaped;
      count := 0;
      for i := 0 to |expired|
        invariant count == i
        invariant db.files == MarkDeleted(files, expired[..i], now)
        invariant db.reaped == reaped + IdSet(expired[..i])
        invariant db.buckets == old(db.buckets) && db.chunkRows == old(db.chunkRows) && db.clock == old(db.clock)
        invariant db.contents == old(db.contents)
      {
        MarkNext(files, expired, i, now);
        var gone := db.SoftDeleteFile(expired[i], now);
        if gone.Err? {
          continue;
        }
        db.reaped := db.reaped + {expired[i]};
        count := count + 1;
      }
      assert expired[..|expired|] == expired;
      CleanupCleans(files, expired, now);
      db.clock := now;
    }

    // ---------- multipart uploads ----------

    method UploadPart(upload: nat, partNumber: int, data: Blob) returns (part: FilePart)
      modifies disk
      ensures part == PartOf(partNumber, data, sha256)
      ensures part.partNumber == part.etag.partNumber == partNumber && part.size == |data|
      ensures part.checksum == part.etag.checksum == sha256(data)
      ensures Abs() == old(Abs()).(disk := old(disk.blobs)[PartPath(upload, partNumber) := data])
    {
      var checksum := sha256(data);
      part := FilePart(partNumber, PartTag(checksum, partNumber), |data|, checksum);
      disk.Write(PartPath(upload, partNumber), data);
    }

    /** Reads the listed parts in order and puts their concatenation; a missing part stops it. */
    method CompleteMultipartUpload(upload: nat, bucket: nat, key: string, parts: seq<FilePart>, now: nat)
        returns (r: Result<(nat, FileRow)>)
      requires cfg.Valid() && now > db.clock
      requires PartsLength(disk.blobs, upload, parts) <= MAX_LENGTH
      modifies db, disk
      ensures
        var joined := JoinedParts(old(disk.blobs), upload, parts);
        if joined.None? then r == Err(MissingBlob) && Abs() == old(Abs())
        else match PutError(cfg, old(Abs()), bucket, joined.value)
          case Some(e) => r == Err(e) && Abs() == old(Abs())
          case None =>
            && r == Ok((|old(db.files)|, NewFile(cfg, bucket, key, joined.value, None, now, sha256)))
            && Abs() == AfterPut(cfg, old(Abs()), bucket, key, joined.value, None, now, sha256)
      ensures r == Err(MissingBlob) <==>
          exists t :: 0 <= t < |parts| && PartPath(upload, parts[t].partNumber) !in old(disk.blobs)
      ensures r != Err(MissingBlob) ==>
          if bucket < |old(db.buckets)| && old(db.buckets)[bucket].deletedAt.None?
          then Answers(cfg, old(db.buckets)[bucket], JoinedParts(old(disk.blobs), upload, parts).value, r)
          else r == Err(NotFound)
    {
      JoinsExactly(disk.blobs, upload, parts);
      var partsData := ReadParts(upload, parts);
      if partsData.Err? {
        return Err(partsData.error);
      }
      var rawData := JoinParts(partsData.value);
      r := PutObject(bucket, key, rawData, None, now);
    }

    method ReadParts(upload: nat, parts: seq<FilePart>) returns (r: Result<seq<Blob>>)
      ensures match JoinedParts(disk.blobs, upload, parts)
        case None => r == Err(MissingBlob)
        case Some(joined) => r.Ok? && Concat(r.value) == joined
    {
      var partsData: seq<Blob> := [];
      for i := 0 to |parts|
        invariant JoinedParts(disk.blobs, upload, parts[..i]) == Some(Concat(partsData))
      {
        assert parts[..i + 1][..i] == parts[..i];
        var blob := disk.Read(PartPath(upload, parts[i].partNumber));
        if blob.Err? {
          JoinFails(disk.blobs, upload, parts, i);
          return Err(blob.error);
        }
        ConcatPush(partsData, blob.value);
        partsData := partsData + [blob.value];
      }
      assert parts[..|parts|] == parts;
      r := Ok(partsData);
    }
  }

  /**
   * What a put into a live bucket answers: too large an object, then one the quota has no room for, then an empty one
   * where parity is configured is rejected, and every other one is accepted.
   */
  ghost predicate Answers(cfg: Config, b: Bucket, raw: Blob, r: Result<(nat, FileRow)>) {
    && (r == Err(EntityTooLarge) <==> |raw| > cfg.maxFileSize)
    && (|raw| <= cfg.maxFileSize ==>
          (r == Err(StorageQuota) <==> b.maxSizeBytes > 0 && b.currentSizeBytes + |raw| > b.maxSizeBytes))
    && (|raw| <= cfg.maxFileSize && (b.maxSizeBytes <= 0 || b.currentSizeBytes + |raw| <= b.maxSizeBytes) ==>
          if raw == [] && cfg.codec.parityShards > 0 then r == Err(NoChunks) else r.Ok?)
  }

  /**
   * At most 1000 rows, all live and past their expiry date, have been marked as deleted at `now`, and nothing else
   * has changed; fewer than 1000 only if no such row is left.
   */
  ghost predicate CleanedUp(before: seq<FileRow>, after: seq<FileRow>, now: nat, count: nat) {
    && count <= 1000 && |after| == |before|
    && (forall f: nat :: f < |after| ==>
          || after[f] == before[f]
          || (PastDeadline(before[f], now) && after[f] == before[f].(deletedAt := Some(now))))
    && (count < 1000 ==> forall f: nat :: f < |after| ==> !PastDeadline(after[f], now))
    && count == |Touched(before, after)|
  }

  function Touched(before: seq<FileRow>, after: seq<FileRow>): set<nat> {
    set f: nat | f < |before| && f < |after| && after[f] != before[f]
  }

  lemma CleanupCleans(files: seq<FileRow>, ids: seq<nat>, now: nat)
    requires ExpiredListing(files, now, CLEANUP_LIMIT, ids)
    ensures CleanedUp(files, MarkDeleted(files, ids, now), now, |ids|)
  {
    assert Touched(files, MarkDeleted(files, ids, now)) == IdSet(ids);
    IdsCount(ids);
  }

  lemma {:induction false} IdsCount(ids: seq<nat>)
    requires forall i, j :: 0 <= i < j < |ids| ==> ids[i] != ids[j]
    ensures |IdSet(ids)| == |ids|
  {
    if ids != [] {
      var n := |ids| - 1;
      IdsCount(ids[..n]);
      assert IdSet(ids) == IdSet(ids[..n]) + {ids[n]};
    }
  }

  /** The lookup without a version finds a live row of the key with the greatest creation time, if there is one. */
  lemma {:induction false} NewestExactly(files: seq<FileRow>, bucket: nat, key: string)
    ensures
      var newest := Newest(files, bucket, key);
      if newest.None? then
        forall f: nat :: f < |files| && files[f].deletedAt.None? ==> files[f].bucket != bucket || files[f].key != key
      else
        var n := newest.value;
        && n < |files| && files[n].deletedAt.None? && files[n].bucket == bucket && files[n].key == key
        && forall f: nat :: f < |files| && files[f].deletedAt.None? && files[f].bucket == bucket && files[f].key == key ==>
             files[f].createdAt <= files[n].createdAt
  {
    if files != [] {
      NewestExactly(files[..|files| - 1], bucket, key);
    }
  }

  /** Field by field, what a put makes of the state. */
  lemma AllOfPut(cfg: Config, s: State, bucket: nat, key: string, raw: Blob, ttl: Option<int>, now: nat, sha256: Hash,
                 snapshot: Bucket, s': State)
    requires cfg.Valid() && PutError(cfg, s, bucket, raw).None? && BucketById(s.buckets, bucket) == Ok(snapshot)
    requires s'.files == s.files + [NewFile(cfg, bucket, key, raw, ttl, now, sha256)] && s'.contents == s.contents + [raw]
    requires
      var rows := PlacedRows(bucket, |s.files|, StoredRows(cfg, raw, sha256));
      && s'.chunkRows == s.chunkRows + RecordRows(|s.files|, rows)
      && s'.disk == WriteBlobs(s.disk, rows, StoredData(cfg, raw))
    requires s'.buckets == s.buckets[bucket := snapshot.(
                currentSizeBytes := snapshot.currentSizeBytes + |raw|, objectCount := snapshot.objectCount + 1)]
    requires s'.clock == now && s'.reaped == s.reaped
    ensures s' == AfterPut(cfg, s, bucket, key, raw, ttl, now, sha256)
  {
  }

  lemma MarkNext(files: seq<FileRow>, ids: seq<nat>, i: nat, now: nat)
    requires i < |ids| && forall j :: 0 <= j < |ids| ==> ids[j] < |files| && files[ids[j]].Live()
    requires forall j, j' :: 0 <= j < j' < |ids| ==> ids[j] != ids[j']
    ensures MarkDeleted(files, ids[..i], now)[ids[i]] == files[ids[i]]
    ensures MarkDeleted(files, ids[..i + 1], now)
        == MarkDeleted(files, ids[..i], now)[ids[i] := files[ids[i]].(deletedAt := Some(now))]
    ensures IdSet(ids[..i + 1]) == IdSet(ids[..i]) + {ids[i]}
  {
    assert ids[..i + 1] == ids[..i] + [ids[i]];
    assert ids[i] !in ids[..i];
  }

  /** The bytes of the listed parts, joined, if none is missing. */
  function JoinedParts(disk: map<Path, Blob>, upload: nat, parts: seq<FilePart>): Option<Blob> {
    if parts == [] then Some([])
    else
      var n := |parts| - 1;
      var before := JoinedParts(disk, upload, parts[..n]);
      var path := PartPath(upload, parts[n].partNumber);
      if before.Some? && path in disk then Some(before.value + disk[path]) else None
  }

  function PartsLength(disk: map<Path, Blob>, upload: nat, parts: seq<FilePart>): nat {
    if JoinedParts(disk, upload, parts).Some? then |JoinedParts(disk, upload, parts).value| else 0
  }

  lemma {:induction false} JoinFailsFrom(disk: map<Path, Blob>, upload: nat, parts: seq<FilePart>, i: nat, n: nat)
    requires i < n <= |parts| && PartPath(upload, parts[i].partNumber) !in disk
    ensures JoinedParts(disk, upload, parts[..n]) == None
  {
    assert parts[..n][..n - 1] == parts[..n - 1];
    if i + 1 < n {
      JoinFailsFrom(disk, upload, parts, i, n - 1);
    }
  }

  lemma JoinFails(disk: map<Path, Blob>, upload: nat, parts: seq<FilePart>, i: nat)
    requires i < |parts| && PartPath(upload, parts[i].partNumber) !in disk
    ensures JoinedParts(disk, upload, parts) == None
  {
    JoinFailsFrom(disk, upload, parts, i, |parts|);
    assert parts[..|parts|] == parts;
  }

  lemma {:induction false} JoinsExactly(disk: map<Path, Blob>, upload: nat, parts: seq<FilePart>)
    ensures JoinedParts(disk, upload, parts).None? <==>
        exists t :: 0 <= t < |parts| && PartPath(upload, parts[t].partNumber) !in disk
  {
    if parts != [] {
      var n := |parts| - 1;
      JoinsExactly(disk, upload, parts[..n]);
      assert forall t :: 0 <= t < n ==> parts[..n][t] == parts[t];
    }
  }

  lemma {:induction false} ReadFailsFrom(disk: map<Path, Blob>, rows: seq<FileChunk>, i: nat, n: nat)
    requires i < n <= |rows| && rows[i].storagePath !in disk
    ensures ReadBlobs(disk, rows[..n]) == None
  {
    assert rows[..n][..n - 1] == rows[..n - 1];
    if i + 1 < n {
      ReadFailsFrom(disk, rows, i, n - 1);
    }
  }

  lemma ReadFails(disk: map<Path, Blob>, rows: seq<FileChunk>, i: nat)
    requires i < |rows| && rows[i].storagePath !in disk
    ensures ReadBlobs(disk, rows) == None
  {
    ReadFailsFrom(disk, rows, i, |rows|);
    assert rows[..|rows|] == rows;
  }

  lemma PathsNext(rows: seq<FileChunk>, i: nat)
    requires i < |rows|
    ensures PathsOf(rows[..i + 1]) == PathsOf(rows[..i]) + {rows[i].storagePath}
  {
    var a, b := rows[..i], rows[..i + 1];
    assert forall t :: 0 <= t < |a| ==> a[t] == b[t];
    assert b[i] == rows[i];
  }

  // ---------- buckets ----------

  predicate ValidBucketName(name: string) {
    && 3 <= |name| <= 63
    && forall i :: 0 <= i < |name| ==>
         'a' <= name[i] <= 'z' || '0' <= name[i] <= '9' || name[i] == '.' || name[i] == '-'
  }

  /** Neither a lower-case letter nor a digit, a dot or a hyphen, by code point. */
  predicate Unlisted(c: char) {
    var code := c as int;
    !(97 <= code <= 122) && !(48 <= code <= 57) && code != 45 && code != 46
  }

  function CreateBucketError(s: State, name: string): Option<Error> {
    if !ValidBucketName(name) then Some(InvalidInput)
    else if LiveBucketNamed(s.buckets, name).Some? then Some(AlreadyExists)
    else None
  }

  function DeleteBucketError(s: State, bucket: nat): Option<Error> {
    if BucketById(s.buckets, bucket).Err? then Some(NotFound)
    else if LiveCount(s.files, bucket) > 0 then Some(InvalidInput)
    else None
  }

  class BucketService {
    const db: Database
    const disk: DiskStore

    constructor (db: Database, disk: DiskStore)
      ensures this.db == db && this.disk == disk
    {
      this.db, this.disk := db, disk;
    }

    ghost function Abs(): State
      reads db, disk
    {
      Snapshot(db, disk)
    }

    method CreateBucket(name: string, maxSizeBytes: int, now: nat) returns (r: Result<nat>)
      requires now > db.clock
      modifies db
      ensures match CreateBucketError(old(Abs()), name)
        case Some(e) => r == Err(e) && Abs() == old(Abs())
        case None => r == Ok(|old(db.buckets)|) && Abs() == AfterCreateBucket(old(Abs()), name, maxSizeBytes, now)
      ensures r == Err(InvalidInput) <==> |name| < 3 || |name| > 63 || exists i :: 0 <= i < |name| && Unlisted(name[i])
      ensures r != Err(InvalidInput) && r != Err(AlreadyExists) <==> r.Ok?
      ensures r == Err(AlreadyExists) ==>
          exists b :: 0 <= b < |old(db.buckets)| && old(db.buckets)[b].name == name && old(db.buckets)[b].deletedAt.None?
      ensures r.Ok? ==>
          forall b :: 0 <= b < |old(db.buckets)| && old(db.buckets)[b].deletedAt.None? ==> old(db.buckets)[b].name != name
      ensures r.Ok? ==>
          && r == Ok(|old(db.buckets)|)
          && db.buckets == old(db.buckets) + [Bucket(name, Disabled, maxSizeBytes, 0, 0, None)]
    {
      if !ValidBucketName(name) {
        return Err(InvalidInput);
      }
      var existing := db.GetBucketByName(name);
      if existing.Ok? {
        return Err(AlreadyExists);
      }
      var id := db.CreateBucket(Bucket(name, Disabled, maxSizeBytes, 0, 0, None));
      db.clock := now;
      r := Ok(id);
    }

    method DeleteBucket(bucket: nat, now: nat) returns (r: Result<()>)
      requires now > db.clock
      modifies db
      ensures match DeleteBucketError(old(Abs()), bucket)
        case Some(e) => r == Err(e) && Abs() == old(Abs())
        case None => r == Ok(()) && Abs() == AfterDeleteBucket(old(Abs()), bucket, now)
      ensures !(bucket < |old(db.buckets)| && old(db.buckets)[bucket].deletedAt.None?) ==> r == Err(NotFound)
      ensures bucket < |old(db.buckets)| && old(db.buckets)[bucket].deletedAt.None? ==>
          if exists f :: 0 <= f < |old(db.files)|
               && old(db.files)[f].deletedAt.None? && old(db.files)[f].bucket == bucket
          then r == Err(InvalidInput)
          else r == Ok(()) && db.buckets == old(db.buckets)[bucket := old(db.buckets)[bucket].(deletedAt := Some(now))]
    {
      LiveCountZero(db.files, bucket);
      var found := BucketById(db.buckets, bucket);
      if found.Err? {
        return Err(found.error);
      }
      var count := db.CountByBucket(bucket);
      if count > 0 {
        return Err(InvalidInput);
      }
      var gone := db.SoftDeleteBucket(bucket, now);
      if gone.Err? {
        return gone;
      }
      db.clock := now;
      r := Ok(());
    }

    method UpdateBucketVersioning(bucket: nat, versioning: Versioning, now: nat) returns (r: Result<()>)
      requires now > db.clock
      modifies db
      ensures if BucketById(old(db.buckets), bucket).Err? then r == Err(NotFound) && Abs() == old(Abs())
              else r == Ok(()) && Abs() == AfterVersioning(old(Abs()), bucket, versioning, now)
      ensures r.Ok? <==> bucket < |old(db.buckets)| && old(db.buckets)[bucket].deletedAt.None?
      ensures r.Ok? ==> db.buckets == old(db.buckets)[bucket := old(db.buckets)[bucket].(versioning := versioning)]
    {
      var found := BucketById(db.buckets, bucket);
      if found.Err? {
        return Err(found.error);
      }
      r := db.UpdateBucket(bucket, found.value.(versioning := versioning));
      db.clock := now;
    }
  }
}
