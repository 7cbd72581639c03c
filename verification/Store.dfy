/** The object store's tables and disk as one value, and what each completed operation does to it. */
module Store {
  import opened Bytes
  import opened Domain
  import opened Chunking
  import opened Recovery
  import opened Pipeline

  datatype Versioning = Disabled | Enabled | Suspended

  datatype Bucket = Bucket(name: string, versioning: Versioning, maxSizeBytes: int,
                           currentSizeBytes: int, objectCount: int, deletedAt: Option<nat>)

  /** A file's identifier and version are its position in the table. */
  datatype FileRow = FileRow(bucket: nat, key: string, size: nat, checksum: Digest, chunkCount: nat,
                             storageSize: nat, createdAt: nat, expiresAt: Option<int>, deletedAt: Option<nat>)
  {
    predicate Live() {
      deletedAt.None?
    }
  }

  datatype ChunkRow = ChunkRow(file: nat, chunk: FileChunk)

  /**
   * `contents` and `reaped` are bookkeeping for the statements: the bytes each file was put with, and the
   * files whose row was soft-deleted by the cleanup job.
   */
  datatype State = State(buckets: seq<Bucket>, files: seq<FileRow>, chunkRows: seq<ChunkRow>, disk: map<Path, Blob>,
                         clock: nat, contents: seq<Blob>, reaped: set<nat>)

  const EMPTY := State([], [], [], map[], 0, [], {})

  // ---------- queries ----------

  function BucketById(buckets: seq<Bucket>, id: nat): Result<Bucket> {
    if id < |buckets| && buckets[id].deletedAt.None? then Ok(buckets[id]) else Err(NotFound)
  }

  /** The update of a live bucket row from a snapshot: the whole row but its name. */
  function UpdatedBuckets(buckets: seq<Bucket>, id: nat, snapshot: Bucket): seq<Bucket> {
    if BucketById(buckets, id).Err? then buckets
    else buckets[id := buckets[id].(versioning := snapshot.versioning, maxSizeBytes := snapshot.maxSizeBytes,
                                    currentSizeBytes := snapshot.currentSizeBytes, objectCount := snapshot.objectCount)]
  }

  predicate OverQuota(b: Bucket, size: nat) {
    b.maxSizeBytes > 0 && b.currentSizeBytes + size > b.maxSizeBytes
  }

  function LiveBucketNamed(buckets: seq<Bucket>, name: string): Option<nat> {
    if buckets == [] then None
    else
      var n := |buckets| - 1;
      var earlier := LiveBucketNamed(buckets[..n], name);
      if earlier.None? && buckets[n].name == name && buckets[n].deletedAt.None? then Some(n) else earlier
  }

  predicate Matches(row: FileRow, bucket: nat, key: string) {
    row.Live() && row.bucket == bucket && row.key == key
  }

  /** The live row of the key with the greatest creation time. */
  function Newest(files: seq<FileRow>, bucket: nat, key: string): (r: Option<nat>)
    ensures r.Some? ==> r.value < |files| && Matches(files[r.value], bucket, key)
  {
    if files == [] then None
    else
      var n := |files| - 1;
      var best := Newest(files[..n], bucket, key);
      if Matches(files[n], bucket, key) && (best.None? || files[best.value].createdAt < files[n].createdAt)
      then Some(n) else best
  }

  function FileByKey(files: seq<FileRow>, bucket: nat, key: string, version: Option<nat>): (r: Option<nat>)
    ensures r.Some? ==> r.value < |files| && Matches(files[r.value], bucket, key)
  {
    if version.None? then Newest(files, bucket, key)
    else if version.value < |files| && Matches(files[version.value], bucket, key) then version
    else None
  }

  function LiveCount(files: seq<FileRow>, bucket: nat): nat {
    if files == [] then 0
    else
      var n := |files| - 1;
      LiveCount(files[..n], bucket) + (if files[n].Live() && files[n].bucket == bucket then 1 else 0)
  }

  predicate Expired(row: FileRow, now: nat) {
    row.expiresAt.Some? && row.expiresAt.value < now
  }

  /** What a listing of expired files with a limit may return: distinct live expired rows, as many as fit. */
  ghost predicate ExpiredListing(files: seq<FileRow>, now: nat, limit: nat, ids: seq<nat>) {
    && (forall i :: 0 <= i < |ids| ==> ids[i] < |files| && files[ids[i]].Live() && Expired(files[ids[i]], now))
    && (forall i, j :: 0 <= i < j < |ids| ==> ids[i] != ids[j])
    && |ids| <= limit
    && (|ids| < limit ==>
          forall f: nat :: f < |files| && files[f].Live() && Expired(files[f], now) ==> f in ids)
  }

  /** A live row whose expiry date has gone by. */
  predicate PastDeadline(row: FileRow, now: nat) {
    row.deletedAt.None? && row.expiresAt.Some? && row.expiresAt.value < now
  }

  const CLEANUP_LIMIT := 1000

  // ---------- chunk rows ----------

  function RowsOf(chunkRows: seq<ChunkRow>, file: nat): seq<FileChunk> {
    if chunkRows == [] then []
    else
      var n := |chunkRows| - 1;
      RowsOf(chunkRows[..n], file) + (if chunkRows[n].file == file then [chunkRows[n].chunk] else [])
  }

  function InsertByIndex(rows: seq<FileChunk>, c: FileChunk): seq<FileChunk> {
    if rows == [] || rows[|rows| - 1].chunkIndex <= c.chunkIndex then rows + [c]
    else InsertByIndex(rows[..|rows| - 1], c) + [rows[|rows| - 1]]
  }

  function SortByIndex(rows: seq<FileChunk>): seq<FileChunk> {
    if rows == [] then [] else InsertByIndex(SortByIndex(rows[..|rows| - 1]), rows[|rows| - 1])
  }

  function ListChunks(chunkRows: seq<ChunkRow>, file: nat): seq<FileChunk> {
    SortByIndex(RowsOf(chunkRows, file))
  }

  /** An emitted descriptor once it has its place on disk. */
  function Placed(bucket: nat, file: nat, c: FileChunk): FileChunk {
    c.(storagePath := ObjectPath(bucket, file, c.chunkIndex))
  }

  function PlacedRows(bucket: nat, file: nat, rows: seq<FileChunk>): seq<FileChunk> {
    seq(|rows|, t requires 0 <= t < |rows| => Placed(bucket, file, rows[t]))
  }

  function RecordRows(file: nat, rows: seq<FileChunk>): seq<ChunkRow> {
    seq(|rows|, t requires 0 <= t < |rows| => ChunkRow(file, rows[t]))
  }

  // ---------- disk ----------

  function WriteBlobs(disk: map<Path, Blob>, rows: seq<FileChunk>, data: seq<Blob>): map<Path, Blob>
    requires |rows| == |data|
  {
    if rows == [] then disk
    else
      var n := |rows| - 1;
      WriteBlobs(disk, rows[..n], data[..n])[rows[n].storagePath := data[n]]
  }

  function PathsOf(rows: seq<FileChunk>): set<Path> {
    set i | 0 <= i < |rows| :: rows[i].storagePath
  }

  /** The blobs of the rows, in order, if none is missing. */
  function ReadBlobs(disk: map<Path, Blob>, rows: seq<FileChunk>): Option<seq<Blob>> {
    if rows == [] then Some([])
    else
      var n := |rows| - 1;
      var before := ReadBlobs(disk, rows[..n]);
      if before.Some? && rows[n].storagePath in disk then Some(before.value + [disk[rows[n].storagePath]]) else None
  }

  // ---------- operations ----------

  function PutError(cfg: Config, s: State, bucket: nat, raw: Blob): Option<Error>
    requires cfg.Valid()
  {
    var b := BucketById(s.buckets, bucket);
    if b.Err? then Some(NotFound)
    else if |raw| > cfg.maxFileSize then Some(EntityTooLarge)
    else if OverQuota(b.value, |raw|) then Some(StorageQuota)
    else if cfg.Coded() && raw == [] then Some(NoChunks)
    else None
  }

  function NewFile(cfg: Config, bucket: nat, key: string, raw: Blob, ttl: Option<int>, now: nat, sha256: Hash): FileRow
    requires cfg.Valid()
  {
    FileRow(bucket, key, |raw|, sha256(raw), |StoredData(cfg, raw)|, StorageSize(cfg, |raw|), now,
            if ttl.Some? then Some(now + ttl.value) else None, None)
  }

  function AfterPut(cfg: Config, s: State, bucket: nat, key: string, raw: Blob, ttl: Option<int>, now: nat,
                    sha256: Hash): State
    requires cfg.Valid() && PutError(cfg, s, bucket, raw).None?
  {
    var file := |s.files|;
    var rows := PlacedRows(bucket, file, StoredRows(cfg, raw, sha256));
    var b := s.buckets[bucket];
    s.(files := s.files + [NewFile(cfg, bucket, key, raw, ttl, now, sha256)],
       chunkRows := s.chunkRows + RecordRows(file, rows),
       disk := WriteBlobs(s.disk, rows, StoredData(cfg, raw)),
       buckets := s.buckets[bucket := b.(currentSizeBytes := b.currentSizeBytes + |raw|,
                                         objectCount := b.objectCount + 1)],
       contents := s.contents + [raw],
       clock := now)
  }

  function ClampedLess(x: int, y: int): int {
    if x - y < 0 then 0 else x - y
  }

  function AfterDelete(s: State, bucket: nat, key: string, now: nat): State
    requires Newest(s.files, bucket, key).Some?
  {
    var file := Newest(s.files, bucket, key).value;
    var b := BucketById(s.buckets, bucket);
    s.(disk := s.disk - PathsOf(ListChunks(s.chunkRows, file)),
       files := s.files[file := s.files[file].(deletedAt := Some(now))],
       buckets := if b.Err? then s.buckets
                  else s.buckets[bucket := b.value.(
                    currentSizeBytes := ClampedLess(b.value.currentSizeBytes, s.files[file].size),
                    objectCount := ClampedLess(b.value.objectCount, 1))],
       clock := now)
  }

  function MarkDeleted(files: seq<FileRow>, ids: seq<nat>, now: nat): (r: seq<FileRow>)
    requires forall i :: 0 <= i < |ids| ==> ids[i] < |files|
    ensures |r| == |files|
  {
    seq(|files|, f requires 0 <= f < |files| => if f in ids then files[f].(deletedAt := Some(now)) else files[f])
  }

  function IdSet(ids: seq<nat>): set<nat> {
    set f | f in ids
  }

  function AfterCleanup(s: State, now: nat, ids: seq<nat>): State
    requires forall i :: 0 <= i < |ids| ==> ids[i] < |s.files|
  {
    s.(files := MarkDeleted(s.files, ids, now), reaped := s.reaped + IdSet(ids), clock := now)
  }

  function AfterCreateBucket(s: State, name: string, maxSizeBytes: int, now: nat): State {
    s.(buckets := s.buckets + [Bucket(name, Disabled, maxSizeBytes, 0, 0, None)], clock := now)
  }

  function AfterDeleteBucket(s: State, bucket: nat, now: nat): State
    requires bucket < |s.buckets|
  {
    s.(buckets := s.buckets[bucket := s.buckets[bucket].(deletedAt := Some(now))], clock := now)
  }

  function AfterVersioning(s: State, bucket: nat, versioning: Versioning, now: nat): State
    requires bucket < |s.buckets|
  {
    s.(buckets := s.buckets[bucket := s.buckets[bucket].(versioning := versioning)], clock := now)
  }

  function AfterUploadPart(s: State, upload: nat, number: int, data: Blob): State {
    s.(disk := s.disk[PartPath(upload, number) := data])
  }

  /** A read: the newest or the named version, unless missing, expired, without chunks, or with a blob gone. */
  function GetResult(cfg: Config, s: State, bucket: nat, key: string, version: Option<nat>, now: nat)
      : Result<(nat, Blob)>
  {
    var file := FileByKey(s.files, bucket, key, version);
    if file.None? || Expired(s.files[file.value], now) then Err(NotFound)
    else
      var rows := ListChunks(s.chunkRows, file.value);
      if rows == [] then Err(NotFound)
      else
        var blobs := ReadBlobs(s.disk, rows);
        if blobs.None? then Err(MissingBlob)
        else if cfg.Coded() then Ok((file.value, Reconstruct(cfg.codec, Available(rows, blobs.value))))
        else Ok((file.value, Concat(blobs.value)))
  }
}
