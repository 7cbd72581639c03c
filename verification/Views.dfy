/** What clients see over sequential runs: a stack per key, exact reads, and counters that add up. */
module Views {
  import opened Bytes
  import opened Domain
  import opened Chunking
  import opened Recovery
  import opened Pipeline
  import opened Store
  import opened Tallies
  import opened Invariants
  import opened Preservation
  import Services

  // ---------- the stack of a key ----------

  /** The live files of a key, oldest first. */
  function View(files: seq<FileRow>, bucket: nat, key: string): (stack: seq<nat>)
    ensures forall i :: 0 <= i < |stack| ==> stack[i] < |files| && Matches(files[stack[i]], bucket, key)
  {
    if files == [] then []
    else
      var n := |files| - 1;
      View(files[..n], bucket, key)
      + (if files[n].deletedAt.None? && files[n].bucket == bucket && files[n].key == key then [n] else [])
  }

  function Top(stack: seq<nat>): Option<nat> {
    if stack == [] then None else Some(stack[|stack| - 1])
  }

  function Popped(stack: seq<nat>): seq<nat> {
    if stack == [] then [] else stack[..|stack| - 1]
  }

  function Without(stack: seq<nat>, ids: seq<nat>): seq<nat> {
    if stack == [] then []
    else
      var n := |stack| - 1;
      Without(stack[..n], ids) + (if stack[n] in ids then [] else [stack[n]])
  }

  lemma {:induction false} ViewMembers(files: seq<FileRow>, bucket: nat, key: string)
    ensures forall f :: f in View(files, bucket, key) <==> 0 <= f < |files| && Matches(files[f], bucket, key)
    ensures forall i, j :: 0 <= i < j < |View(files, bucket, key)| ==>
        View(files, bucket, key)[i] < View(files, bucket, key)[j]
  {
    if files != [] {
      var n := |files| - 1;
      ViewMembers(files[..n], bucket, key);
      var stack := View(files[..n], bucket, key);
      assert forall i :: 0 <= i < |stack| ==> stack[i] in stack;
    }
  }

  /** With a strictly increasing clock, ordering by creation time finds the top of the stack. */
  lemma {:induction false} NewestIsTop(files: seq<FileRow>, bucket: nat, key: string)
    requires forall f, g :: 0 <= f < g < |files| ==> files[f].createdAt < files[g].createdAt
    ensures Newest(files, bucket, key) == Top(View(files, bucket, key))
  {
    if files != [] {
      NewestIsTop(files[..|files| - 1], bucket, key);
    }
  }

  lemma ViewPush(files: seq<FileRow>, row: FileRow, bucket: nat, key: string)
    ensures View(files + [row], bucket, key)
        == View(files, bucket, key) + (if Matches(row, bucket, key) then [|files|] else [])
  {
    assert (files + [row])[..|files|] == files;
  }

  lemma {:induction false} ViewMarked(files: seq<FileRow>, files': seq<FileRow>, ids: seq<nat>, bucket: nat, key: string)
    requires |files'| == |files|
    requires forall f :: 0 <= f < |files| && f !in ids ==> files'[f] == files[f]
    requires forall f :: 0 <= f < |files| && f in ids ==> !files'[f].Live()
    ensures View(files', bucket, key) == Without(View(files, bucket, key), ids)
  {
    if files != [] {
      var n := |files| - 1;
      ViewMarked(files[..n], files'[..n], ids, bucket, key);
      var stack := View(files[..n], bucket, key);
      if Matches(files[n], bucket, key) {
        assert (stack + [n])[..|stack|] == stack;
      } else {
        assert stack + [] == stack;
      }
    }
  }

  lemma {:induction false} WithoutAbsent(stack: seq<nat>, ids: seq<nat>)
    requires forall i :: 0 <= i < |stack| ==> stack[i] !in ids
    ensures Without(stack, ids) == stack
  {
    if stack != [] {
      var n := |stack| - 1;
      WithoutAbsent(stack[..n], ids);
      assert stack[..n] + [stack[n]] == stack;
    }
  }

  /** A put pushes on its own key's stack and leaves every other alone. */
  lemma PutPushes(cfg: Config, s: State, bucket: nat, key: string, raw: Blob, ttl: Option<int>, now: nat, sha256: Hash,
                  b: nat, k: string)
    requires cfg.Valid() && PutError(cfg, s, bucket, raw).None?
    ensures View(AfterPut(cfg, s, bucket, key, raw, ttl, now, sha256).files, b, k)
        == View(s.files, b, k) + (if b == bucket && k == key then [|s.files|] else [])
  {
    ViewPush(s.files, NewFile(cfg, bucket, key, raw, ttl, now, sha256), b, k);
  }

  /** Deleting the top of a stack pops it; deleting a file that is not in it changes nothing. */
  lemma WithoutOne(files: seq<FileRow>, f: nat, bucket: nat, key: string)
    ensures
      var stack := View(files, bucket, key);
      && (f !in stack ==> Without(stack, [f]) == stack)
      && (Top(stack) == Some(f) ==> Without(stack, [f]) == Popped(stack))
  {
    var stack := View(files, bucket, key);
    if f !in stack {
      WithoutAbsent(stack, [f]);
    } else if Top(stack) == Some(f) {
      ViewMembers(files, bucket, key);
      WithoutTop(stack, f);
    }
  }

  lemma WithoutTop(stack: seq<nat>, f: nat)
    requires stack != [] && stack[|stack| - 1] == f
    requires forall i, j :: 0 <= i < j < |stack| ==> stack[i] < stack[j]
    ensures Without(stack, [f]) == Popped(stack)
  {
    WithoutAbsent(stack[..|stack| - 1], [f]);
  }

  /** A delete pops its own key's stack and leaves every other alone. */
  lemma DeletePops(s: State, bucket: nat, key: string, now: nat, b: nat, k: string)
    requires ClockOk(s) && Newest(s.files, bucket, key).Some?
    ensures
      var stack := View(s.files, b, k);
      View(AfterDelete(s, bucket, key, now).files, b, k)
        == if b == bucket && k == key then Popped(stack) else stack
  {
    var f := Newest(s.files, bucket, key).value;
    NewestIsTop(s.files, bucket, key);
    ViewMembers(s.files, bucket, key);
    ViewMembers(s.files, b, k);
    ViewMarked(s.files, AfterDelete(s, bucket, key, now).files, [f], b, k);
    WithoutOne(s.files, f, b, k);
  }

  /** Cleanup removes the listed files wherever they stand in a stack. */
  lemma CleanupFilters(s: State, now: nat, ids: seq<nat>, b: nat, k: string)
    requires forall i :: 0 <= i < |ids| ==> ids[i] < |s.files|
    ensures View(AfterCleanup(s, now, ids).files, b, k) == Without(View(s.files, b, k), ids)
  {
    ViewMarked(s.files, AfterCleanup(s, now, ids).files, ids, b, k);
  }

  // ---------- reads ----------

  lemma {:induction false} ReadsWhatIsThere(disk: map<Path, Blob>, rows: seq<FileChunk>, data: seq<Blob>)
    requires |rows| == |data|
    requires forall t :: 0 <= t < |rows| ==> rows[t].storagePath in disk && disk[rows[t].storagePath] == data[t]
    ensures ReadBlobs(disk, rows) == Some(data)
  {
    if rows != [] {
      var n := |rows| - 1;
      ReadsWhatIsThere(disk, rows[..n], data[..n]);
      assert data[..n] + [data[n]] == data;
    }
  }

  lemma {:induction false} AvailableIgnoresPlace(rows: seq<FileChunk>, rows': seq<FileChunk>, data: seq<Blob>, n: nat)
    requires |rows| == |rows'| && n <= |rows|
    requires forall t :: 0 <= t < |rows| ==> rows'[t].chunkIndex == rows[t].chunkIndex
    ensures AvailableUpTo(rows', data, n) == AvailableUpTo(rows, data, n)
  {
    if n > 0 {
      AvailableIgnoresPlace(rows, rows', data, n - 1);
    }
  }

  lemma FileRowsDescribe(cfg: Config, s: State, f: nat, sha256: Hash)
    requires cfg.Valid() && f < |s.files| == |s.contents|
    ensures
      var rows, data := FileRows(cfg, s, f, sha256), StoredData(cfg, s.contents[f]);
      |rows| == |data| && forall t :: 0 <= t < |rows| ==> rows[t].size == |data[t]| && rows[t].checksum == sha256(data[t])
  {
    forall t | 0 <= t < |StoredData(cfg, s.contents[f])|
      ensures FileRows(cfg, s, f, sha256)[t].size == |StoredData(cfg, s.contents[f])[t]|
      ensures FileRows(cfg, s, f, sha256)[t].checksum == sha256(StoredData(cfg, s.contents[f])[t])
    {
      StoredDescribed(cfg, s.contents[f], sha256, t);
    }
  }

  /** The descriptors read back the same wherever they were placed. */
  lemma PlacedReadsBack(cfg: Config, raw: Blob, sha256: Hash, rows: seq<FileChunk>)
    requires cfg.Valid() && |rows| == |StoredData(cfg, raw)|
    requires forall t :: 0 <= t < |rows| ==> rows[t].chunkIndex == StoredRows(cfg, raw, sha256)[t].chunkIndex
    ensures
      var data := StoredData(cfg, raw);
      Retrieved(cfg, raw) == if cfg.Coded() then Reconstruct(cfg.codec, Available(rows, data)) else Concat(data)
  {
    StoredReadsBack(cfg, raw, sha256);
    AvailableIgnoresPlace(StoredRows(cfg, raw, sha256), rows, StoredData(cfg, raw), |rows|);
  }

  /**
   * The chunk rows of a live file are as many as recorded, ascend by index, and give the size and checksum of their
   * blobs; reading them back never misses one and gives what the pipeline gives.
   */
  lemma LiveFileReadsBack(cfg: Config, s: State, f: nat, sha256: Hash)
    requires cfg.Valid() && Inv(cfg, s, sha256) && f < |s.files| && s.files[f].Live()
    ensures ListChunks(s.chunkRows, f) == FileRows(cfg, s, f, sha256)
    ensures |ListChunks(s.chunkRows, f)| == s.files[f].chunkCount && Ascending(ListChunks(s.chunkRows, f))
    ensures
      var rows, data := ListChunks(s.chunkRows, f), StoredData(cfg, s.contents[f]);
      |rows| == |data| && forall t :: 0 <= t < |rows| ==> rows[t].size == |data[t]| && rows[t].checksum == sha256(data[t])
    ensures ReadBlobs(s.disk, ListChunks(s.chunkRows, f)) == Some(StoredData(cfg, s.contents[f]))
    ensures
      var rows, data := ListChunks(s.chunkRows, f), StoredData(cfg, s.contents[f]);
      Retrieved(cfg, s.contents[f])
        == if cfg.Coded() then Reconstruct(cfg.codec, Available(rows, data)) else Concat(data)
  {
    ListingIsWritten(cfg, s, f, sha256);
    FileRowsAscending(cfg, s, f, sha256);
    FileRowsDescribe(cfg, s, f, sha256);
    var rows, raw := FileRows(cfg, s, f, sha256), s.contents[f];
    assert OnDisk(cfg, s, f, sha256);
    ReadsWhatIsThere(s.disk, rows, StoredData(cfg, raw));
    PlacedReadsBack(cfg, raw, sha256, rows);
  }

  /** The file a read should find: the top of the key's stack, or the named version if it is in the stack. */
  function Wanted(files: seq<FileRow>, bucket: nat, key: string, version: Option<nat>): Option<nat> {
    var stack := View(files, bucket, key);
    if version.None? then Top(stack) else if version.value in stack then version else None
  }

  /** What a read should answer for that file. */
  function ReadSpec(cfg: Config, s: State, file: Option<nat>, now: nat): Result<(nat, Blob)>
    requires cfg.Valid()
  {
    if file.None? || file.value >= |s.files| || file.value >= |s.contents| then Err(NotFound)
    else
      var row, raw := s.files[file.value], s.contents[file.value];
      if row.expiresAt.Some? && row.expiresAt.value < now then Err(NotFound)
      else if raw == [] && cfg.codec.parityShards == 0 then Err(NotFound)
      else Ok((file.value, Retrieved(cfg, raw)))
  }

  lemma LookupIsWanted(s: State, bucket: nat, key: string, version: Option<nat>)
    requires ClockOk(s)
    ensures FileByKey(s.files, bucket, key, version) == Wanted(s.files, bucket, key, version)
  {
    NewestIsTop(s.files, bucket, key);
    ViewMembers(s.files, bucket, key);
  }

  /**
   * A read answers with the top of the key's stack, or the named live version, as the pipeline gives it back;
   * not found when there is none, when it has expired, or when nothing was stored for it.
   */
  lemma GetIsExact(cfg: Config, s: State, bucket: nat, key: string, version: Option<nat>, now: nat, sha256: Hash)
    requires cfg.Valid() && Inv(cfg, s, sha256)
    ensures GetResult(cfg, s, bucket, key, version, now)
        == ReadSpec(cfg, s, Wanted(s.files, bucket, key, version), now)
  {
    LookupIsWanted(s, bucket, key, version);
    var file := FileByKey(s.files, bucket, key, version);
    if file.Some? {
      LiveFileReadsBack(cfg, s, file.value, sha256);
      NothingStoredExactly(cfg, s.contents[file.value]);
    }
  }

  /**
   * A read never recovers a lost blob, whatever the parity: when blobs vanish from the disk, it fails exactly for the
   * objects one of whose blobs, data or parity, is among them, and answers as before for all others.
   */
  lemma LostBlobFailsRead(cfg: Config, s: State, bucket: nat, key: string, version: Option<nat>, now: nat, sha256: Hash,
                          lost: set<Path>)
    requires cfg.Valid() && Inv(cfg, s, sha256)
    ensures
      var answer := GetResult(cfg, s, bucket, key, version, now);
      GetResult(cfg, s.(disk := s.disk - lost), bucket, key, version, now)
        == if answer.Ok? && !(PathsOf(ListChunks(s.chunkRows, answer.value.0)) !! lost) then Err(MissingBlob) else answer
  {
    var file := FileByKey(s.files, bucket, key, version);
    if file.Some? {
      LiveFileReadsBack(cfg, s, file.value, sha256);
      ReadsAfterLoss(s.disk, ListChunks(s.chunkRows, file.value), StoredData(cfg, s.contents[file.value]), lost);
    }
  }

  lemma ReadsAfterLoss(disk: map<Path, Blob>, rows: seq<FileChunk>, data: seq<Blob>, lost: set<Path>)
    requires ReadBlobs(disk, rows) == Some(data)
    ensures ReadBlobs(disk - lost, rows) == if PathsOf(rows) !! lost then Some(data) else None
  {
    if PathsOf(rows) !! lost {
      ReadsTheSame(disk, rows, lost);
    } else {
      var p :| p in PathsOf(rows) && p in lost;
      var i :| 0 <= i < |rows| && rows[i].storagePath == p;
      Services.ReadFails(disk - lost, rows, i);
    }
  }

  lemma {:induction false} ReadsTheSame(disk: map<Path, Blob>, rows: seq<FileChunk>, lost: set<Path>)
    requires PathsOf(rows) !! lost
    ensures ReadBlobs(disk - lost, rows) == ReadBlobs(disk, rows)
  {
    if rows != [] {
      var n := |rows| - 1;
      assert rows[n].storagePath in PathsOf(rows);
      assert PathsOf(rows[..n]) <= PathsOf(rows) by {
        assert forall i :: 0 <= i < n ==> rows[..n][i] == rows[i];
      }
      ReadsTheSame(disk, rows[..n], lost);
    }
  }

  /** Stored objects of a coded store always have something to read; uncoded empty ones do not. */
  lemma NothingStoredExactly(cfg: Config, raw: Blob)
    requires cfg.Valid()
    ensures StoredData(cfg, raw) == [] <==> raw == [] && cfg.codec.parityShards == 0
  {
    ChunksNonempty(cfg, raw);
  }

  // ---------- undoing ----------

  lemma PutThenTop(cfg: Config, s: State, bucket: nat, key: string, raw: Blob, ttl: Option<int>, now: nat, sha256: Hash)
    requires cfg.Valid() && Inv(cfg, s, sha256) && PutError(cfg, s, bucket, raw).None? && now > s.clock
    ensures Newest(AfterPut(cfg, s, bucket, key, raw, ttl, now, sha256).files, bucket, key) == Some(|s.files|)
  {
    var s' := AfterPut(cfg, s, bucket, key, raw, ttl, now, sha256);
    PutPushes(cfg, s, bucket, key, raw, ttl, now, sha256, bucket, key);
    PutKeepsInv(cfg, s, bucket, key, raw, ttl, now, sha256);
    NewestIsTop(s'.files, bucket, key);
  }

  /** A nonempty object just put is read back as the pipeline gives it, until it expires. */
  lemma PutThenGet(cfg: Config, s: State, bucket: nat, key: string, raw: Blob, ttl: Option<int>, now: nat, later: nat,
                   sha256: Hash)
    requires cfg.Valid() && Inv(cfg, s, sha256) && PutError(cfg, s, bucket, raw).None? && now > s.clock && raw != []
    ensures GetResult(cfg, AfterPut(cfg, s, bucket, key, raw, ttl, now, sha256), bucket, key, None, later)
        == if ttl.Some? && now + ttl.value < later then Err(NotFound) else Ok((|s.files|, Retrieved(cfg, raw)))
  {
    var s' := AfterPut(cfg, s, bucket, key, raw, ttl, now, sha256);
    PutThenTop(cfg, s, bucket, key, raw, ttl, now, sha256);
    PutKeepsInv(cfg, s, bucket, key, raw, ttl, now, sha256);
    GetIsExact(cfg, s', bucket, key, None, later, sha256);
    LookupIsWanted(s', bucket, key, None);
    NothingStoredExactly(cfg, raw);
    NewestRow(cfg, s, bucket, key, raw, ttl, now, later, sha256);
  }

  lemma NewestRow(cfg: Config, s: State, bucket: nat, key: string, raw: Blob, ttl: Option<int>, now: nat, later: nat,
                  sha256: Hash)
    requires cfg.Valid() && PutError(cfg, s, bucket, raw).None? && |s.contents| == |s.files|
    ensures
      var s' := AfterPut(cfg, s, bucket, key, raw, ttl, now, sha256);
      && |s'.files| == |s'.contents| == |s.files| + 1 && s'.contents[|s.files|] == raw
      && (Expired(s'.files[|s.files|], later) <==> ttl.Some? && now + ttl.value < later)
  {
  }

  lemma PathsOfPlaced(cfg: Config, bucket: nat, n: nat, raw: Blob, sha256: Hash)
    requires cfg.Valid()
    ensures forall p :: p in PathsOf(PlacedRows(bucket, n, StoredRows(cfg, raw, sha256))) ==> p.ObjectPath? && p.file == n
  {
  }

  /** Put followed by delete restores every key's stack, the bucket rows with their counters, and the disk. */
  lemma PutThenDeleteRestores(cfg: Config, s: State, bucket: nat, key: string, raw: Blob, ttl: Option<int>, now: nat,
                              later: nat, sha256: Hash)
    requires cfg.Valid() && Inv(cfg, s, sha256) && PutError(cfg, s, bucket, raw).None? && s.clock < now < later
    ensures
      var middle := AfterPut(cfg, s, bucket, key, raw, ttl, now, sha256);
      && Newest(middle.files, bucket, key) == Some(|s.files|)
      && var after := AfterDelete(middle, bucket, key, later);
      && after.buckets == s.buckets
      && after.disk == s.disk
      && forall b, k :: View(after.files, b, k) == View(s.files, b, k)
  {
    PutThenTop(cfg, s, bucket, key, raw, ttl, now, sha256);
    PutThenDeleteDisk(cfg, s, bucket, key, raw, ttl, now, sha256);
    PutThenDeleteBuckets(cfg, s, bucket, key, raw, ttl, now, later, sha256);
    var middle := AfterPut(cfg, s, bucket, key, raw, ttl, now, sha256);
    forall b, k
      ensures View(AfterDelete(middle, bucket, key, later).files, b, k) == View(s.files, b, k)
    {
      PutThenDeleteView(cfg, s, bucket, key, raw, ttl, now, later, sha256, b, k);
    }
  }

  lemma PutThenDeleteBuckets(cfg: Config, s: State, bucket: nat, key: string, raw: Blob, ttl: Option<int>, now: nat,
                             later: nat, sha256: Hash)
    requires cfg.Valid() && Inv(cfg, s, sha256) && PutError(cfg, s, bucket, raw).None?
    requires Newest(AfterPut(cfg, s, bucket, key, raw, ttl, now, sha256).files, bucket, key) == Some(|s.files|)
    ensures AfterDelete(AfterPut(cfg, s, bucket, key, raw, ttl, now, sha256), bucket, key, later).buckets == s.buckets
  {
    CountersNonnegative(s, bucket);
    var middle := AfterPut(cfg, s, bucket, key, raw, ttl, now, sha256);
    var b := middle.buckets[bucket];
    assert b.(currentSizeBytes := ClampedLess(b.currentSizeBytes, |raw|), objectCount := ClampedLess(b.objectCount, 1))
        == s.buckets[bucket];
  }

  lemma PutThenDeleteView(cfg: Config, s: State, bucket: nat, key: string, raw: Blob, ttl: Option<int>, now: nat,
                          later: nat, sha256: Hash, b: nat, k: string)
    requires cfg.Valid() && Inv(cfg, s, sha256) && PutError(cfg, s, bucket, raw).None? && now > s.clock
    requires Newest(AfterPut(cfg, s, bucket, key, raw, ttl, now, sha256).files, bucket, key).Some?
    ensures View(AfterDelete(AfterPut(cfg, s, bucket, key, raw, ttl, now, sha256), bucket, key, later).files, b, k)
        == View(s.files, b, k)
  {
    var middle := AfterPut(cfg, s, bucket, key, raw, ttl, now, sha256);
    PutKeepsInv(cfg, s, bucket, key, raw, ttl, now, sha256);
    PutPushes(cfg, s, bucket, key, raw, ttl, now, sha256, b, k);
    DeletePops(middle, bucket, key, later, b, k);
  }

  lemma CountersNonnegative(s: State, bucket: nat)
    requires CountersOk(s) && bucket < |s.buckets|
    ensures s.buckets[bucket].currentSizeBytes >= 0 && s.buckets[bucket].objectCount >= 0
  {
    assert Recorded(Measure.Bytes, s.buckets[bucket]) == Tally(Measure.Bytes, s.files, Accounted(s), bucket);
    assert Recorded(Objects, s.buckets[bucket]) == Tally(Objects, s.files, Accounted(s), bucket);
  }

  lemma PutThenDeleteDisk(cfg: Config, s: State, bucket: nat, key: string, raw: Blob, ttl: Option<int>, now: nat,
                          sha256: Hash)
    requires cfg.Valid() && Inv(cfg, s, sha256) && PutError(cfg, s, bucket, raw).None? && now > s.clock
    ensures
      var middle := AfterPut(cfg, s, bucket, key, raw, ttl, now, sha256);
      middle.disk - PathsOf(ListChunks(middle.chunkRows, |s.files|)) == s.disk
  {
    var middle := AfterPut(cfg, s, bucket, key, raw, ttl, now, sha256);
    var n := |s.files|;
    PutKeepsInv(cfg, s, bucket, key, raw, ttl, now, sha256);
    ListingIsWritten(cfg, middle, n, sha256);
    assert FileRows(cfg, middle, n, sha256) == PlacedRows(bucket, n, StoredRows(cfg, raw, sha256));
    WrittenThenErased(cfg, s.disk, bucket, n, raw, sha256);
  }

  lemma WrittenThenErased(cfg: Config, disk: map<Path, Blob>, bucket: nat, n: nat, raw: Blob, sha256: Hash)
    requires cfg.Valid() && forall p :: p in disk && p.ObjectPath? ==> p.file < n
    ensures
      var rows := PlacedRows(bucket, n, StoredRows(cfg, raw, sha256));
      WriteBlobs(disk, rows, StoredData(cfg, raw)) - PathsOf(rows) == disk
  {
    var rows := PlacedRows(bucket, n, StoredRows(cfg, raw, sha256));
    var written := WriteBlobs(disk, rows, StoredData(cfg, raw));
    PutDisk(cfg, disk, bucket, n, raw, sha256);
    PathsOfPlaced(cfg, bucket, n, raw, sha256);
    forall p | p in disk
      ensures p in written && p !in PathsOf(rows) && written[p] == disk[p]
    {
      assert p.ObjectPath? ==> p.file != n;
    }
    assert (written - PathsOf(rows)).Keys == disk.Keys;
  }

  // ---------- runs ----------

  /** In every reachable state the cached counters are the live amounts plus what the cleanup job removed. */
  lemma CountersAddUp(cfg: Config, states: seq<State>, ops: seq<Op>, sha256: Hash, i: nat, bucket: nat, m: Measure)
    requires cfg.Valid() && Run(cfg, states, ops, sha256) && i <= |ops| && bucket < |states[i].buckets|
    ensures
      var s := states[i];
      && Recorded(m, s.buckets[bucket])
         == Tally(m, s.files, LiveIds(s.files), bucket) + Tally(m, s.files, s.reaped, bucket)
      && (s.buckets[bucket].maxSizeBytes > 0 ==>
            Tally(Measure.Bytes, s.files, LiveIds(s.files), bucket) <= s.buckets[bucket].currentSizeBytes
              <= s.buckets[bucket].maxSizeBytes)
  {
    var s := states[i];
    RunKeepsInv(cfg, states, ops, sha256, i);
    TallySplit(m, s.files, LiveIds(s.files), s.reaped, bucket);
    TallySplit(Measure.Bytes, s.files, LiveIds(s.files), s.reaped, bucket);
    assert Recorded(m, s.buckets[bucket]) == Tally(m, s.files, Accounted(s), bucket);
    assert Recorded(Measure.Bytes, s.buckets[bucket]) == Tally(Measure.Bytes, s.files, Accounted(s), bucket);
  }

  /** The clamps at zero in delete never take effect in a sequential run. */
  lemma ClampsNeverFire(cfg: Config, states: seq<State>, ops: seq<Op>, sha256: Hash, i: nat, bucket: nat, key: string)
    requires cfg.Valid() && Run(cfg, states, ops, sha256) && i <= |ops|
    requires Newest(states[i].files, bucket, key).Some?
    ensures
      var s := states[i];
      && BucketById(s.buckets, bucket).Ok?
      && s.buckets[bucket].currentSizeBytes >= s.files[Newest(s.files, bucket, key).value].size
      && s.buckets[bucket].objectCount >= 1
  {
    var s := states[i];
    RunKeepsInv(cfg, states, ops, sha256, i);
    var f := Newest(s.files, bucket, key).value;
    DeleteDoesNotClamp(s, f, Measure.Bytes);
    DeleteDoesNotClamp(s, f, Objects);
  }

  /** In every reachable state a live file's bucket is live and no two live buckets share a name. */
  lemma BucketsStaySound(cfg: Config, states: seq<State>, ops: seq<Op>, sha256: Hash, i: nat)
    requires cfg.Valid() && Run(cfg, states, ops, sha256) && i <= |ops|
    ensures BucketsOk(states[i])
  {
    RunKeepsInv(cfg, states, ops, sha256, i);
  }

  /** In every reachable state every read answers as specified, and none misses a blob. */
  lemma ReadsStayExact(cfg: Config, states: seq<State>, ops: seq<Op>, sha256: Hash, i: nat, bucket: nat, key: string,
                       version: Option<nat>, now: nat)
    requires cfg.Valid() && Run(cfg, states, ops, sha256) && i <= |ops|
    ensures GetResult(cfg, states[i], bucket, key, version, now)
        == ReadSpec(cfg, states[i], Wanted(states[i].files, bucket, key, version), now)
    ensures GetResult(cfg, states[i], bucket, key, version, now) != Err(MissingBlob)
  {
    RunKeepsInv(cfg, states, ops, sha256, i);
    GetIsExact(cfg, states[i], bucket, key, version, now, sha256);
  }
}
