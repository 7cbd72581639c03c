/** What requests answer and do, in terms of the rows and of earlier requests. */
module Answers {
  import opened Bytes
  import opened Domain
  import opened Pipeline
  import opened Store
  import opened Repositories
  import opened Tallies
  import opened Invariants
  import opened Preservation
  import opened Views
  import Services

  // ---------- put ----------

  /** An accepted put appends the object's row and adds it to its bucket's counters; no other row changes. */
  lemma PutExactly(cfg: Config, s: State, bucket: nat, key: string, raw: Blob, ttl: Option<int>, now: nat, sha256: Hash)
    requires cfg.Valid() && PutError(cfg, s, bucket, raw).None?
    ensures
      var s' := AfterPut(cfg, s, bucket, key, raw, ttl, now, sha256);
      && |s'.files| == |s.files| + 1 && s'.files[..|s.files|] == s.files
      && var row := s'.files[|s.files|];
      && row.bucket == bucket && row.key == key && row.size == |raw| && row.checksum == sha256(raw)
      && row.createdAt == now && row.deletedAt.None?
      && row.expiresAt == (if ttl.Some? then Some(now + ttl.value) else None)
      && row.chunkCount == |s'.chunkRows| - |s.chunkRows|
    ensures
      var s' := AfterPut(cfg, s, bucket, key, raw, ttl, now, sha256);
      && |s'.buckets| == |s.buckets| && (forall b :: 0 <= b < |s.buckets| && b != bucket ==> s'.buckets[b] == s.buckets[b])
      && var was := s.buckets[bucket];
      s'.buckets[bucket]
        == was.(currentSizeBytes := was.currentSizeBytes + |raw|, objectCount := was.objectCount + 1)
  {
  }

  /** Each chunk row a put adds names a path made of bucket, file and chunk number, where its blob is. */
  lemma PutStores(cfg: Config, s: State, bucket: nat, key: string, raw: Blob, ttl: Option<int>, now: nat, sha256: Hash,
                  c: nat)
    requires cfg.Valid() && PutError(cfg, s, bucket, raw).None? && c < |StoredData(cfg, raw)|
    ensures
      var s' := AfterPut(cfg, s, bucket, key, raw, ttl, now, sha256);
      && |s'.chunkRows| == |s.chunkRows| + |StoredData(cfg, raw)| && s'.chunkRows[..|s.chunkRows|] == s.chunkRows
      && var row := s'.chunkRows[|s.chunkRows| + c];
      && row.file == |s.files| && row.chunk.storagePath == ObjectPath(bucket, |s.files|, row.chunk.chunkIndex)
      && row.chunk.storagePath in s'.disk
      && |s'.disk[row.chunk.storagePath]| == row.chunk.size
      && sha256(s'.disk[row.chunk.storagePath]) == row.chunk.checksum
  {
    PutDisk(cfg, s.disk, bucket, |s.files|, raw, sha256);
    StoredDescribed(cfg, raw, sha256, c);
  }

  /**
   * In every run, whether the quota turns a put down depends on the live and the cleaned bytes of the bucket, and on
   * nothing else.
   */
  lemma QuotaAnswer(cfg: Config, states: seq<State>, ops: seq<Op>, sha256: Hash, i: nat, bucket: nat, raw: Blob)
    requires cfg.Valid() && Run(cfg, states, ops, sha256) && i <= |ops|
    requires bucket < |states[i].buckets| && states[i].buckets[bucket].deletedAt.None?
    ensures
      var s := states[i];
      var kept := Tally(Measure.Bytes, s.files, LiveIds(s.files), bucket) + Tally(Measure.Bytes, s.files, s.reaped, bucket);
      var max := s.buckets[bucket].maxSizeBytes;
      && (PutError(cfg, s, bucket, raw) == Some(EntityTooLarge) <==> |raw| > cfg.maxFileSize)
      && (PutError(cfg, s, bucket, raw) == Some(StorageQuota)
          <==> |raw| <= cfg.maxFileSize && max > 0 && kept + |raw| > max)
  {
    CountersAddUp(cfg, states, ops, sha256, i, bucket, Measure.Bytes);
  }

  // ---------- delete ----------

  lemma {:induction false} RowsOfExactly(chunkRows: seq<ChunkRow>, file: nat, c: FileChunk)
    ensures c in RowsOf(chunkRows, file) <==> exists i :: 0 <= i < |chunkRows| && chunkRows[i] == ChunkRow(file, c)
  {
    if chunkRows != [] {
      var n := |chunkRows| - 1;
      RowsOfExactly(chunkRows[..n], file, c);
      assert forall i :: 0 <= i < n ==> chunkRows[..n][i] == chunkRows[i];
    }
  }

  lemma ListedExactly(chunkRows: seq<ChunkRow>, file: nat, c: FileChunk)
    ensures c in ListChunks(chunkRows, file) <==> exists i :: 0 <= i < |chunkRows| && chunkRows[i] == ChunkRow(file, c)
  {
    SortSorts(RowsOf(chunkRows, file));
    RowsOfExactly(chunkRows, file, c);
    assert c in ListChunks(chunkRows, file) <==> c in multiset(ListChunks(chunkRows, file));
    assert c in RowsOf(chunkRows, file) <==> c in multiset(RowsOf(chunkRows, file));
  }

  predicate NamedBy(chunkRows: seq<ChunkRow>, file: nat, p: Path, i: nat) {
    i < |chunkRows| && chunkRows[i].file == file && chunkRows[i].chunk.storagePath == p
  }

  /** The paths erased with a file are exactly those its chunk rows name. */
  lemma PathsExactly(chunkRows: seq<ChunkRow>, file: nat, p: Path)
    ensures p in PathsOf(ListChunks(chunkRows, file)) <==> exists i: nat :: NamedBy(chunkRows, file, p, i)
  {
    var rows := ListChunks(chunkRows, file);
    if p in PathsOf(rows) {
      var t :| 0 <= t < |rows| && rows[t].storagePath == p;
      ListedExactly(chunkRows, file, rows[t]);
      var i :| 0 <= i < |chunkRows| && chunkRows[i] == ChunkRow(file, rows[t]);
      assert NamedBy(chunkRows, file, p, i);
    }
    if i: nat :| NamedBy(chunkRows, file, p, i) {
      ListedExactly(chunkRows, file, chunkRows[i].chunk);
      assert chunkRows[i] == ChunkRow(file, chunkRows[i].chunk);
      var t :| 0 <= t < |rows| && rows[t] == chunkRows[i].chunk;
    }
  }

  /** A delete marks one row, erases exactly the blobs its chunk rows name, and lowers its bucket's counters to at least 0. */
  lemma DeleteExactly(s: State, bucket: nat, key: string, now: nat, p: Path)
    requires Newest(s.files, bucket, key).Some?
    ensures
      var s', f := AfterDelete(s, bucket, key, now), Newest(s.files, bucket, key).value;
      && |s'.files| == |s.files| && (forall g :: 0 <= g < |s.files| && g != f ==> s'.files[g] == s.files[g])
      && s'.files[f] == s.files[f].(deletedAt := Some(now))
      && (p in s'.disk <==> p in s.disk && !exists i: nat :: NamedBy(s.chunkRows, f, p, i))
      && (p in s'.disk ==> s'.disk[p] == s.disk[p])
    ensures
      var s', f := AfterDelete(s, bucket, key, now), Newest(s.files, bucket, key).value;
      && |s'.buckets| == |s.buckets| && (forall b :: 0 <= b < |s.buckets| && b != bucket ==> s'.buckets[b] == s.buckets[b])
      && (bucket < |s.buckets| ==>
            var was := s.buckets[bucket];
            var size, count := was.currentSizeBytes - s.files[f].size, was.objectCount - 1;
            s'.buckets[bucket]
              == if was.deletedAt.Some? then was
                 else was.(currentSizeBytes := if size < 0 then 0 else size, objectCount := if count < 0 then 0 else count))
  {
    PathsExactly(s.chunkRows, Newest(s.files, bucket, key).value, p);
  }

  // ---------- cleanup ----------

  /** An operation keeps what a row says, but for its deletion mark. */
  lemma RowStays(cfg: Config, s: State, op: Op, sha256: Hash, f: nat)
    requires cfg.Valid() && Allowed(s, op) && f < |s.files|
    ensures
      var s' := Apply(cfg, s, op, sha256);
      f < |s'.files| && s'.files[f] == s.files[f].(deletedAt := s'.files[f].deletedAt)
  {
  }

  /** The row describes the object of this request: its bucket and key, its time, and its expiry date if it has one. */
  predicate MadeBy(row: FileRow, op: Op) {
    && (op.Put? || op.Complete?)
    && row.bucket == op.bucket && row.key == op.key && row.createdAt == op.now
    && row.expiresAt == if op.Put? && op.ttl.Some? then Some(op.now + op.ttl.value) else None
  }

  lemma NewRowIsMade(cfg: Config, s: State, op: Op, sha256: Hash)
    requires cfg.Valid() && Allowed(s, op) && |Apply(cfg, s, op, sha256).files| > |s.files|
    ensures |Apply(cfg, s, op, sha256).files| == |s.files| + 1
    ensures MadeBy(Apply(cfg, s, op, sha256).files[|s.files|], op)
  {
  }

  lemma RowKeepsMaker(cfg: Config, states: seq<State>, ops: seq<Op>, sha256: Hash, i: nat, f: nat)
    requires cfg.Valid() && Run(cfg, states, ops, sha256) && 0 < i <= |ops| && f < |states[i].files|
    ensures f < |states[i - 1].files| ==>
        forall op :: MadeBy(states[i - 1].files[f], op) ==> MadeBy(states[i].files[f], op)
    ensures f >= |states[i - 1].files| ==> f == |states[i - 1].files| && MadeBy(states[i].files[f], ops[i - 1])
  {
    var s, op := states[i - 1], ops[i - 1];
    assert Allowed(s, op) && states[i] == Apply(cfg, s, op, sha256);
    if f < |s.files| {
      RowStays(cfg, s, op, sha256, f);
    } else {
      NewRowIsMade(cfg, s, op, sha256);
    }
  }

  /** Every row of every reachable state was made by the request that found it to be the next. */
  lemma {:induction false} PutBy(cfg: Config, states: seq<State>, ops: seq<Op>, sha256: Hash, i: nat, f: nat) returns (j: nat)
    requires cfg.Valid() && Run(cfg, states, ops, sha256) && i <= |ops| && f < |states[i].files|
    ensures j < i && |states[j].files| == f && MadeBy(states[i].files[f], ops[j])
  {
    if f < |states[i - 1].files| {
      j := PutBy(cfg, states, ops, sha256, i - 1, f);
    } else {
      j := i - 1;
    }
    RowKeepsMaker(cfg, states, ops, sha256, i, f);
  }

  /** What the cleanup job removes was put to expire before. */
  lemma RemovedWasDue(cfg: Config, states: seq<State>, ops: seq<Op>, sha256: Hash, i: nat, f: nat) returns (j: nat)
    requires cfg.Valid() && Run(cfg, states, ops, sha256) && i < |ops| && ops[i].Cleanup?
    requires f < |states[i].files| && states[i].files[f].deletedAt.None?
    requires f < |states[i + 1].files| && states[i + 1].files[f].deletedAt.Some?
    ensures j < i && |states[j].files| == f && ops[j].Put? && ops[j].ttl.Some?
    ensures ops[j].now + ops[j].ttl.value < ops[i].now
  {
    j := PutBy(cfg, states, ops, sha256, i, f);
    assert states[i + 1] == Apply(cfg, states[i], ops[i], sha256) && Allowed(states[i], ops[i]);
  }

  /** A cleanup that finds fewer than 1000 rows removes every live row past its expiry date, and no other. */
  lemma CleanupExactly(cfg: Config, states: seq<State>, ops: seq<Op>, sha256: Hash, i: nat, f: nat)
    requires cfg.Valid() && Run(cfg, states, ops, sha256) && i < |ops| && ops[i].Cleanup? && |ops[i].ids| < 1000
    requires f < |states[i].files| && states[i].files[f].deletedAt.None?
    ensures f < |states[i + 1].files|
    ensures
      var row := states[i].files[f];
      states[i + 1].files[f].deletedAt.Some? <==> row.expiresAt.Some? && row.expiresAt.value < ops[i].now
  {
    assert states[i + 1] == Apply(cfg, states[i], ops[i], sha256) && Allowed(states[i], ops[i]);
  }

  lemma {:induction false} WithoutMembers(stack: seq<nat>, ids: seq<nat>, f: nat)
    ensures f in Without(stack, ids) <==> f in stack && f !in ids
  {
    if stack != [] {
      var n := |stack| - 1;
      WithoutMembers(stack[..n], ids, f);
    }
  }

  lemma WantedStays(s: State, now: nat, ids: seq<nat>, bucket: nat, key: string, version: Option<nat>)
    requires forall i :: 0 <= i < |ids| ==> ids[i] < |s.files|
    requires Wanted(s.files, bucket, key, version).Some? && Wanted(s.files, bucket, key, version).value !in ids
    ensures Wanted(AfterCleanup(s, now, ids).files, bucket, key, version) == Wanted(s.files, bucket, key, version)
  {
    CleanupFilters(s, now, ids, bucket, key);
    WithoutMembers(View(s.files, bucket, key), ids, Wanted(s.files, bucket, key, version).value);
  }

  /** A read that answers, answers the same after a cleanup: only objects it would not give any more are removed. */
  lemma ReadsSurviveCleanup(cfg: Config, states: seq<State>, ops: seq<Op>, sha256: Hash, i: nat, bucket: nat, key: string,
                            version: Option<nat>, now: nat)
    requires cfg.Valid() && Run(cfg, states, ops, sha256) && i < |ops| && ops[i].Cleanup? && now >= ops[i].now
    requires GetResult(cfg, states[i], bucket, key, version, now).Ok?
    ensures GetResult(cfg, states[i + 1], bucket, key, version, now) == GetResult(cfg, states[i], bucket, key, version, now)
  {
    var s, s', ids := states[i], states[i + 1], ops[i].ids;
    assert s' == Apply(cfg, s, ops[i], sha256) && Allowed(s, ops[i]);
    ReadsStayExact(cfg, states, ops, sha256, i, bucket, key, version, now);
    ReadsStayExact(cfg, states, ops, sha256, i + 1, bucket, key, version, now);
    assert Wanted(s.files, bucket, key, version).value !in ids;
    WantedStays(s, ops[i].now, ids, bucket, key, version);
  }

  // ---------- buckets ----------

  /** A live bucket can be deleted exactly when it has no object under any key; it is not found any more then. */
  lemma DeleteBucketExactly(s: State, bucket: nat, now: nat)
    requires bucket < |s.buckets| && s.buckets[bucket].deletedAt.None?
    ensures Services.DeleteBucketError(s, bucket).None? <==> forall key :: View(s.files, bucket, key) == []
    ensures Services.DeleteBucketError(s, bucket).Some? ==> Services.DeleteBucketError(s, bucket) == Some(InvalidInput)
    ensures BucketById(AfterDeleteBucket(s, bucket, now).buckets, bucket) == Err(NotFound)
    ensures forall b: nat :: b != bucket ==>
        BucketById(AfterDeleteBucket(s, bucket, now).buckets, b) == BucketById(s.buckets, b)
  {
    LiveCountZero(s.files, bucket);
    if forall key :: View(s.files, bucket, key) == [] {
      forall f | 0 <= f < |s.files| && s.files[f].Live()
        ensures s.files[f].bucket != bucket
      {
        ViewMembers(s.files, bucket, s.files[f].key);
      }
    } else {
      var key :| View(s.files, bucket, key) != [];
      ViewMembers(s.files, bucket, key);
      var f := View(s.files, bucket, key)[0];
      assert f in View(s.files, bucket, key);
    }
  }
}
