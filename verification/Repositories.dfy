/** The bucket, file and chunk tables and the disk, updated in place. */
module Repositories {
  import opened Bytes
  import opened Domain
  import opened Store
  import opened Tallies

  class Database {
    var buckets: seq<Bucket>
    var files: seq<FileRow>
    var chunkRows: seq<ChunkRow>
    var clock: nat
    ghost var contents: seq<Blob>
    ghost var reaped: set<nat>

    constructor ()
      ensures buckets == [] && files == [] && chunkRows == [] && clock == 0 && contents == [] && reaped == {}
    {
      buckets, files, chunkRows, clock, contents, reaped := [], [], [], 0, [], {};
    }

    // ---------- buckets ----------

    method CreateBucket(bucket: Bucket) returns (id: nat)
      modifies this`buckets
      ensures id == |old(buckets)| && buckets == old(buckets) + [bucket]
    {
      id := |buckets|;
      buckets := buckets + [bucket];
    }

    method GetBucketByName(name: string) returns (r: Result<nat>)
      ensures r == if LiveBucketNamed(buckets, name).Some? then Ok(LiveBucketNamed(buckets, name).value) else Err(NotFound)
      ensures r.Ok? ==>
          r.value < |buckets| && buckets[r.value].name == name && buckets[r.value].deletedAt.None?
      ensures r.Err? ==>
          r == Err(NotFound) && forall b :: 0 <= b < |buckets| && buckets[b].name == name ==> buckets[b].deletedAt.Some?
    {
      for i := 0 to |buckets|
        invariant LiveBucketNamed(buckets[..i], name) == None
      {
        assert buckets[..i + 1][..i] == buckets[..i];
        if buckets[i].name == name && buckets[i].deletedAt.None? {
          FoundBucket(buckets, name, i);
          return Ok(i);
        }
      }
      assert buckets[..|buckets|] == buckets;
      NameFoundExactly(buckets, name);
      r := Err(NotFound);
    }

    /** Writes the whole snapshot back, if the bucket is still there. */
    method UpdateBucket(id: nat, snapshot: Bucket) returns (r: Result<()>)
      modifies this`buckets
      ensures r == if BucketById(old(buckets), id).Err? then Err(NotFound) else Ok(())
      ensures buckets == UpdatedBuckets(old(buckets), id, snapshot)
      ensures r.Ok? <==> id < |old(buckets)| && old(buckets)[id].deletedAt.None?
      ensures r.Ok? ==> buckets == old(buckets)[id := old(buckets)[id].(
                versioning := snapshot.versioning, maxSizeBytes := snapshot.maxSizeBytes,
                currentSizeBytes := snapshot.currentSizeBytes, objectCount := snapshot.objectCount)]
    {
      if id < |buckets| && buckets[id].deletedAt.None? {
        buckets := buckets[id := buckets[id].(
          versioning := snapshot.versioning, maxSizeBytes := snapshot.maxSizeBytes,
          currentSizeBytes := snapshot.currentSizeBytes, objectCount := snapshot.objectCount)];
        r := Ok(());
      } else {
        r := Err(NotFound);
      }
    }

    method SoftDeleteBucket(id: nat, now: nat) returns (r: Result<()>)
      modifies this`buckets
      ensures !(id < |old(buckets)| && old(buckets)[id].deletedAt.None?) ==> r == Err(NotFound) && buckets == old(buckets)
      ensures id < |old(buckets)| && old(buckets)[id].deletedAt.None? ==>
          r == Ok(()) && buckets == old(buckets)[id := old(buckets)[id].(deletedAt := Some(now))]
    {
      if id < |buckets| && buckets[id].deletedAt.None? {
        buckets := buckets[id := buckets[id].(deletedAt := Some(now))];
        r := Ok(());
      } else {
        r := Err(NotFound);
      }
    }

    // ---------- files ----------

    method CreateFile(row: FileRow, ghost raw: Blob) returns (id: nat)
      modifies this`files, this`contents
      ensures id == |old(files)| && files == old(files) + [row] && contents == old(contents) + [raw]
    {
      id := |files|;
      files := files + [row];
      contents := contents + [raw];
    }

    method GetFileByKey(bucket: nat, key: string, version: Option<nat>) returns (r: Result<nat>)
      ensures r == if FileByKey(files, bucket, key, version).Some? then Ok(FileByKey(files, bucket, key, version).value)
                   else Err(NotFound)
    {
      if version.Some? {
        if version.value < |files| && Matches(files[version.value], bucket, key) {
          return Ok(version.value);
        }
        return Err(NotFound);
      }
      var best: Option<nat> := None;
      for i := 0 to |files|
        invariant best == Newest(files[..i], bucket, key)
      {
        assert files[..i + 1][..i] == files[..i];
        if Matches(files[i], bucket, key) && (best.None? || files[best.value].createdAt < files[i].createdAt) {
          best := Some(i);
        }
      }
      assert files[..|files|] == files;
      r := if best.Some? then Ok(best.value) else Err(NotFound);
    }

    /** A row goes from live to deleted at most once: a second attempt finds nothing to update. */
    method SoftDeleteFile(id: nat, now: nat) returns (r: Result<()>)
      modifies this`files
      ensures id < |old(files)| && old(files)[id].deletedAt.None? ==>
          r == Ok(()) && files == old(files)[id := old(files)[id].(deletedAt := Some(now))]
      ensures !(id < |old(files)| && old(files)[id].deletedAt.None?) ==> r == Err(NotFound) && files == old(files)
    {
      if id < |files| && files[id].Live() {
        files := files[id := files[id].(deletedAt := Some(now))];
        r := Ok(());
      } else {
        r := Err(NotFound);
      }
    }

    method CountByBucket(bucket: nat) returns (count: nat)
      ensures count == LiveCount(files, bucket)
      ensures count == |LiveInBucket(files, bucket)|
    {
      count := 0;
      for i := 0 to |files|
        invariant count == LiveCount(files[..i], bucket)
      {
        assert files[..i + 1][..i] == files[..i];
        if files[i].Live() && files[i].bucket == bucket {
          count := count + 1;
        }
      }
      assert files[..|files|] == files;
      LiveCountCounts(files, bucket);
    }

    method ListExpired(now: nat, limit: nat) returns (ids: seq<nat>)
      ensures ExpiredListing(files, now, limit, ids)
      ensures |ids| <= limit && forall i, j :: 0 <= i < j < |ids| ==> ids[i] != ids[j]
      ensures forall f :: f in ids ==> f < |files| && PastDeadline(files[f], now)
      ensures |ids| < limit ==> forall f: nat :: f < |files| && PastDeadline(files[f], now) ==> f in ids
    {
      ids := [];
      var f := 0;
      while f < |files| && |ids| < limit
        invariant f <= |files|
        invariant forall i :: 0 <= i < |ids| ==> ids[i] < f && files[ids[i]].Live() && Expired(files[ids[i]], now)
        invariant forall i, j :: 0 <= i < j < |ids| ==> ids[i] != ids[j]
        invariant |ids| <= limit
        invariant forall g: nat :: g < f && files[g].Live() && Expired(files[g], now) ==> g in ids
      {
        if files[f].Live() && Expired(files[f], now) {
          ids := ids + [f];
        }
        f := f + 1;
      }
    }

    // ---------- chunk rows ----------

    method CreateChunk(file: nat, chunk: FileChunk)
      modifies this`chunkRows
      ensures chunkRows == old(chunkRows) + [ChunkRow(file, chunk)]
    {
      chunkRows := chunkRows + [ChunkRow(file, chunk)];
    }

    method ListChunksOf(file: nat) returns (rows: seq<FileChunk>)
      ensures rows == ListChunks(chunkRows, file)
    {
      rows := [];
      for i := 0 to |chunkRows|
        invariant rows == ListChunks(chunkRows[..i], file)
      {
        RowsNext(chunkRows, file, i);
        if chunkRows[i].file == file {
          SortNext(RowsOf(chunkRows[..i], file), chunkRows[i].chunk);
          rows := InsertByIndex(rows, chunkRows[i].chunk);
        }
      }
      assert chunkRows[..|chunkRows|] == chunkRows;
    }
  }

  predicate Sorted(rows: seq<FileChunk>) {
    forall s, t :: 0 <= s < t < |rows| ==> rows[s].chunkIndex <= rows[t].chunkIndex
  }

  lemma {:induction false} InsertKeeps(rows: seq<FileChunk>, c: FileChunk)
    ensures multiset(InsertByIndex(rows, c)) == multiset(rows) + multiset{c}
  {
    if rows != [] && rows[|rows| - 1].chunkIndex > c.chunkIndex {
      var n := |rows| - 1;
      InsertKeeps(rows[..n], c);
      assert rows == rows[..n] + [rows[n]];
    }
  }

  predicate UpTo(rows: seq<FileChunk>, last: int) {
    forall s :: 0 <= s < |rows| ==> rows[s].chunkIndex <= last
  }

  lemma {:induction false} InsertedUpTo(rows: seq<FileChunk>, c: FileChunk, last: int)
    requires UpTo(rows, last) && c.chunkIndex <= last
    ensures UpTo(InsertByIndex(rows, c), last)
  {
    if rows != [] {
      InsertedUpTo(rows[..|rows| - 1], c, last);
    }
  }

  lemma {:induction false} InsertSorts(rows: seq<FileChunk>, c: FileChunk)
    requires Sorted(rows)
    ensures Sorted(InsertByIndex(rows, c))
  {
    if rows != [] && rows[|rows| - 1].chunkIndex > c.chunkIndex {
      var n := |rows| - 1;
      InsertSorts(rows[..n], c);
      InsertedUpTo(rows[..n], c, rows[n].chunkIndex);
    }
  }

  /** The listing is a permutation in ascending order. */
  lemma {:induction false} SortSorts(rows: seq<FileChunk>)
    ensures Sorted(SortByIndex(rows)) && multiset(SortByIndex(rows)) == multiset(rows)
  {
    if rows != [] {
      var n := |rows| - 1;
      SortSorts(rows[..n]);
      InsertSorts(SortByIndex(rows[..n]), rows[n]);
      InsertKeeps(SortByIndex(rows[..n]), rows[n]);
      assert rows == rows[..n] + [rows[n]];
    }
  }

  lemma FoundBucket(buckets: seq<Bucket>, name: string, i: nat)
    requires i < |buckets| && LiveBucketNamed(buckets[..i], name) == None
    requires buckets[i].name == name && buckets[i].deletedAt.None?
    ensures LiveBucketNamed(buckets, name) == Some(i)
  {
    assert buckets[..i + 1][..i] == buckets[..i];
    FoundStaysUpTo(buckets, name, i, |buckets|);
    assert buckets[..|buckets|] == buckets;
  }

  lemma {:induction false} FoundStaysUpTo(buckets: seq<Bucket>, name: string, i: nat, n: nat)
    requires i < n <= |buckets| && LiveBucketNamed(buckets[..i + 1], name) == Some(i)
    ensures LiveBucketNamed(buckets[..n], name) == Some(i)
  {
    if n > i + 1 {
      FoundStaysUpTo(buckets, name, i, n - 1);
      assert buckets[..n][..n - 1] == buckets[..n - 1];
    }
  }

  lemma RowsNext(chunkRows: seq<ChunkRow>, file: nat, i: nat)
    requires i < |chunkRows|
    ensures RowsOf(chunkRows[..i + 1], file)
        == if chunkRows[i].file == file then RowsOf(chunkRows[..i], file) + [chunkRows[i].chunk]
           else RowsOf(chunkRows[..i], file)
  {
    assert chunkRows[..i + 1][..i] == chunkRows[..i];
  }

  lemma SortNext(rows: seq<FileChunk>, c: FileChunk)
    ensures SortByIndex(rows + [c]) == InsertByIndex(SortByIndex(rows), c)
  {
    assert (rows + [c])[..|rows|] == rows;
  }

  class DiskStore {
    var blobs: map<Path, Blob>

    constructor ()
      ensures blobs == map[]
    {
      blobs := map[];
    }

    method Write(path: Path, data: Blob)
      modifies this
      ensures blobs == old(blobs)[path := data]
    {
      blobs := blobs[path := data];
    }

    method Read(path: Path) returns (r: Result<Blob>)
      ensures r == if path in blobs then Ok(blobs[path]) else Err(MissingBlob)
    {
      r := if path in blobs then Ok(blobs[path]) else Err(MissingBlob);
    }

    /** Deleting a missing blob is not an error. */
    method Delete(path: Path)
      modifies this
      ensures blobs == old(blobs) - {path}
    {
      blobs := blobs - {path};
    }
  }
}
