/** Values shared by the storage and service layers. */
module Domain {
  import opened Bytes

  datatype Option<+T> = None | Some(value: T)

  datatype Error =
    | NoChunks
    | MissingBlob
    | NotFound
    | AlreadyExists
    | InvalidInput
    | EntityTooLarge
    | StorageQuota

  datatype Result<+T> = Ok(value: T) | Err(error: Error)

  type Digest = string

  /** SHA-256, hex encoded: any function of the content. */
  type Hash = Blob -> Digest

  /** Storage paths; each constructor is one of the source's path formats. */
  datatype Path =
    | DataShardPath(shard: nat)
    | ParityShardPath(shard: nat)
    | ChunkPath(index: nat, size: nat)
    | ChecksumPath(checksum: Digest)
    | ObjectPath(bucket: nat, file: nat, chunk: int)
    | PartPath(upload: nat, number: int)
    | ReplicaPath(file: nat, chunk: int)

  datatype FileChunk = FileChunk(chunkIndex: int, size: nat, checksum: Digest, storagePath: Path, isParity: bool)

  /** What the chunker and the codec return: chunk descriptors and their bytes, position by position. */
  datatype Shards = Shards(rows: seq<FileChunk>, data: seq<Blob>)

  function Concat(blobs: seq<Blob>): Blob {
    if blobs == [] then [] else Concat(blobs[..|blobs| - 1]) + blobs[|blobs| - 1]
  }

  function TotalSize(blobs: seq<Blob>): nat {
    if blobs == [] then 0 else TotalSize(blobs[..|blobs| - 1]) + |blobs[|blobs| - 1]|
  }

  lemma {:induction false} ConcatSize(blobs: seq<Blob>)
    ensures |Concat(blobs)| == TotalSize(blobs)
  {
    if blobs != [] {
      ConcatSize(blobs[..|blobs| - 1]);
    }
  }

  lemma {:induction false} ConcatAppend(xs: seq<Blob>, ys: seq<Blob>)
    ensures Concat(xs + ys) == Concat(xs) + Concat(ys)
    ensures TotalSize(xs + ys) == TotalSize(xs) + TotalSize(ys)
  {
    if ys == [] {
      assert xs + ys == xs;
    } else {
      var n, all := |ys| - 1, xs + ys;
      ConcatAppend(xs, ys[..n]);
      assert all[..|all| - 1] == xs + ys[..n] && all[|all| - 1] == ys[n];
      assert (Concat(xs) + Concat(ys[..n])) + ys[n] == Concat(xs) + (Concat(ys[..n]) + ys[n]);
    }
  }
}
