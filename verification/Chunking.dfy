/** Splitting into chunks and parts, merging, and deduplication by checksum. */
module Chunking {
  import opened Bytes
  import opened Domain

  newtype int64 = x: int | -0x8000_0000_0000_0000 <= x < 0x8000_0000_0000_0000

  const MAX_LENGTH := 0x4000_0000_0000_0000

  // ---------- pieces of a buffer ----------

  function PieceCount(n: nat, size: nat): nat
    requires size > 0
  {
    (n + size - 1) / size
  }

  /** Piece `t` of a buffer cut every `size` bytes. */
  function Piece(raw: Blob, size: nat, t: nat): Blob
    requires size > 0
  {
    raw[Min(t * size, |raw|)..Min((t + 1) * size, |raw|)]
  }

  function Pieces(raw: Blob, size: nat): seq<Blob>
    requires size > 0
  {
    seq(PieceCount(|raw|, size), t requires 0 <= t < PieceCount(|raw|, size) => Piece(raw, size, t))
  }

  lemma PieceCountBounds(n: nat, size: nat)
    requires size > 0
    ensures n <= PieceCount(n, size) * size
    ensures n > 0 ==> PieceCount(n, size) > 0 && (PieceCount(n, size) - 1) * size < n
    ensures n == 0 ==> PieceCount(n, size) == 0
  {
    var m := PieceCount(n, size);
    assert n + size - 1 == m * size + (n + size - 1) % size;
    assert (m - 1) * size == m * size - size;
    if n == 0 {
      MulGap(m, size);
    }
    if m == 0 {
      assert m * size == 0;
    }
  }

  lemma PieceCountUnique(n: nat, size: nat, m: nat)
    requires size > 0
    ensures PieceCount(n, size) == m <==> n <= m * size && m * size < n + size
  {
    var q := PieceCount(n, size);
    PieceCountBounds(n, size);
    assert (q - 1) * size == q * size - size;
    assert (q - m) * size == q * size - m * size;
    MulGap(q - m, size);
  }

  /** A piece other than the last is full; the last one is nonempty. */
  lemma PieceSizes(raw: Blob, size: nat, t: nat)
    requires size > 0 && t < PieceCount(|raw|, size)
    ensures t * size < |raw|
    ensures |Pieces(raw, size)[t]| == Min(size, |raw| - t * size)
    ensures t + 1 < PieceCount(|raw|, size) ==> |Pieces(raw, size)[t]| == size
    ensures Pieces(raw, size)[t] != []
  {
    var m := PieceCount(|raw|, size);
    PieceCountBounds(|raw|, size);
    NextMultiple(t, size);
    MulMonotone(t, m - 1, size);
    if t + 1 < m {
      MulMonotone(t + 1, m - 1, size);
    }
  }

  lemma PrefixGrows(raw: Blob, low: nat, high: nat)
    requires low <= high <= |raw|
    ensures raw[..low] + raw[low..high] == raw[..high]
  {
  }

  lemma ConcatPush(blobs: seq<Blob>, d: Blob)
    ensures Concat(blobs + [d]) == Concat(blobs) + d
  {
    assert (blobs + [d])[..|blobs|] == blobs;
  }

  lemma {:induction false} PiecesPrefix(raw: Blob, size: nat, t: nat)
    requires size > 0 && t <= PieceCount(|raw|, size)
    ensures Concat(Pieces(raw, size)[..t]) == raw[..Min(t * size, |raw|)]
  {
    if t == 0 {
      assert t * size == 0;
    } else {
      PiecesPrefix(raw, size, t - 1);
      PrefixStep(raw, size, t - 1);
    }
  }

  lemma PrefixStep(raw: Blob, size: nat, t: nat)
    requires size > 0 && t < PieceCount(|raw|, size)
    requires Concat(Pieces(raw, size)[..t]) == raw[..Min(t * size, |raw|)]
    ensures Concat(Pieces(raw, size)[..t + 1]) == raw[..Min((t + 1) * size, |raw|)]
  {
    var low := t * size;
    PieceStarts(raw, size, t);
    NextPiece(raw, size, t, low);
    PrefixGrows(raw, low, Min(low + size, |raw|));
    ConcatPush(Pieces(raw, size)[..t], Pieces(raw, size)[t]);
  }

  lemma PieceStarts(raw: Blob, size: nat, t: nat)
    requires size > 0 && t < PieceCount(|raw|, size)
    ensures 0 <= t * size < |raw|
  {
    PieceSizes(raw, size, t);
  }

  /** Concatenating the pieces gives the buffer back. */
  lemma PiecesJoin(raw: Blob, size: nat)
    requires size > 0
    ensures Concat(Pieces(raw, size)) == raw
  {
    var m := PieceCount(|raw|, size);
    PieceCountBounds(|raw|, size);
    PiecesPrefix(raw, size, m);
    assert Pieces(raw, size)[..m] == Pieces(raw, size);
    assert raw[..|raw|] == raw;
  }

  /** The cut advances by whole pieces until the end of the buffer. */
  lemma NextPiece(raw: Blob, size: nat, index: nat, offset: nat)
    requires size > 0 && offset == Min(index * size, |raw|) && offset < |raw|
    ensures offset == index * size && index < PieceCount(|raw|, size)
    ensures raw[offset..Min(offset + size, |raw|)] == Pieces(raw, size)[index]
    ensures Min(offset + size, |raw|) == Min((index + 1) * size, |raw|)
    ensures Pieces(raw, size)[..index + 1] == Pieces(raw, size)[..index] + [Pieces(raw, size)[index]]
  {
    var m := PieceCount(|raw|, size);
    PieceCountBounds(|raw|, size);
    assert (m - index) * size == m * size - index * size;
    MulGap(m - index, size);
    assert (index + 1) * size == index * size + size;
    assert index < m by {
      if index >= m {
        MulGap(m - index, size);
      }
    }
  }

  // ---------- the chunker ----------

  function ChunkRow(index: nat, d: Blob, sha256: Hash): FileChunk {
    FileChunk(index, |d|, sha256(d), ChunkPath(index, |d|), false)
  }

  function ChunkRows(chunks: seq<Blob>, sha256: Hash): seq<FileChunk> {
    seq(|chunks|, t requires 0 <= t < |chunks| => ChunkRow(t, chunks[t], sha256))
  }

  /** The descriptor counts from zero, is no parity, and gives size and checksum of bytes [t*size, (t+1)*size). */
  ghost predicate DescribesPiece(raw: Blob, size: nat, t: nat, sha256: Hash, row: FileChunk)
    requires size > 0
  {
    && t * size < |raw|
    && row.chunkIndex == t && !row.isParity
    && row.size == Min(size, |raw| - t * size)
    && row.checksum == sha256(raw[t * size..Min((t + 1) * size, |raw|)])
    && row.storagePath == ChunkPath(t, row.size)
  }

  lemma PiecesDescribed(raw: Blob, size: nat, sha256: Hash)
    requires size > 0
    ensures forall t: nat :: t < |Pieces(raw, size)| ==>
        DescribesPiece(raw, size, t, sha256, ChunkRows(Pieces(raw, size), sha256)[t])
  {
    forall t: nat | t < |Pieces(raw, size)|
      ensures DescribesPiece(raw, size, t, sha256, ChunkRows(Pieces(raw, size), sha256)[t])
    {
      PieceSizes(raw, size, t);
    }
  }

  method Split(chunkSize: int64, rawData: Blob, sha256: Hash) returns (result: Shards)
    requires chunkSize > 0 && |rawData| <= MAX_LENGTH
    ensures result.data == Pieces(rawData, chunkSize as nat)
    ensures result.rows == ChunkRows(result.data, sha256)
    ensures |result.rows| == |result.data| && forall t: nat :: t < |result.rows| ==>
        DescribesPiece(rawData, chunkSize as nat, t, sha256, result.rows[t])
  {
    ghost var size := chunkSize as nat;
    var rows: seq<FileChunk> := [];
    var data: seq<Blob> := [];
    var totalSize := |rawData| as int64;
    var offset: int64 := 0;
    var index := 0;
    while offset < totalSize
      invariant 0 <= offset <= totalSize
      invariant offset as nat == Min(index * size, |rawData|)
      invariant index <= PieceCount(|rawData|, size) && data == Pieces(rawData, size)[..index]
      invariant rows == ChunkRows(data, sha256)
      invariant offset == 0 || chunkSize <= offset || offset == totalSize
      decreases totalSize - offset
    {
      NextPiece(rawData, size, index, offset as nat);
      var end := offset + chunkSize;
      if end > totalSize {
        end := totalSize;
      }
      var chunkData := rawData[offset..end];
      rows := rows + [ChunkRow(index, chunkData, sha256)];
      data := data + [chunkData];
      offset := offset + |chunkData| as int64;
      index := index + 1;
    }
    AllPieces(rawData, size, index);
    result := Shards(rows, data);
    PiecesDescribed(rawData, size, sha256);
  }

  lemma AllPieces(raw: Blob, size: nat, index: nat)
    requires size > 0 && index <= PieceCount(|raw|, size) && Min(index * size, |raw|) == |raw|
    ensures Pieces(raw, size)[..index] == Pieces(raw, size)
  {
    PieceCountBounds(|raw|, size);
    var m := PieceCount(|raw|, size);
    if index < m {
      MulMonotone(index, m - 1, size);
    }
  }

  method Merge(chunks: seq<Blob>) returns (r: Result<Blob>)
    ensures r == if chunks == [] then Err(NoChunks) else Ok(Concat(chunks))
  {
    if |chunks| == 0 {
      return Err(NoChunks);
    }
    var result: Blob := [];
    for i := 0 to |chunks|
      invariant result == Concat(chunks[..i])
    {
      assert chunks[..i + 1][..i] == chunks[..i];
      result := result + chunks[i];
    }
    assert chunks[..|chunks|] == chunks;
    r := Ok(result);
  }

  // ---------- parts ----------

  datatype PartTag = PartTag(checksum: Digest, partNumber: int)

  datatype FilePart = FilePart(partNumber: int, etag: PartTag, size: nat, checksum: Digest)

  function PartOf(number: int, d: Blob, sha256: Hash): FilePart {
    FilePart(number, PartTag(sha256(d), number), |d|, sha256(d))
  }

  /** Parts are numbered from one. */
  function PartsOf(pieces: seq<Blob>, sha256: Hash): seq<FilePart> {
    seq(|pieces|, t requires 0 <= t < |pieces| => PartOf(t + 1, pieces[t], sha256))
  }

  /** The part counts from one, and gives size and checksum of bytes [t*size, (t+1)*size); its tag repeats both numbers. */
  ghost predicate NumbersPiece(raw: Blob, size: nat, t: nat, sha256: Hash, part: FilePart)
    requires size > 0
  {
    && t * size < |raw|
    && part.partNumber == t + 1
    && part.size == Min(size, |raw| - t * size)
    && part.checksum == sha256(raw[t * size..Min((t + 1) * size, |raw|)])
    && part.etag.checksum == part.checksum && part.etag.partNumber == part.partNumber
  }

  lemma PiecesNumbered(raw: Blob, size: nat, sha256: Hash)
    requires size > 0
    ensures forall t: nat :: t < |Pieces(raw, size)| ==>
        NumbersPiece(raw, size, t, sha256, PartsOf(Pieces(raw, size), sha256)[t])
  {
    forall t: nat | t < |Pieces(raw, size)|
      ensures NumbersPiece(raw, size, t, sha256, PartsOf(Pieces(raw, size), sha256)[t])
    {
      PieceSizes(raw, size, t);
    }
  }

  method SplitIntoParts(data: Blob, partSize: int64, sha256: Hash) returns (parts: seq<FilePart>, partsData: seq<Blob>)
    requires partSize > 0 && |data| <= MAX_LENGTH
    ensures partsData == Pieces(data, partSize as nat)
    ensures parts == PartsOf(partsData, sha256)
    ensures |parts| == |partsData| && forall t: nat :: t < |parts| ==>
        NumbersPiece(data, partSize as nat, t, sha256, parts[t])
  {
    ghost var size := partSize as nat;
    parts, partsData := [], [];
    var totalSize := |data| as int64;
    var partNumber := 1;
    var offset: int64 := 0;
    while offset < totalSize
      invariant 0 <= offset <= totalSize && partNumber >= 1
      invariant offset as nat == Min((partNumber - 1) * size, |data|)
      invariant partNumber - 1 <= PieceCount(|data|, size) && partsData == Pieces(data, size)[..partNumber - 1]
      invariant parts == PartsOf(partsData, sha256)
      invariant offset == 0 || partSize <= offset || offset == totalSize
      decreases totalSize - offset
    {
      NextPiece(data, size, partNumber - 1, offset as nat);
      var end := offset + partSize;
      if end > totalSize {
        end := totalSize;
      }
      var partData := data[offset..end];
      parts := parts + [PartOf(partNumber, partData, sha256)];
      partsData := partsData + [partData];
      partNumber := partNumber + 1;
      offset := offset + |partData| as int64;
    }
    AllPieces(data, size, partNumber - 1);
    PiecesNumbered(data, size, sha256);
  }

  function JoinParts(partsData: seq<Blob>): Blob {
    Concat(partsData)
  }
}
