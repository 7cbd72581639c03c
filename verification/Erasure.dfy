/** The erasure codec: parity rows, padding, and the recovery loop. */
module Erasure {
  import opened Bytes
  import opened Domain

  datatype Codec = Codec(dataShards: nat, parityShards: nat)

  // ---------- encoding ----------

  function ShardSize(chunks: seq<Blob>): nat {
    if chunks == [] then 0
    else
      var n := |chunks| - 1;
      var s := ShardSize(chunks[..n]);
      if |chunks[n]| > s then |chunks[n]| else s
  }

  function Pad(d: Blob, size: nat): Blob {
    seq(size, b requires 0 <= b < size => if b < |d| then d[b] else 0)
  }

  lemma PadSizes(size: nat)
    ensures forall d: Blob :: |Pad(d, size)| == size
  {
  }

  /** The data shards the parity is computed over: truncated to the shard count, zero padded. */
  function PaddedShards(k: nat, chunks: seq<Blob>): (shards: seq<Blob>)
    ensures Rectangular(shards, k, ShardSize(chunks))
  {
    var size := ShardSize(chunks);
    PadSizes(size);
    seq(k, j requires 0 <= j < k => Pad(if j < |chunks| then chunks[j] else [], size))
  }

  predicate Rectangular(shards: seq<Blob>, k: nat, size: nat) {
    && |shards| == k
    && forall j :: 0 <= j < k ==> |shards[j]| == size
  }

  function Column(shards: seq<Blob>, size: nat, b: nat): seq<Byte>
    requires Rectangular(shards, |shards|, size) && b < size
  {
    seq(|shards|, j requires 0 <= j < |shards| => shards[j][b])
  }

  function Coefficient(i: nat, j: nat): Byte {
    ByteOf((i + 1) * (j + 1))
  }

  function Weighted(column: seq<Byte>, i: nat): seq<Byte> {
    seq(|column|, j requires 0 <= j < |column| => Mul(column[j], Coefficient(i, j)))
  }

  /** In terms of whole numbers: row i takes the (i+1)(j+1)-fold of shard j, modulo 256. */
  lemma WeightedIsMultiple(column: seq<Byte>, i: nat, j: nat)
    requires j < |column|
    ensures Weighted(column, i)[j] == (column[j] * (i + 1) * (j + 1)) % 256
  {
    MulTruncated(column[j], (i + 1) * (j + 1));
    ThreeFactors(column[j], i + 1, j + 1);
  }

  lemma ThreeFactors(x: int, y: int, z: int)
    ensures x * y * z == x * (y * z)
  {
  }

  function XorSum(xs: seq<Byte>): Byte {
    if xs == [] then 0 else Xor(XorSum(xs[..|xs| - 1]), xs[|xs| - 1])
  }

  function ParityByte(column: seq<Byte>, i: nat): Byte {
    XorSum(Weighted(column, i))
  }

  function ParityShard(shards: seq<Blob>, size: nat, i: nat): Blob
    requires Rectangular(shards, |shards|, size)
  {
    seq(size, b requires 0 <= b < size => ParityByte(Column(shards, size, b), i))
  }

  function ParityShards(codec: Codec, chunks: seq<Blob>): seq<Blob> {
    var shards := PaddedShards(codec.dataShards, chunks);
    seq(codec.parityShards, i requires 0 <= i < codec.parityShards => ParityShard(shards, ShardSize(chunks), i))
  }

  function Kept(codec: Codec, chunks: seq<Blob>): nat {
    Min(codec.dataShards, |chunks|)
  }

  function EmittedData(codec: Codec, chunks: seq<Blob>): seq<Blob> {
    chunks[..Kept(codec, chunks)] + ParityShards(codec, chunks)
  }

  /** Parity shards are numbered after the data shards, even when fewer data chunks are emitted. */
  function EmittedIndex(codec: Codec, chunks: seq<Blob>, t: nat): nat {
    if t < Kept(codec, chunks) then t else codec.dataShards + (t - Kept(codec, chunks))
  }

  function EmittedRow(codec: Codec, chunks: seq<Blob>, sha256: Hash, t: nat): FileChunk
    requires t < |EmittedData(codec, chunks)|
  {
    var d := EmittedData(codec, chunks)[t];
    var parity := t >= Kept(codec, chunks);
    FileChunk(EmittedIndex(codec, chunks, t), |d|, sha256(d),
              if parity then ParityShardPath(t - Kept(codec, chunks)) else DataShardPath(t), parity)
  }

  function EmittedRows(codec: Codec, chunks: seq<Blob>, sha256: Hash): seq<FileChunk> {
    seq(|EmittedData(codec, chunks)|, t requires 0 <= t < |EmittedData(codec, chunks)| =>
      EmittedRow(codec, chunks, sha256, t))
  }

  /** Byte `b` of chunk `j`, zero beyond the chunk's end and beyond the last chunk. */
  function ByteAt(chunks: seq<Blob>, j: nat, b: nat): Byte {
    if j < |chunks| && b < |chunks[j]| then chunks[j][b] else 0
  }

  /** The first k chunks as they are, each with its number, size and checksum. */
  ghost predicate EmitsData(codec: Codec, chunks: seq<Blob>, sha256: Hash, shards: Shards) {
    var n := Min(codec.dataShards, |chunks|);
    && |shards.rows| == |shards.data| == n + codec.parityShards
    && forall t :: 0 <= t < n ==>
         && shards.data[t] == chunks[t]
         && shards.rows[t] == FileChunk(t, |chunks[t]|, sha256(chunks[t]), DataShardPath(t), false)
  }

  /** Parity shard `i` is numbered k + i and as long as the longest chunk. */
  ghost predicate EmitsParityRow(codec: Codec, chunks: seq<Blob>, sha256: Hash, shards: Shards, i: nat)
    requires EmitsData(codec, chunks, sha256, shards) && i < codec.parityShards
  {
    var n := Min(codec.dataShards, |chunks|);
    var d := shards.data[n + i];
    && shards.rows[n + i] == FileChunk(codec.dataShards + i, |d|, sha256(d), ParityShardPath(i), true)
    && (forall c :: 0 <= c < |chunks| ==> |chunks[c]| <= |d|)
    && exists c :: 0 <= c < |chunks| && |chunks[c]| == |d|
  }

  /** Byte `b` of every data shard j times (i+1)(j+1), modulo 256. */
  function Multiples(k: nat, chunks: seq<Blob>, i: nat, b: nat): seq<Byte> {
    seq(k, j requires 0 <= j < k => (ByteAt(chunks, j, b) * (i + 1) * (j + 1)) % 256)
  }

  /** Its byte `b` is the exclusive or of those. */
  ghost predicate EmitsParityByte(codec: Codec, chunks: seq<Blob>, shards: Shards, i: nat, b: nat)
    requires i < codec.parityShards && |shards.data| == Min(codec.dataShards, |chunks|) + codec.parityShards
  {
    var d := shards.data[Min(codec.dataShards, |chunks|) + i];
    b < |d| ==> d[b] == XorSum(Multiples(codec.dataShards, chunks, i, b))
  }

  method Encode(codec: Codec, chunks: seq<Blob>, sha256: Hash) returns (r: Result<Shards>)
    ensures chunks == [] ==> r == Err(NoChunks)
    ensures chunks != [] ==> r.Ok? && EmitsData(codec, chunks, sha256, r.value)
    ensures chunks != [] ==> forall i: nat :: i < codec.parityShards ==>
              EmitsParityRow(codec, chunks, sha256, r.value, i)
    ensures chunks != [] ==> forall i: nat, b: nat :: i < codec.parityShards ==>
              EmitsParityByte(codec, chunks, r.value, i, b)
    ensures chunks != [] ==> r == Ok(Shards(EmittedRows(codec, chunks, sha256), EmittedData(codec, chunks)))
  {
    if |chunks| == 0 {
      return Err(NoChunks);
    }
    var shardSize := MeasureShards(chunks);
    var padded := PadChunks(codec.dataShards, chunks, shardSize);
    var parityData := ComputeParity(codec, padded, chunks);
    var shards := CollectShards(codec, chunks, parityData, sha256);
    r := Ok(shards);
    forall i: nat | i < codec.parityShards
      ensures EmitsParityRow(codec, chunks, sha256, shards, i)
    {
      ParityRowEmitted(codec, chunks, sha256, i);
    }
    forall i: nat, b: nat | i < codec.parityShards
      ensures EmitsParityByte(codec, chunks, shards, i, b)
    {
      ParityByteEmitted(codec, chunks, sha256, i, b);
    }
  }

  lemma {:induction false} LongestChunk(chunks: seq<Blob>)
    requires chunks != []
    ensures forall c :: 0 <= c < |chunks| ==> |chunks[c]| <= ShardSize(chunks)
    ensures exists c :: 0 <= c < |chunks| && |chunks[c]| == ShardSize(chunks)
  {
    var n := |chunks| - 1;
    if n > 0 {
      LongestChunk(chunks[..n]);
      var c :| 0 <= c < n && |chunks[..n][c]| == ShardSize(chunks[..n]);
      assert |chunks[c]| == ShardSize(chunks[..n]);
    }
    forall c | 0 <= c < |chunks|
      ensures |chunks[c]| <= ShardSize(chunks)
    {
      ShardSizeBounds(chunks, c);
    }
    assert |chunks[n]| == ShardSize(chunks) || ShardSize(chunks) == ShardSize(chunks[..n]);
  }

  lemma ParityRowEmitted(codec: Codec, chunks: seq<Blob>, sha256: Hash, i: nat)
    requires chunks != [] && i < codec.parityShards
    ensures
      var shards := Shards(EmittedRows(codec, chunks, sha256), EmittedData(codec, chunks));
      EmitsData(codec, chunks, sha256, shards) && EmitsParityRow(codec, chunks, sha256, shards, i)
  {
    LongestChunk(chunks);
    EmittedParity(codec, chunks, sha256, i);
  }

  lemma ParityByteEmitted(codec: Codec, chunks: seq<Blob>, sha256: Hash, i: nat, b: nat)
    requires chunks != [] && i < codec.parityShards
    ensures EmitsParityByte(codec, chunks, Shards(EmittedRows(codec, chunks, sha256), EmittedData(codec, chunks)), i, b)
  {
    var n := Min(codec.dataShards, |chunks|);
    if b < |EmittedData(codec, chunks)[n + i]| {
      EmittedByte(codec, chunks, i, b);
      ParityByteIs(codec.dataShards, chunks, i, b);
    }
  }

  lemma EmittedByte(codec: Codec, chunks: seq<Blob>, i: nat, b: nat)
    requires i < codec.parityShards && b < |EmittedData(codec, chunks)[Kept(codec, chunks) + i]|
    ensures b < ShardSize(chunks)
    ensures EmittedData(codec, chunks)[Kept(codec, chunks) + i][b]
        == ParityByte(Column(PaddedShards(codec.dataShards, chunks), ShardSize(chunks), b), i)
  {
    assert EmittedData(codec, chunks)[Kept(codec, chunks) + i] == ParityShards(codec, chunks)[i];
  }

  /** A parity byte in whole numbers, without padded shards and without truncated coefficients. */
  lemma ParityByteIs(k: nat, chunks: seq<Blob>, i: nat, b: nat)
    requires b < ShardSize(chunks)
    ensures ParityByte(Column(PaddedShards(k, chunks), ShardSize(chunks), b), i)
        == XorSum(Multiples(k, chunks, i, b))
  {
    var column := Column(PaddedShards(k, chunks), ShardSize(chunks), b);
    var multiples := Multiples(k, chunks, i, b);
    forall j | 0 <= j < k
      ensures Weighted(column, i)[j] == multiples[j]
    {
      assert column[j] == ByteAt(chunks, j, b);
      WeightedIsMultiple(column, i, j);
    }
    assert Weighted(column, i) == multiples;
  }

  method MeasureShards(chunks: seq<Blob>) returns (shardSize: nat)
    ensures shardSize == ShardSize(chunks)
  {
    shardSize := 0;
    for c := 0 to |chunks|
      invariant shardSize == ShardSize(chunks[..c])
    {
      assert chunks[..c + 1][..c] == chunks[..c];
      if |chunks[c]| > shardSize {
        shardSize := |chunks[c]|;
      }
    }
    assert chunks[..|chunks|] == chunks;
  }

  ghost predicate Holds(buffer: array2<Byte>, rows: seq<Blob>, size: nat)
    reads buffer
  {
    && buffer.Length0 == |rows| && buffer.Length1 == size
    && Rectangular(rows, |rows|, size)
    && forall j, b :: 0 <= j < |rows| && 0 <= b < size ==> buffer[j, b] == rows[j][b]
  }

  method PadChunks(k: nat, chunks: seq<Blob>, shardSize: nat) returns (padded: array2<Byte>)
    requires shardSize == ShardSize(chunks)
    ensures fresh(padded) && Holds(padded, PaddedShards(k, chunks), shardSize)
  {
    ghost var shards := PaddedShards(k, chunks);
    padded := new Byte[k, shardSize]((_, _) => 0);
    for i := 0 to k
      invariant forall j, b :: 0 <= j < i && 0 <= b < shardSize ==> padded[j, b] == shards[j][b]
      invariant forall j, b :: i <= j < k && 0 <= b < shardSize ==> padded[j, b] == 0
    {
      if i < |chunks| {
        ShardSizeBounds(chunks, i);
        for b := 0 to |chunks[i]|
          invariant forall j, b' :: 0 <= j < i && 0 <= b' < shardSize ==> padded[j, b'] == shards[j][b']
          invariant forall b' :: 0 <= b' < b ==> padded[i, b'] == chunks[i][b']
          invariant forall b' :: b <= b' < shardSize ==> padded[i, b'] == 0
          invariant forall j, b' :: i < j < k && 0 <= b' < shardSize ==> padded[j, b'] == 0
        {
          padded[i, b] := chunks[i][b];
        }
      }
    }
  }

  method ComputeParity(codec: Codec, padded: array2<Byte>, ghost chunks: seq<Blob>) returns (parityData: array2<Byte>)
    requires Holds(padded, PaddedShards(codec.dataShards, chunks), ShardSize(chunks))
    ensures fresh(parityData) && Holds(parityData, ParityShards(codec, chunks), ShardSize(chunks))
  {
    ghost var shards := PaddedShards(codec.dataShards, chunks);
    parityData := FillParity(codec.parityShards, padded, shards, ParityShards(codec, chunks));
  }

  method FillParity(p: nat, padded: array2<Byte>, ghost shards: seq<Blob>, ghost rows: seq<Blob>)
      returns (parityData: array2<Byte>)
    requires Holds(padded, shards, padded.Length1)
    requires |rows| == p && forall i :: 0 <= i < p ==> rows[i] == ParityShard(shards, padded.Length1, i)
    ensures fresh(parityData) && Holds(parityData, rows, padded.Length1)
    ensures forall i, b :: 0 <= i < p && 0 <= b < padded.Length1 ==>
        parityData[i, b] == XorSum(Multiples(|shards|, shards, i, b))
  {
    var shardSize := padded.Length1;
    parityData := new Byte[p, shardSize]((_, _) => 0);
    for b := 0 to shardSize
      invariant forall i, b' :: 0 <= i < p && 0 <= b' < b ==> parityData[i, b'] == rows[i][b']
    {
      for i := 0 to p
        invariant forall i', b' :: 0 <= i' < p && 0 <= b' < b ==> parityData[i', b'] == rows[i'][b']
        invariant forall i' :: 0 <= i' < i ==> parityData[i', b] == rows[i'][b]
      {
        var parity := ParityAt(padded, b, i, shards);
        parityData[i, b] := parity;
      }
    }
    forall i, b | 0 <= i < p && 0 <= b < shardSize
      ensures parityData[i, b] == XorSum(Multiples(|shards|, shards, i, b))
    {
      MultiplesOf(shards, shardSize, b, i);
    }
  }

  /** One parity byte: the innermost loop of the encoder. */
  method ParityAt(padded: array2<Byte>, b: nat, i: nat, ghost shards: seq<Blob>) returns (parity: Byte)
    requires Holds(padded, shards, padded.Length1) && b < padded.Length1
    ensures parity == ParityByte(Column(shards, padded.Length1, b), i)
    ensures parity == XorSum(Multiples(|shards|, shards, i, b))
  {
    ghost var weighted := Weighted(Column(shards, padded.Length1, b), i);
    parity := 0;
    for j := 0 to padded.Length0
      invariant parity == XorSum(weighted[..j])
    {
      var coeff := ByteOf((i + 1) * (j + 1));
      XorSumNext(weighted, j);
      parity := Xor(parity, Mul(padded[j, b], coeff));
    }
    assert weighted[..padded.Length0] == weighted;
    MultiplesOf(shards, padded.Length1, b, i);
  }

  lemma MultiplesOf(shards: seq<Blob>, size: nat, b: nat, i: nat)
    requires Rectangular(shards, |shards|, size) && b < size
    ensures Weighted(Column(shards, size, b), i)
        == Multiples(|shards|, shards, i, b)
  {
    forall j: nat | j < |shards|
      ensures Weighted(Column(shards, size, b), i)[j] == (shards[j][b] * (i + 1) * (j + 1)) % 256
    {
      WeightedIsMultiple(Column(shards, size, b), i, j);
    }
  }

  method CollectShards(codec: Codec, chunks: seq<Blob>, parityData: array2<Byte>, sha256: Hash) returns (shards: Shards)
    requires Holds(parityData, ParityShards(codec, chunks), ShardSize(chunks))
    ensures shards == Shards(EmittedRows(codec, chunks, sha256), EmittedData(codec, chunks))
  {
    shards := CollectData(codec, chunks, sha256);
    ghost var n := Kept(codec, chunks);
    for i := 0 to codec.parityShards
      invariant shards == EmittedUpTo(codec, chunks, sha256, n + i)
    {
      var d := RowOf(parityData, i, ParityShards(codec, chunks));
      EmittedParityRow(codec, chunks, sha256, i);
      var chunk := FileChunk(codec.dataShards + i, |d|, sha256(d), ParityShardPath(i), true);
      shards := Shards(shards.rows + [chunk], shards.data + [d]);
    }
    EmittedAll(codec, chunks, sha256);
  }

  /** The first `t` descriptors and shards emitted. */
  function EmittedUpTo(codec: Codec, chunks: seq<Blob>, sha256: Hash, t: nat): Shards
    requires t <= |EmittedData(codec, chunks)|
  {
    Shards(EmittedRows(codec, chunks, sha256)[..t], EmittedData(codec, chunks)[..t])
  }

  lemma EmittedAll(codec: Codec, chunks: seq<Blob>, sha256: Hash)
    ensures EmittedUpTo(codec, chunks, sha256, Kept(codec, chunks) + codec.parityShards)
        == Shards(EmittedRows(codec, chunks, sha256), EmittedData(codec, chunks))
  {
  }

  method CollectData(codec: Codec, chunks: seq<Blob>, sha256: Hash) returns (shards: Shards)
    ensures shards == EmittedUpTo(codec, chunks, sha256, Kept(codec, chunks))
  {
    shards := Shards([], []);
    for i := 0 to codec.dataShards
      invariant shards == EmittedUpTo(codec, chunks, sha256, Min(i, |chunks|))
    {
      if i < |chunks| {
        EmittedDataRow(codec, chunks, sha256, i);
        var chunk := FileChunk(i, |chunks[i]|, sha256(chunks[i]), DataShardPath(i), false);
        shards := Shards(shards.rows + [chunk], shards.data + [chunks[i]]);
      }
    }
  }

  method RowOf(buffer: array2<Byte>, i: nat, ghost rows: seq<Blob>) returns (d: Blob)
    requires i < buffer.Length0 && Holds(buffer, rows, buffer.Length1)
    ensures d == rows[i]
  {
    d := seq(buffer.Length1, b requires 0 <= b < buffer.Length1 && i < buffer.Length0 reads buffer => buffer[i, b]);
  }

  lemma EmittedDataRow(codec: Codec, chunks: seq<Blob>, sha256: Hash, i: nat)
    requires i < Kept(codec, chunks)
    ensures EmittedData(codec, chunks)[..i + 1] == EmittedData(codec, chunks)[..i] + [chunks[i]]
    ensures EmittedRows(codec, chunks, sha256)[..i + 1] == EmittedRows(codec, chunks, sha256)[..i]
        + [FileChunk(i, |chunks[i]|, sha256(chunks[i]), DataShardPath(i), false)]
  {
    assert EmittedData(codec, chunks)[i] == chunks[i];
    var rows := EmittedRows(codec, chunks, sha256);
    assert rows[..i + 1] == rows[..i] + [rows[i]];
  }

  lemma EmittedParityRow(codec: Codec, chunks: seq<Blob>, sha256: Hash, i: nat)
    requires i < codec.parityShards
    ensures
      var n, d := Kept(codec, chunks), ParityShards(codec, chunks)[i];
      && EmittedData(codec, chunks)[..n + i + 1] == EmittedData(codec, chunks)[..n + i] + [d]
      && EmittedRows(codec, chunks, sha256)[..n + i + 1] == EmittedRows(codec, chunks, sha256)[..n + i]
        + [FileChunk(codec.dataShards + i, |d|, sha256(d), ParityShardPath(i), true)]
  {
    var n, d := Kept(codec, chunks), ParityShards(codec, chunks)[i];
    EmittedParity(codec, chunks, sha256, i);
    TakeNext(EmittedData(codec, chunks), n + i);
    TakeNext(EmittedRows(codec, chunks, sha256), n + i);
  }

  lemma EmittedParity(codec: Codec, chunks: seq<Blob>, sha256: Hash, i: nat)
    requires i < codec.parityShards
    ensures
      var n, d := Kept(codec, chunks), ParityShards(codec, chunks)[i];
      && EmittedData(codec, chunks)[n + i] == d
      && EmittedRows(codec, chunks, sha256)[n + i]
         == FileChunk(codec.dataShards + i, |d|, sha256(d), ParityShardPath(i), true)
  {
  }

  lemma TakeNext<T>(xs: seq<T>, i: nat)
    requires i < |xs|
    ensures xs[..i + 1] == xs[..i] + [xs[i]]
  {
  }

  lemma {:induction false} ShardSizeBounds(chunks: seq<Blob>, j: nat)
    requires j < |chunks|
    ensures |chunks[j]| <= ShardSize(chunks)
  {
    var n := |chunks| - 1;
    if j < n {
      ShardSizeBounds(chunks[..n], j);
    }
  }

  // ---------- exclusive or, bit by bit ----------

  function Bit(x: nat, t: nat): nat {
    if t == 0 then x % 2 else Bit(x / 2, t - 1)
  }

  function OnesAt(xs: seq<Byte>, t: nat): nat {
    if xs == [] then 0 else OnesAt(xs[..|xs| - 1], t) + Bit(xs[|xs| - 1], t)
  }

  lemma {:induction false} XorNatBit(x: nat, y: nat, t: nat)
    ensures Bit(XorNat(x, y), t) == (Bit(x, t) + Bit(y, t)) % 2
  {
    if t > 0 {
      XorNatBit(x / 2, y / 2, t - 1);
    } else if x + y > 0 {
      assert XorNat(x, y) % 2 == (x + y) % 2;
    }
  }

  /** The exclusive or of bytes has a bit set exactly when an odd number of them has. */
  lemma {:induction false} XorSumCountsBits(xs: seq<Byte>, t: nat)
    ensures Bit(XorSum(xs), t) == OnesAt(xs, t) % 2
  {
    if xs == [] {
      ZeroBit(t);
    } else {
      var n := |xs| - 1;
      XorSumCountsBits(xs[..n], t);
      XorNatBit(XorSum(xs[..n]), xs[n], t);
    }
  }

  lemma {:induction false} ZeroBit(t: nat)
    ensures Bit(0, t) == 0
  {
    if t > 0 {
      ZeroBit(t - 1);
    }
  }

  lemma XorSumNext(xs: seq<Byte>, j: nat)
    requires j < |xs|
    ensures XorSum(xs[..j + 1]) == Xor(XorSum(xs[..j]), xs[j])
  {
    assert xs[..j + 1][..j] == xs[..j];
  }
}
