/** Decoding what was encoded: with every shard present, and after losses. */
module RoundTrip {
  import opened Bytes
  import opened Domain
  import opened Erasure
  import opened Recovery
  import opened Recoverability

  // ---------- the available map depends only on the pairs ----------

  predicate DistinctIndices(rows: seq<FileChunk>) {
    forall s, t :: 0 <= s < t < |rows| ==> rows[s].chunkIndex != rows[t].chunkIndex
  }

  function Pairs(rows: seq<FileChunk>, data: seq<Blob>): seq<(int, Blob)>
    requires |rows| == |data|
  {
    seq(|rows|, t requires 0 <= t < |rows| => (rows[t].chunkIndex, data[t]))
  }

  function Lookup(have: ShardMap, x: int): Option<Blob> {
    if x in have then Some(have[x]) else None
  }

  lemma {:induction false} AvailableUpToPairs(rows: seq<FileChunk>, data: seq<Blob>, n: nat)
    requires |rows| == |data| && n <= |rows| && DistinctIndices(rows)
    ensures forall x, d ::
      (x, d) in Pairs(rows, data)[..n] <==> Lookup(AvailableUpTo(rows, data, n), x) == Some(d)
  {
    if n > 0 {
      AvailableUpToPairs(rows, data, n - 1);
      forall x, d
        ensures (x, d) in Pairs(rows, data)[..n] <==> Lookup(AvailableUpTo(rows, data, n), x) == Some(d)
      {
        PairsNext(rows, data, n, x, d);
      }
    }
  }

  /** The last pair is the only one of its index. */
  lemma PairsNext(rows: seq<FileChunk>, data: seq<Blob>, n: nat, x: int, d: Blob)
    requires |rows| == |data| && 0 < n <= |rows| && DistinctIndices(rows)
    ensures (x, d) in Pairs(rows, data)[..n]
        <==> if x == rows[n - 1].chunkIndex then d == data[n - 1] else (x, d) in Pairs(rows, data)[..n - 1]
  {
    var pairs := Pairs(rows, data);
    assert pairs[..n] == pairs[..n - 1] + [pairs[n - 1]];
    assert forall t :: 0 <= t < n - 1 ==> pairs[t].0 == rows[t].chunkIndex != rows[n - 1].chunkIndex;
  }

  lemma AvailablePairs(rows: seq<FileChunk>, data: seq<Blob>)
    requires |rows| == |data| && DistinctIndices(rows)
    ensures forall x, d :: (x, d) in Pairs(rows, data) <==> Lookup(Available(rows, data), x) == Some(d)
  {
    AvailableUpToPairs(rows, data, |rows|);
    assert Pairs(rows, data)[..|rows|] == Pairs(rows, data);
  }

  /** The decoder does not depend on the order of the shards it is given. */
  lemma DecodeIgnoresOrder(codec: Codec, rows: seq<FileChunk>, data: seq<Blob>, rows': seq<FileChunk>, data': seq<Blob>)
    requires |rows| == |data| && |rows'| == |data'|
    requires DistinctIndices(rows) && DistinctIndices(rows')
    requires multiset(Pairs(rows, data)) == multiset(Pairs(rows', data'))
    ensures Reconstruct(codec, Available(rows, data)) == Reconstruct(codec, Available(rows', data'))
  {
    AvailablePairs(rows, data);
    AvailablePairs(rows', data');
    var m, m' := Available(rows, data), Available(rows', data');
    forall x, d
      ensures (x, d) in Pairs(rows, data) <==> (x, d) in Pairs(rows', data')
    {
      assert (x, d) in Pairs(rows, data) <==> (x, d) in multiset(Pairs(rows, data));
      assert (x, d) in Pairs(rows', data') <==> (x, d) in multiset(Pairs(rows', data'));
    }
    forall x
      ensures x in m ==> x in m' && m'[x] == m[x]
      ensures x in m' ==> x in m
    {
      if x in m {
        assert (x, m[x]) in Pairs(rows, data);
        assert Lookup(m', x) == Some(m[x]);
      }
      if x in m' {
        assert (x, m'[x]) in Pairs(rows', data');
        assert Lookup(m, x) == Some(m'[x]);
      }
    }
    assert m.Keys == m'.Keys;
    assert m == m';
  }

  // ---------- emitted shards ----------

  /** Shard number `x` as the encoder emits it. */
  function EmittedShard(codec: Codec, chunks: seq<Blob>, x: int): Option<Blob> {
    if 0 <= x < Kept(codec, chunks) then Some(chunks[x])
    else if codec.dataShards <= x < codec.dataShards + codec.parityShards
      then Some(ParityShards(codec, chunks)[x - codec.dataShards])
    else None
  }

  /** `have` holds some of the emitted shards, unaltered. */
  ghost predicate Surviving(codec: Codec, chunks: seq<Blob>, have: ShardMap) {
    forall x :: x in have ==> EmittedShard(codec, chunks, x) == Some(have[x])
  }

  ghost predicate Complete(codec: Codec, chunks: seq<Blob>, have: ShardMap) {
    && Surviving(codec, chunks, have)
    && forall x :: EmittedShard(codec, chunks, x).Some? ==> x in have
  }

  lemma EmittedDistinct(codec: Codec, chunks: seq<Blob>, sha256: Hash)
    ensures DistinctIndices(EmittedRows(codec, chunks, sha256))
  {
  }

  lemma EmittedSurvive(codec: Codec, chunks: seq<Blob>, sha256: Hash)
    ensures Surviving(codec, chunks, Available(EmittedRows(codec, chunks, sha256), EmittedData(codec, chunks)))
  {
    var rows, data := EmittedRows(codec, chunks, sha256), EmittedData(codec, chunks);
    var pairs, have := Pairs(rows, data), Available(rows, data);
    EmittedDistinct(codec, chunks, sha256);
    AvailablePairs(rows, data);
    forall x | x in have
      ensures EmittedShard(codec, chunks, x) == Some(have[x])
    {
      assert Lookup(have, x) == Some(have[x]);
      var t :| 0 <= t < |pairs| && pairs[t] == (x, have[x]);
      EmittedPair(codec, chunks, sha256, t);
    }
  }

  /** The position at which shard number `x` is emitted. */
  lemma EmittedPosition(codec: Codec, chunks: seq<Blob>, x: int) returns (t: nat)
    requires EmittedShard(codec, chunks, x).Some?
    ensures t < |EmittedData(codec, chunks)| && EmittedIndex(codec, chunks, t) == x
  {
    t := if x < Kept(codec, chunks) then x else Kept(codec, chunks) + (x - codec.dataShards);
  }

  lemma EmittedThere(codec: Codec, chunks: seq<Blob>, sha256: Hash, x: int)
    requires EmittedShard(codec, chunks, x).Some?
    ensures x in Available(EmittedRows(codec, chunks, sha256), EmittedData(codec, chunks))
  {
    var rows, data := EmittedRows(codec, chunks, sha256), EmittedData(codec, chunks);
    var t := EmittedPosition(codec, chunks, x);
    EmittedDistinct(codec, chunks, sha256);
    AvailablePairs(rows, data);
    EmittedPair(codec, chunks, sha256, t);
    assert Pairs(rows, data)[t] == (x, data[t]);
    assert (x, data[t]) in Pairs(rows, data);
  }

  /** Handing the decoder everything the encoder emitted makes every emitted shard available. */
  lemma AllEmittedAvailable(codec: Codec, chunks: seq<Blob>, sha256: Hash)
    ensures Complete(codec, chunks, Available(EmittedRows(codec, chunks, sha256), EmittedData(codec, chunks)))
  {
    EmittedSurvive(codec, chunks, sha256);
    forall x | EmittedShard(codec, chunks, x).Some?
      ensures x in Available(EmittedRows(codec, chunks, sha256), EmittedData(codec, chunks))
    {
      EmittedThere(codec, chunks, sha256, x);
    }
  }

  lemma EmittedPair(codec: Codec, chunks: seq<Blob>, sha256: Hash, t: nat)
    requires t < |EmittedData(codec, chunks)|
    ensures EmittedRows(codec, chunks, sha256)[t].chunkIndex == EmittedIndex(codec, chunks, t)
    ensures EmittedShard(codec, chunks, EmittedIndex(codec, chunks, t)) == Some(EmittedData(codec, chunks)[t])
  {
  }

  /** Any selection of the emitted pairs, in any order, survives unaltered. */
  lemma SelectionSurvives(codec: Codec, chunks: seq<Blob>, sha256: Hash, picks: seq<nat>)
    requires forall t :: 0 <= t < |picks| ==> picks[t] < |EmittedData(codec, chunks)|
    requires forall s, t :: 0 <= s < t < |picks| ==> picks[s] != picks[t]
    ensures
      var rows := seq(|picks|, t requires 0 <= t < |picks| => EmittedRows(codec, chunks, sha256)[picks[t]]);
      var data := seq(|picks|, t requires 0 <= t < |picks| => EmittedData(codec, chunks)[picks[t]]);
      && Surviving(codec, chunks, Available(rows, data))
      && forall x :: x in Available(rows, data) <==> exists t :: 0 <= t < |picks| && rows[t].chunkIndex == x
  {
    var rows := seq(|picks|, t requires 0 <= t < |picks| => EmittedRows(codec, chunks, sha256)[picks[t]]);
    var data := seq(|picks|, t requires 0 <= t < |picks| => EmittedData(codec, chunks)[picks[t]]);
    var have, pairs := Available(rows, data), Pairs(rows, data);
    forall s, t | 0 <= s < t < |rows|
      ensures rows[s].chunkIndex != rows[t].chunkIndex
    {
      EmittedPair(codec, chunks, sha256, picks[s]);
      EmittedPair(codec, chunks, sha256, picks[t]);
    }
    AvailablePairs(rows, data);
    forall x | x in have
      ensures EmittedShard(codec, chunks, x) == Some(have[x])
      ensures exists t :: 0 <= t < |picks| && rows[t].chunkIndex == x
    {
      assert (x, have[x]) in pairs;
      var t :| 0 <= t < |pairs| && pairs[t] == (x, have[x]);
      EmittedPair(codec, chunks, sha256, picks[t]);
      assert rows[t].chunkIndex == x;
    }
    forall t | 0 <= t < |picks|
      ensures rows[t].chunkIndex in have
    {
      assert (rows[t].chunkIndex, data[t]) in pairs by { assert pairs[t] == (rows[t].chunkIndex, data[t]); }
    }
  }

  // ---------- the syndrome ----------

  function Disturbed(column: seq<Byte>): seq<Byte> {
    seq(|column|, t requires 0 <= t < |column| => Xor(column[t], Mul(column[t], ByteOf(t + 1))))
  }

  function SyndromeByte(column: seq<Byte>): Byte {
    XorSum(Disturbed(column))
  }

  /** What recovery adds to a lost shard: exclusive or over the shards of d_t and (t+1) d_t. */
  function Syndrome(shards: seq<Blob>, size: nat): Blob
    requires Rectangular(shards, |shards|, size)
  {
    seq(size, b requires 0 <= b < size => SyndromeByte(Column(shards, size, b)))
  }

  lemma {:induction false} XorSumZip(xs: seq<Byte>, ys: seq<Byte>, zs: seq<Byte>)
    requires |xs| == |ys| == |zs|
    requires forall t :: 0 <= t < |xs| ==> zs[t] == Xor(xs[t], ys[t])
    ensures XorSum(zs) == Xor(XorSum(xs), XorSum(ys))
  {
    if xs == [] {
      XorLaws(0, 0, 0);
    } else {
      var n := |xs| - 1;
      XorSumZip(xs[..n], ys[..n], zs[..n]);
      XorShuffle(XorSum(xs[..n]), XorSum(ys[..n]), xs[n], ys[n]);
    }
  }

  lemma XorShuffle(a: Byte, b: Byte, c: Byte, d: Byte)
    ensures Xor(Xor(a, b), Xor(c, d)) == Xor(Xor(a, c), Xor(b, d))
  {
    XorLaws(Xor(a, b), c, d);
    XorSwap(a, b, c);
    XorLaws(Xor(a, c), b, d);
  }

  lemma SyndromeIsSumPlusParity(column: seq<Byte>)
    ensures SyndromeByte(column) == Xor(XorSum(column), ParityByte(column, 0))
  {
    XorSumZip(column, Weighted(column, 0), Disturbed(column));
  }
}
