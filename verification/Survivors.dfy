/** The decoder's exact answer for any loss, however many shards are gone. */
module Survivors {
  import opened Bytes
  import opened Domain
  import opened Erasure
  import opened Recovery
  import opened RoundTrip
  import opened Losses

  /** How the chunker cuts: no chunk is empty and all but the last are of one size. */
  predicate Cut(chunks: seq<Blob>) {
    && (forall t :: 0 <= t < |chunks| ==> chunks[t] != [])
    && forall t :: 0 <= t < |chunks| - 1 ==> |chunks[t]| == ShardSize(chunks)
  }

  // ---------- what stands in for a lost shard ----------

  /** The data column with zeros where the shard is available. */
  function LostColumn(codec: Codec, chunks: seq<Blob>, have: ShardMap, b: nat): seq<Byte>
    requires b < ShardSize(chunks)
  {
    seq(codec.dataShards, t requires 0 <= t < codec.dataShards =>
      if t in have then 0 else DataColumn(codec, chunks, b)[t])
  }

  /** Exclusive or of the lost data shards. */
  function LostSum(codec: Codec, chunks: seq<Blob>, have: ShardMap): Blob {
    seq(ShardSize(chunks), b requires 0 <= b < ShardSize(chunks) => XorSum(LostColumn(codec, chunks, have, b)))
  }

  /** Parity 0 gives the first lost shard all the lost shards and the syndrome; any other parity shard gives zeros. */
  function Replacement(codec: Codec, chunks: seq<Blob>, have: ShardMap, j: nat): Blob {
    if codec.dataShards in have && Rank(have, j) == 0
    then XorBlobs(LostSum(codec, chunks, have), ChunkSyndrome(codec, chunks))
    else Zeros(ShardSize(chunks))
  }

  lemma ColumnSplits(codec: Codec, chunks: seq<Blob>, have: ShardMap, b: nat)
    requires b < ShardSize(chunks)
    ensures XorSum(DataColumn(codec, chunks, b))
        == Xor(XorSum(Masked(codec, chunks, have, b)), XorSum(LostColumn(codec, chunks, have, b)))
  {
    var all, kept := DataColumn(codec, chunks, b), Masked(codec, chunks, have, b);
    var lost := LostColumn(codec, chunks, have, b);
    forall t | 0 <= t < codec.dataShards
      ensures all[t] == Xor(kept[t], lost[t])
    {
      XorLaws(all[t], 0, 0);
    }
    XorSumZip(kept, lost, all);
  }

  lemma CancelKept(kept: Byte, lost: Byte, parity: Byte)
    ensures Xor(lost, Xor(Xor(kept, lost), parity)) == Xor(kept, parity)
  {
    XorLaws(Xor(kept, lost), parity, lost);
    XorLaws(lost, Xor(kept, lost), parity);
    XorLaws(lost, Xor(kept, lost), 0);
    XorLaws(kept, lost, 0);
  }

  lemma BlockIsLostAndSyndrome(codec: Codec, chunks: seq<Blob>, have: ShardMap)
    requires Surviving(codec, chunks, have) && codec.dataShards in have
    ensures XorBlock(have, codec.dataShards) == XorBlobs(LostSum(codec, chunks, have), ChunkSyndrome(codec, chunks))
  {
    XorBlockSize(codec, chunks, have);
    forall b: nat | b < ShardSize(chunks)
      ensures XorBlock(have, codec.dataShards)[b]
          == Xor(LostSum(codec, chunks, have)[b], ChunkSyndrome(codec, chunks)[b])
    {
      var column := DataColumn(codec, chunks, b);
      XorBlockByte(codec, chunks, have, b);
      ColumnSplits(codec, chunks, have, b);
      SyndromeIsSumPlusParity(column);
      CancelKept(XorSum(Masked(codec, chunks, have, b)), XorSum(LostColumn(codec, chunks, have, b)),
                 ParityByte(column, 0));
    }
  }

  lemma {:induction false} ParityAscends(have: ShardMap, k: nat, t: nat, r: nat)
    requires r < |PresentParity(have, k, t)|
    ensures PresentParity(have, k, t)[r] >= k + r
    ensures |PresentParity(have, k, t)| <= t - k
  {
    if r < |PresentParity(have, k, t - 1)| {
      ParityAscends(have, k, t - 1, r);
    } else if r > 0 {
      ParityAscends(have, k, t - 1, r - 1);
    }
  }

  /** Only parity 0 brings the exclusive-or block, and only for the first lost shard. */
  lemma BlockOrZeros(codec: Codec, have: ShardMap, j: nat)
    requires Rank(have, j) < ParityLeft(codec, have)
    ensures codec.dataShards in have && Rank(have, j) == 0 ==> Refill(codec, have, j) == XorBlock(have, codec.dataShards)
    ensures !(codec.dataShards in have && Rank(have, j) == 0) ==>
      exists x :: x in have && Refill(codec, have, j) == Zeros(|have[x]|)
  {
    var k, t, r := codec.dataShards, codec.dataShards + codec.parityShards, Rank(have, j);
    PresentParityIsPresent(have, k, t, r);
    ParityAscends(have, k, t, r);
    var x := PresentParity(have, k, t)[r];
    if k in have {
      ParityZeroFirst(have, k, t);
    }
    assert x != k ==> Refill(codec, have, j) == Zeros(|have[x]|);
  }

  lemma SlotIsReplacement(codec: Codec, chunks: seq<Blob>, have: ShardMap, j: nat)
    requires Surviving(codec, chunks, have) && j < codec.dataShards && j !in have
    requires Rank(have, j) < ParityLeft(codec, have)
    ensures Slot(codec, have, j) == Replacement(codec, chunks, have, j)
  {
    BlockOrZeros(codec, have, j);
    if codec.dataShards in have && Rank(have, j) == 0 {
      BlockIsLostAndSyndrome(codec, chunks, have);
    } else {
      RefillSize(codec, chunks, have, j);
    }
  }

  // ---------- lengths ----------

  /** Bytes of the data shards below `n` that are lost. */
  function LostBytes(chunks: seq<Blob>, have: ShardMap, n: nat): nat
    requires n <= |chunks|
  {
    if n == 0 then 0
    else LostBytes(chunks, have, n - 1) + (if n - 1 in have then 0 else |chunks[n - 1]|)
  }

  lemma {:induction false} PresentAndLost(codec: Codec, chunks: seq<Blob>, have: ShardMap, n: nat)
    requires Surviving(codec, chunks, have) && n <= codec.dataShards && n <= |chunks|
    ensures TotalSize(chunks[..n]) == PresentBytes(have, n) + LostBytes(chunks, have, n)
  {
    if n > 0 {
      PresentAndLost(codec, chunks, have, n - 1);
      assert chunks[..n][..n - 1] == chunks[..n - 1];
      if n - 1 in have {
        assert EmittedShard(codec, chunks, n - 1) == Some(have[n - 1]);
      }
    }
  }

  lemma {:induction false} LostBelowLast(chunks: seq<Blob>, have: ShardMap, n: nat)
    requires Cut(chunks) && n < |chunks|
    ensures LostBytes(chunks, have, n) == Rank(have, n) * ShardSize(chunks)
  {
    if n > 0 {
      LostBelowLast(chunks, have, n - 1);
      OneMore(Rank(have, n - 1), ShardSize(chunks));
    }
  }

  /** The lost bytes fill all their shards but the last, and that one too unless the short chunk is lost. */
  lemma LostBounds(chunks: seq<Blob>, have: ShardMap, n: nat)
    requires Cut(chunks) && n <= |chunks| && Rank(have, n) > 0
    ensures (Rank(have, n) - 1) * ShardSize(chunks) < LostBytes(chunks, have, n) <= Rank(have, n) * ShardSize(chunks)
    ensures LostBytes(chunks, have, n) == Rank(have, n) * ShardSize(chunks) ==>
      n - 1 in have || |chunks[n - 1]| == ShardSize(chunks)
  {
    var last := chunks[n - 1];
    LostBelowLast(chunks, have, n - 1);
    ShardSizeBounds(chunks, n - 1);
    assert |last| > 0;
    OneMore(Rank(have, n) - 1, ShardSize(chunks));
  }

  /** Only the last chunk can be short. */
  lemma LostAreFull(chunks: seq<Blob>, have: ShardMap, n: nat)
    requires Cut(chunks) && n <= |chunks|
    requires n > 0 ==> n - 1 in have || |chunks[n - 1]| == ShardSize(chunks)
    ensures forall j: nat :: j < n && j !in have ==> |chunks[j]| == ShardSize(chunks)
  {
  }

  /** A number of whole shards is the lost bytes exactly when it is the number of lost chunks, all of full size. */
  lemma WholeShards(r: nat, refilled: nat, size: nat, lost: nat)
    requires size > 0
    requires r > 0 ==> (r - 1) * size < lost <= r * size
    requires r == 0 ==> lost == 0
    ensures refilled * size == lost <==> refilled == r && lost == r * size
  {
    if refilled < r {
      MulMonotone(refilled, r - 1, size);
    } else if refilled > r {
      MulMonotone(r + 1, refilled, size);
      OneMore(r, size);
    }
  }

  lemma {:induction false} RankOfMissing(have: ShardMap, n: nat, j: nat)
    requires n <= j && forall x :: n <= x < j ==> x !in have
    ensures Rank(have, j) == Rank(have, n) + (j - n)
    ensures PresentBytes(have, j) == PresentBytes(have, n)
  {
    if n < j {
      RankOfMissing(have, n, j - 1);
    }
  }

  /** Data shards beyond the chunks are not emitted. */
  lemma PaddingMissing(codec: Codec, chunks: seq<Blob>, have: ShardMap)
    requires Surviving(codec, chunks, have)
    ensures forall x :: Kept(codec, chunks) <= x < codec.dataShards ==> x !in have
  {
    forall x | Kept(codec, chunks) <= x < codec.dataShards
      ensures x !in have
    {
      assert EmittedShard(codec, chunks, x) == None;
    }
  }

  /**
   * The parity shards left suffice for the lost chunks; for an object of fewer chunks than data shards they must also
   * be no more than those, as each further one would add a block.
   */
  predicate Enough(codec: Codec, chunks: seq<Blob>, have: ShardMap) {
    if |chunks| < codec.dataShards then ParityLeft(codec, have) == Rank(have, |chunks|)
    else Rank(have, codec.dataShards) <= ParityLeft(codec, have)
  }

  /** As many shards are refilled as chunks are lost. */
  lemma RefilledAreLost(codec: Codec, chunks: seq<Blob>, have: ShardMap)
    requires Surviving(codec, chunks, have)
    ensures Min(Rank(have, codec.dataShards), ParityLeft(codec, have)) == Rank(have, Kept(codec, chunks))
        <==> Enough(codec, chunks, have)
    ensures PresentBytes(have, codec.dataShards) == PresentBytes(have, Kept(codec, chunks))
  {
    PaddingMissing(codec, chunks, have);
    RankOfMissing(have, Kept(codec, chunks), codec.dataShards);
  }

  lemma CutShards(chunks: seq<Blob>)
    requires Cut(chunks) && chunks != []
    ensures ShardSize(chunks) > 0
  {
    ShardSizeBounds(chunks, 0);
    assert chunks[0] != [];
  }

  /** A result of the right length needs as many parity shards as lost chunks and no short chunk among them. */
  lemma RightLength(codec: Codec, chunks: seq<Blob>, have: ShardMap)
    requires Surviving(codec, chunks, have) && Cut(chunks) && chunks != []
    ensures |Reconstruct(codec, have)| == |Concat(chunks[..Kept(codec, chunks)])| ==>
      && Enough(codec, chunks, have)
      && forall j: nat :: j < Kept(codec, chunks) && j !in have ==> |chunks[j]| == ShardSize(chunks)
  {
    var k, n := codec.dataShards, Kept(codec, chunks);
    ReconstructSize(codec, chunks, have);
    ConcatSize(chunks[..n]);
    PresentAndLost(codec, chunks, have, n);
    RefilledAreLost(codec, chunks, have);
    if |Reconstruct(codec, have)| == |Concat(chunks[..n])| {
      LostWhole(chunks, have, n, Min(Rank(have, k), ParityLeft(codec, have)));
    }
  }

  lemma LostWhole(chunks: seq<Blob>, have: ShardMap, n: nat, refilled: nat)
    requires Cut(chunks) && chunks != [] && n <= |chunks|
    requires refilled * ShardSize(chunks) == LostBytes(chunks, have, n)
    ensures refilled == Rank(have, n)
    ensures forall j: nat :: j < n && j !in have ==> |chunks[j]| == ShardSize(chunks)
  {
    CutShards(chunks);
    if Rank(have, n) > 0 {
      LostBounds(chunks, have, n);
    } else {
      NothingMissing(have, n);
      NothingLost(chunks, have, n);
    }
    WholeShards(Rank(have, n), refilled, ShardSize(chunks), LostBytes(chunks, have, n));
    LostAreFull(chunks, have, n);
  }

  lemma {:induction false} NothingLost(chunks: seq<Blob>, have: ShardMap, n: nat)
    requires n <= |chunks| && forall j :: 0 <= j < n ==> j in have
    ensures LostBytes(chunks, have, n) == 0
  {
    if n > 0 {
      NothingLost(chunks, have, n - 1);
    }
  }

  // ---------- slots ----------

  lemma {:induction false} SameBlocks(xs: seq<Blob>, ys: seq<Blob>)
    requires |xs| == |ys| && forall t :: 0 <= t < |xs| ==> |xs[t]| == |ys[t]|
    ensures Concat(xs) == Concat(ys) ==> xs == ys
  {
    if xs != [] && Concat(xs) == Concat(ys) {
      var n := |xs| - 1;
      SameBlocks(xs[..n], ys[..n]);
      SameTails(Concat(xs[..n]), xs[n], Concat(ys[..n]), ys[n]);
      assert xs == xs[..n] + [xs[n]] && ys == ys[..n] + [ys[n]];
    }
  }

  lemma SameTails(a: Blob, x: Blob, b: Blob, y: Blob)
    requires |x| == |y| && a + x == b + y
    ensures a == b && x == y
  {
    assert |a| == |b|;
    assert a == (a + x)[..|a|] && b == (b + y)[..|b|];
    assert x == (a + x)[|a|..] && y == (b + y)[|b|..];
  }

  lemma {:induction false} RankGrowsBelow(have: ShardMap, j: nat, k: nat)
    requires j < k && j !in have
    ensures Rank(have, j) < Rank(have, k)
  {
    RankStep(have, j);
    RankMonotone(have, j + 1, k);
  }

  lemma SlotOfChunk(codec: Codec, chunks: seq<Blob>, have: ShardMap, j: nat)
    requires Surviving(codec, chunks, have) && j < Kept(codec, chunks) && Enough(codec, chunks, have)
    ensures Slot(codec, have, j) == if j in have then chunks[j] else Replacement(codec, chunks, have, j)
    ensures j !in have ==> |Slot(codec, have, j)| == ShardSize(chunks)
  {
    if j in have {
      assert EmittedShard(codec, chunks, j) == Some(have[j]);
    } else {
      RankGrowsBelow(have, j, Kept(codec, chunks));
      SlotIsReplacement(codec, chunks, have, j);
      RefillSize(codec, chunks, have, j);
    }
  }

  lemma SlotOfPadding(codec: Codec, chunks: seq<Blob>, have: ShardMap, j: nat)
    requires Surviving(codec, chunks, have) && Enough(codec, chunks, have)
    requires Kept(codec, chunks) <= j < codec.dataShards
    ensures Slot(codec, have, j) == []
  {
    PaddingMissing(codec, chunks, have);
    RankMonotone(have, Kept(codec, chunks), j);
    RefillSize(codec, chunks, have, j);
  }

  lemma OnlyChunkSlots(codec: Codec, chunks: seq<Blob>, have: ShardMap)
    requires Surviving(codec, chunks, have) && Enough(codec, chunks, have)
    ensures Reconstruct(codec, have) == Concat(Slots(codec, have)[..Kept(codec, chunks)])
  {
    var n, slots := Kept(codec, chunks), Slots(codec, have);
    forall t | 0 <= t < |slots[n..]|
      ensures slots[n..][t] == []
    {
      SlotOfPadding(codec, chunks, have, n + t);
    }
    ConcatEmpty(slots[n..]);
    ConcatAppend(slots[..n], slots[n..]);
    assert slots[..n] + slots[n..] == slots;
  }

  /** What stands in for each lost chunk happens to be that chunk. */
  ghost predicate Replaced(codec: Codec, chunks: seq<Blob>, have: ShardMap) {
    forall j: nat :: j < Kept(codec, chunks) && j !in have ==> Replacement(codec, chunks, have, j) == chunks[j]
  }

  lemma ReplacementSize(codec: Codec, chunks: seq<Blob>, have: ShardMap, j: nat)
    ensures |Replacement(codec, chunks, have, j)| == ShardSize(chunks)
  {
  }

  lemma EnoughRightExactly(codec: Codec, chunks: seq<Blob>, have: ShardMap)
    requires Surviving(codec, chunks, have) && Enough(codec, chunks, have)
    requires forall j: nat :: j < Kept(codec, chunks) && j !in have ==> |chunks[j]| == ShardSize(chunks)
    ensures Reconstruct(codec, have) == Concat(chunks[..Kept(codec, chunks)]) <==> Replaced(codec, chunks, have)
  {
    var n := Kept(codec, chunks);
    var slots, kept := Slots(codec, have)[..n], chunks[..n];
    OnlyChunkSlots(codec, chunks, have);
    forall j: nat | j < n
      ensures slots[j] == (if j in have then kept[j] else Replacement(codec, chunks, have, j)) && |slots[j]| == |kept[j]|
    {
      SlotOfChunk(codec, chunks, have, j);
    }
    SameBlocks(slots, kept);
    if slots == kept {
      assert forall j: nat :: j < n ==> slots[j] == kept[j];
    }
    if Replaced(codec, chunks, have) {
      assert slots == kept;
    }
  }

  lemma SlotsRightExactly(codec: Codec, chunks: seq<Blob>, have: ShardMap)
    requires Surviving(codec, chunks, have) && Cut(chunks) && chunks != []
    ensures Reconstruct(codec, have) == Concat(chunks[..Kept(codec, chunks)])
        <==> Enough(codec, chunks, have) && Replaced(codec, chunks, have)
  {
    var n := Kept(codec, chunks);
    RightLength(codec, chunks, have);
    forall j: nat | j < n && j !in have && Replaced(codec, chunks, have)
      ensures |chunks[j]| == ShardSize(chunks)
    {
      ReplacementSize(codec, chunks, have, j);
    }
    if Enough(codec, chunks, have) && (Replaced(codec, chunks, have) || Reconstruct(codec, have) == Concat(chunks[..n])) {
      EnoughRightExactly(codec, chunks, have);
    }
  }

  // ---------- the exact condition ----------

  /** The lost shard that parity 0 stands in for. */
  predicate Mended(codec: Codec, have: ShardMap, j: nat) {
    codec.dataShards in have && Rank(have, j) == 0
  }

  /** What a lost chunk must be to come back: zeros, or full size in an object without syndrome. */
  predicate Spared(codec: Codec, chunks: seq<Blob>, have: ShardMap, j: nat)
    requires j < |chunks|
  {
    if Mended(codec, have, j)
    then |chunks[j]| == ShardSize(chunks) && ChunkSyndrome(codec, chunks) == Zeros(ShardSize(chunks))
    else chunks[j] == Zeros(ShardSize(chunks))
  }

  /** All lost chunks but the mended one are zeros. */
  predicate OthersZero(codec: Codec, chunks: seq<Blob>, have: ShardMap) {
    forall i: nat :: i < Kept(codec, chunks) && i !in have && !Mended(codec, have, i) ==>
      chunks[i] == Zeros(ShardSize(chunks))
  }

  lemma LostSumOfOne(codec: Codec, chunks: seq<Blob>, have: ShardMap, j: nat)
    requires OthersZero(codec, chunks, have) && j < Kept(codec, chunks) && j !in have && Mended(codec, have, j)
    ensures LostSum(codec, chunks, have) == Pad(chunks[j], ShardSize(chunks))
  {
    forall b: nat | b < ShardSize(chunks)
      ensures LostSum(codec, chunks, have)[b] == Pad(chunks[j], ShardSize(chunks))[b]
    {
      var lost := LostColumn(codec, chunks, have, b);
      forall t | 0 <= t < |lost| && t != j
        ensures lost[t] == 0
      {
        if t !in have {
          RankInjective(have, t, j);
          DataByte(codec, chunks, b, t);
          assert t < |chunks| ==> chunks[t] == Zeros(ShardSize(chunks));
        }
      }
      XorSumSingle(lost, j);
    }
  }

  lemma SparedIsReplaced(codec: Codec, chunks: seq<Blob>, have: ShardMap, j: nat)
    requires OthersZero(codec, chunks, have) && j < Kept(codec, chunks) && j !in have
    ensures Replacement(codec, chunks, have, j) == chunks[j] <==> Spared(codec, chunks, have, j)
  {
    if Mended(codec, have, j) {
      var size, syndrome := ShardSize(chunks), ChunkSyndrome(codec, chunks);
      LostSumOfOne(codec, chunks, have, j);
      if |chunks[j]| == size {
        assert Pad(chunks[j], size) == chunks[j];
        XorBlobsNeutral(chunks[j], syndrome);
      }
    }
  }

  ghost predicate AllSpared(codec: Codec, chunks: seq<Blob>, have: ShardMap) {
    forall j: nat :: j < Kept(codec, chunks) && j !in have ==> Spared(codec, chunks, have, j)
  }

  /**
   * Whatever is lost of an object cut into chunks, the decoder gives it back, as far as it was kept, if and only if
   * the parity shards left are enough and every lost chunk is a full shard of zeros, except that the first lost chunk
   * may hold anything when parity 0 is left, provided it has full size and the object's syndrome is zero.
   */
  lemma AnyLossRightExactly(codec: Codec, chunks: seq<Blob>, have: ShardMap)
    requires Surviving(codec, chunks, have) && Cut(chunks) && chunks != []
    ensures Reconstruct(codec, have) == Concat(chunks[..Kept(codec, chunks)])
        <==> Enough(codec, chunks, have) && AllSpared(codec, chunks, have)
  {
    SlotsRightExactly(codec, chunks, have);
    if OthersZero(codec, chunks, have) {
      forall j: nat | j < Kept(codec, chunks) && j !in have
        ensures Replacement(codec, chunks, have, j) == chunks[j] <==> Spared(codec, chunks, have, j)
      {
        SparedIsReplaced(codec, chunks, have, j);
      }
    }
  }

  /**
   * An object of which no chunk is lost comes back if and only if its chunks fill the data shards, or all parity is
   * gone: with fewer chunks than data shards every parity shard left adds a block.
   */
  lemma NoChunkLostExactly(codec: Codec, chunks: seq<Blob>, have: ShardMap)
    requires Surviving(codec, chunks, have) && Cut(chunks) && 0 < |chunks| <= codec.dataShards
    requires forall j :: 0 <= j < |chunks| ==> j in have
    ensures Reconstruct(codec, have) == Concat(chunks) <==> |chunks| == codec.dataShards || ParityLeft(codec, have) == 0
  {
    AnyLossRightExactly(codec, chunks, have);
    assert chunks[..|chunks|] == chunks;
    RankAfter(have, |chunks|, |chunks|);
  }

  predicate NoneOf(have: ShardMap, from: nat, to: nat) {
    forall x :: from <= x < to ==> x !in have
  }

  lemma {:induction false} NoParityExactly(have: ShardMap, k: nat, t: nat)
    ensures PresentParity(have, k, t) == [] <==> NoneOf(have, k, t)
  {
    if k < t {
      NoParityExactly(have, k, t - 1);
    }
  }

  /** No chunks, no bytes. */
  lemma NothingOfNothing(codec: Codec, have: ShardMap)
    requires Surviving(codec, [], have)
    ensures Reconstruct(codec, have) == []
  {
    ReconstructSize(codec, [], have);
    RefilledAreLost(codec, [], have);
    assert PresentBytes(have, 0) == 0;
  }

  /** Of more chunks than data shards no more than the kept ones can come back. */
  lemma AtMostKept(codec: Codec, chunks: seq<Blob>, have: ShardMap)
    requires Surviving(codec, chunks, have) && Cut(chunks) && |chunks| > codec.dataShards
    ensures |Reconstruct(codec, have)| <= TotalSize(chunks[..codec.dataShards])
  {
    var k := codec.dataShards;
    ReconstructSize(codec, chunks, have);
    PresentAndLost(codec, chunks, have, k);
    LostBelowLast(chunks, have, k);
    MulMonotone(Min(Rank(have, k), ParityLeft(codec, have)), Rank(have, k), ShardSize(chunks));
  }

  lemma SurplusLost(codec: Codec, chunks: seq<Blob>, have: ShardMap)
    requires Surviving(codec, chunks, have) && Cut(chunks) && |chunks| > codec.dataShards
    ensures Reconstruct(codec, have) != Concat(chunks)
  {
    var k := codec.dataShards;
    AtMostKept(codec, chunks, have);
    TotalOfParts(chunks, k);
    ConcatSize(chunks);
    TotalSizeTail(chunks[k..]);
  }

  lemma TotalOfParts(chunks: seq<Blob>, k: nat)
    requires k <= |chunks|
    ensures TotalSize(chunks) == TotalSize(chunks[..k]) + TotalSize(chunks[k..])
  {
    assert chunks == chunks[..k] + chunks[k..];
    ConcatAppend(chunks[..k], chunks[k..]);
  }
}
