/** The decoder's exact answer when all shards are there, when parity is lost, and when one data shard is lost. */
module Losses {
  import opened Bytes
  import opened Domain
  import opened Erasure
  import opened Recovery
  import opened Recoverability
  import opened RoundTrip

  // ---------- lists of blobs ----------

  lemma {:induction false} ConcatEmpty(blobs: seq<Blob>)
    requires forall t :: 0 <= t < |blobs| ==> blobs[t] == []
    ensures Concat(blobs) == []
  {
    if blobs != [] {
      ConcatEmpty(blobs[..|blobs| - 1]);
    }
  }

  lemma {:induction false} TotalOfEqual(blobs: seq<Blob>, size: nat)
    requires forall t :: 0 <= t < |blobs| ==> |blobs[t]| == size
    ensures TotalSize(blobs) == |blobs| * size
  {
    if blobs != [] {
      var n := |blobs| - 1;
      TotalOfEqual(blobs[..n], size);
      assert n * size + size == (n + 1) * size;
    }
  }

  lemma ConcatAround(blobs: seq<Blob>, j: nat)
    requires j < |blobs|
    ensures Concat(blobs) == Concat(blobs[..j]) + blobs[j] + Concat(blobs[j + 1..])
  {
    assert blobs == blobs[..j + 1] + blobs[j + 1..];
    ConcatAppend(blobs[..j + 1], blobs[j + 1..]);
    ConcatNext(blobs, j);
  }

  lemma ConcatNext(blobs: seq<Blob>, j: nat)
    requires j < |blobs|
    ensures Concat(blobs[..j + 1]) == Concat(blobs[..j]) + blobs[j]
  {
    assert blobs[..j + 1][..j] == blobs[..j];
  }

  /** Replacing one block changes the concatenation unless the block stays the same. */
  lemma ConcatReplaced(blobs: seq<Blob>, j: nat, d: Blob)
    requires j < |blobs|
    ensures Concat(blobs[j := d]) == Concat(blobs) <==> d == blobs[j]
  {
    var changed := blobs[j := d];
    if d == blobs[j] {
      assert changed == blobs;
    } else {
      ConcatAround(blobs, j);
      ConcatAround(changed, j);
      assert changed[..j] == blobs[..j] && changed[j + 1..] == blobs[j + 1..];
      SameMiddle(Concat(blobs[..j]), d, blobs[j], Concat(blobs[j + 1..]));
    }
  }

  lemma SameMiddle(before: Blob, x: Blob, y: Blob, after: Blob)
    ensures before + x + after == before + y + after ==> x == y
  {
    if before + x + after == before + y + after {
      assert |x| == |y|;
      assert x == (before + x + after)[|before|..|before| + |x|];
      assert y == (before + y + after)[|before|..|before| + |x|];
    }
  }

  // ---------- ranks and parity when the losses are known ----------

  lemma {:induction false} RankAfter(have: ShardMap, n: nat, j: nat)
    requires n <= j
    requires forall x :: 0 <= x < n ==> x in have
    requires forall x :: n <= x < j ==> x !in have
    ensures Rank(have, j) == j - n
  {
    if j > 0 {
      RankAfter(have, Min(n, j - 1), j - 1);
    }
  }

  lemma {:induction false} ParityAllPresent(have: ShardMap, k: nat, t: nat)
    requires k <= t
    requires forall i :: k <= i < t ==> i in have
    ensures |PresentParity(have, k, t)| == t - k
    ensures forall r :: 0 <= r < t - k ==> PresentParity(have, k, t)[r] == k + r
  {
    if k < t {
      ParityAllPresent(have, k, t - 1);
    }
  }

  lemma {:induction false} ParityZeroFirst(have: ShardMap, k: nat, t: nat)
    requires k < t && k in have
    ensures |PresentParity(have, k, t)| > 0 && PresentParity(have, k, t)[0] == k
  {
    if k + 1 < t {
      ParityZeroFirst(have, k, t - 1);
    }
  }

  // ---------- the exclusive-or block ----------

  function DataColumn(codec: Codec, chunks: seq<Blob>, b: nat): seq<Byte>
    requires b < ShardSize(chunks)
  {
    Column(PaddedShards(codec.dataShards, chunks), ShardSize(chunks), b)
  }

  lemma DataByte(codec: Codec, chunks: seq<Blob>, b: nat, t: nat)
    requires b < ShardSize(chunks) && t < codec.dataShards
    ensures DataColumn(codec, chunks, b)[t] == if t < |chunks| && b < |chunks[t]| then chunks[t][b] else 0
  {
    var shards: seq<Blob>, size := PaddedShards(codec.dataShards, chunks), ShardSize(chunks);
    var d: Blob := if t < |chunks| then chunks[t] else [];
    assert shards[t] == Pad(d, size);
    assert DataColumn(codec, chunks, b) == Column(shards, size, b);
    assert Column(shards, size, b)[t] == shards[t][b];
  }

  /** The data column with zeros where the shard is not available. */
  function Masked(codec: Codec, chunks: seq<Blob>, have: ShardMap, b: nat): seq<Byte>
    requires b < ShardSize(chunks)
  {
    seq(codec.dataShards, t requires 0 <= t < codec.dataShards =>
      if t in have then DataColumn(codec, chunks, b)[t] else 0)
  }

  lemma MaskedIsPresent(codec: Codec, chunks: seq<Blob>, have: ShardMap, b: nat, t: nat)
    requires Surviving(codec, chunks, have) && b < ShardSize(chunks) && t < codec.dataShards
    ensures Masked(codec, chunks, have, b)[t] == if t in have && b < |have[t]| then have[t][b] else 0
  {
    if t in have {
      assert EmittedShard(codec, chunks, t) == Some(have[t]);
    }
  }

  lemma XorBlockByte(codec: Codec, chunks: seq<Blob>, have: ShardMap, b: nat)
    requires Surviving(codec, chunks, have) && codec.dataShards in have && b < ShardSize(chunks)
    ensures |XorBlock(have, codec.dataShards)| == ShardSize(chunks)
    ensures XorBlock(have, codec.dataShards)[b]
        == Xor(XorSum(Masked(codec, chunks, have, b)), ParityByte(DataColumn(codec, chunks, b), 0))
  {
    var k := codec.dataShards;
    assert EmittedShard(codec, chunks, k) == Some(have[k]);
    assert have[k] == ParityShards(codec, chunks)[0];
    var masked := Masked(codec, chunks, have, b);
    forall t | 0 <= t < k
      ensures masked[t] == if t in have && b < |have[t]| then have[t][b] else 0
    {
      MaskedIsPresent(codec, chunks, have, b, t);
    }
    XorPresentIsSum(have, k, b, masked);
    assert masked[..k] == masked;
  }

  lemma XorBlockSize(codec: Codec, chunks: seq<Blob>, have: ShardMap)
    requires Surviving(codec, chunks, have) && codec.dataShards in have
    ensures |XorBlock(have, codec.dataShards)| == ShardSize(chunks)
  {
    assert EmittedShard(codec, chunks, codec.dataShards) == Some(have[codec.dataShards]);
    assert have[codec.dataShards] == ParityShards(codec, chunks)[0];
  }

  // ---------- every shard present ----------

  function ChunkSyndrome(codec: Codec, chunks: seq<Blob>): Blob {
    Syndrome(PaddedShards(codec.dataShards, chunks), ShardSize(chunks))
  }

  /** The blocks the decoder appends when there are fewer chunks than data shards. */
  function Filler(codec: Codec, chunks: seq<Blob>): seq<Blob> {
    var blocks: nat := Min(codec.dataShards - Kept(codec, chunks), codec.parityShards);
    seq(blocks, t requires 0 <= t < blocks => if t == 0 then ChunkSyndrome(codec, chunks) else Zeros(ShardSize(chunks)))
  }

  lemma CompleteMask(codec: Codec, chunks: seq<Blob>, have: ShardMap, b: nat)
    requires Complete(codec, chunks, have) && b < ShardSize(chunks)
    ensures Masked(codec, chunks, have, b) == DataColumn(codec, chunks, b)
  {
    forall t | 0 <= t < codec.dataShards && t !in have
      ensures DataColumn(codec, chunks, b)[t] == 0
    {
      assert EmittedShard(codec, chunks, t) == None;
      assert DataColumn(codec, chunks, b)[t] == PaddedShards(codec.dataShards, chunks)[t][b];
    }
  }

  lemma CompleteXorBlock(codec: Codec, chunks: seq<Blob>, have: ShardMap)
    requires Complete(codec, chunks, have) && codec.dataShards in have
    ensures XorBlock(have, codec.dataShards) == ChunkSyndrome(codec, chunks)
  {
    XorBlockSize(codec, chunks, have);
    forall b: nat | b < ShardSize(chunks)
      ensures XorBlock(have, codec.dataShards)[b] == SyndromeByte(DataColumn(codec, chunks, b))
    {
      XorBlockByte(codec, chunks, have, b);
      CompleteMask(codec, chunks, have, b);
      SyndromeIsSumPlusParity(DataColumn(codec, chunks, b));
    }
  }

  lemma CompleteShape(codec: Codec, chunks: seq<Blob>, have: ShardMap)
    requires Complete(codec, chunks, have)
    ensures
      var k, p, n := codec.dataShards, codec.parityShards, Kept(codec, chunks);
      && (forall x :: 0 <= x < n ==> x in have && have[x] == chunks[x])
      && (forall x :: n <= x < k ==> x !in have)
      && (forall x :: k <= x < k + p ==> x in have && |have[x]| == ShardSize(chunks))
  {
    var k, p, n := codec.dataShards, codec.parityShards, Kept(codec, chunks);
    forall x | 0 <= x < n
      ensures x in have && have[x] == chunks[x]
    {
      assert EmittedShard(codec, chunks, x) == Some(chunks[x]);
    }
    forall x | n <= x < k
      ensures x !in have
    {
      assert EmittedShard(codec, chunks, x) == None;
    }
    forall x | k <= x < k + p
      ensures x in have && |have[x]| == ShardSize(chunks)
    {
      assert EmittedShard(codec, chunks, x) == Some(ParityShards(codec, chunks)[x - k]);
    }
  }

  /** The refilled shard when as many parity shards as shards are missing before `j` are known. */
  lemma RefillAtRank(codec: Codec, have: ShardMap, j: nat, t: nat)
    requires Rank(have, j) == t
    requires |PresentParity(have, codec.dataShards, codec.dataShards + codec.parityShards)| == codec.parityShards
    requires t < codec.parityShards ==>
        && PresentParity(have, codec.dataShards, codec.dataShards + codec.parityShards)[t] == codec.dataShards + t
        && codec.dataShards + t in have
    ensures Refill(codec, have, j)
        == if t >= codec.parityShards then []
           else if t == 0 then XorBlock(have, codec.dataShards) else Zeros(|have[codec.dataShards + t]|)
  {
  }

  lemma CompleteRefill(codec: Codec, chunks: seq<Blob>, have: ShardMap, j: nat)
    requires Complete(codec, chunks, have) && Kept(codec, chunks) <= j < codec.dataShards
    ensures
      var t := j - Kept(codec, chunks);
      Refill(codec, have, j) == if t < |Filler(codec, chunks)| then Filler(codec, chunks)[t] else []
  {
    var k, p, n := codec.dataShards, codec.parityShards, Kept(codec, chunks);
    CompleteShape(codec, chunks, have);
    RankAfter(have, n, j);
    ParityAllPresent(have, k, k + p);
    RefillAtRank(codec, have, j, j - n);
    if p > 0 {
      CompleteXorBlock(codec, chunks, have);
    }
  }

  lemma CompleteSlot(codec: Codec, chunks: seq<Blob>, have: ShardMap, j: nat)
    requires Complete(codec, chunks, have) && j < codec.dataShards
    ensures Slot(codec, have, j)
        == if j < Kept(codec, chunks) then chunks[j]
           else if j - Kept(codec, chunks) < |Filler(codec, chunks)| then Filler(codec, chunks)[j - Kept(codec, chunks)]
           else []
  {
    CompleteShape(codec, chunks, have);
    if j >= Kept(codec, chunks) {
      CompleteRefill(codec, chunks, have, j);
    }
  }

  /** With every emitted shard present: the kept chunks, then the filler blocks. */
  lemma DecodeComplete(codec: Codec, chunks: seq<Blob>, have: ShardMap)
    requires Complete(codec, chunks, have)
    ensures Reconstruct(codec, have) == Concat(chunks[..Kept(codec, chunks)]) + Concat(Filler(codec, chunks))
  {
    var n, fill := Kept(codec, chunks), Filler(codec, chunks);
    var empties: seq<Blob> := seq(codec.dataShards - n - |fill|, _ => []);
    forall j: nat | j < codec.dataShards
      ensures Slots(codec, have)[j] == (chunks[..n] + fill + empties)[j]
    {
      CompleteSlot(codec, chunks, have, j);
    }
    assert Slots(codec, have) == chunks[..n] + fill + empties;
    ConcatAppend(chunks[..n] + fill, empties);
    ConcatAppend(chunks[..n], fill);
    ConcatEmpty(empties);
  }

  lemma FillerSize(codec: Codec, chunks: seq<Blob>)
    ensures |Concat(Filler(codec, chunks))| == |Filler(codec, chunks)| * ShardSize(chunks)
  {
    ConcatSize(Filler(codec, chunks));
    forall t | 0 <= t < |Filler(codec, chunks)|
      ensures |Filler(codec, chunks)[t]| == ShardSize(chunks)
    {
      assert |ChunkSyndrome(codec, chunks)| == ShardSize(chunks) == |Zeros(ShardSize(chunks))|;
    }
    TotalOfEqual(Filler(codec, chunks), ShardSize(chunks));
  }

  /** Encode then decode gives back nonempty chunks exactly when they fill the data shards (or no parity pads them). */
  lemma DecodeEncodeIdentity(codec: Codec, chunks: seq<Blob>, have: ShardMap)
    requires Complete(codec, chunks, have)
    requires chunks != [] && forall t :: 0 <= t < |chunks| ==> chunks[t] != []
    ensures Reconstruct(codec, have) == Concat(chunks)
        <==> |chunks| == codec.dataShards || (codec.parityShards == 0 && |chunks| < codec.dataShards)
  {
    DecodeComplete(codec, chunks, have);
    SplitAtKept(codec, chunks, Concat(Filler(codec, chunks)));
    SurplusOrFiller(codec, chunks);
  }

  lemma SplitAtKept(codec: Codec, chunks: seq<Blob>, fill: Blob)
    ensures Concat(chunks[..Kept(codec, chunks)]) + fill == Concat(chunks)
        <==> fill == Concat(chunks[Kept(codec, chunks)..])
  {
    var n := Kept(codec, chunks);
    assert chunks == chunks[..n] + chunks[n..];
    ConcatAppend(chunks[..n], chunks[n..]);
    SameTail(Concat(chunks[..n]), fill, Concat(chunks[n..]));
  }

  lemma SameTail(before: Blob, x: Blob, y: Blob)
    ensures before + x == before + y <==> x == y
  {
    SameMiddle(before, x, y, []);
    assert before + x + [] == before + x && before + y + [] == before + y;
  }

  lemma SurplusOrFiller(codec: Codec, chunks: seq<Blob>)
    requires chunks != [] && forall t :: 0 <= t < |chunks| ==> chunks[t] != []
    ensures Concat(Filler(codec, chunks)) == Concat(chunks[Kept(codec, chunks)..])
        <==> |chunks| == codec.dataShards || (codec.parityShards == 0 && |chunks| < codec.dataShards)
  {
    var tail := chunks[Kept(codec, chunks)..];
    if |chunks| > codec.dataShards {
      ConcatSize(tail);
      TotalSizeTail(tail);
    } else if |chunks| < codec.dataShards && codec.parityShards > 0 {
      FillerNonempty(codec, chunks);
    }
  }

  lemma FillerNonempty(codec: Codec, chunks: seq<Blob>)
    requires chunks != [] && chunks[0] != [] && |chunks| < codec.dataShards && codec.parityShards > 0
    ensures |Concat(Filler(codec, chunks))| > 0
  {
    ShardSizeBounds(chunks, 0);
    FillerSize(codec, chunks);
    var r, s := |Filler(codec, chunks)|, ShardSize(chunks);
    MulMonotone(1, r, s);
  }

  lemma TotalSizeTail(chunks: seq<Blob>)
    requires chunks != [] && chunks[|chunks| - 1] != []
    ensures TotalSize(chunks) > 0
  {
  }

  // ---------- parity lost ----------

  /** When every data shard is there, losing parity shards changes nothing. */
  lemma DecodeWithAllData(codec: Codec, chunks: seq<Blob>, have: ShardMap)
    requires Surviving(codec, chunks, have)
    requires forall j :: 0 <= j < codec.dataShards ==> j in have
    ensures codec.dataShards <= |chunks|
    ensures Reconstruct(codec, have) == Concat(chunks[..codec.dataShards])
  {
    var k := codec.dataShards;
    forall j | 0 <= j < k
      ensures j < |chunks| && have[j] == chunks[j]
    {
      assert EmittedShard(codec, chunks, j) == Some(have[j]);
    }
    assert k <= |chunks| by {
      if k > 0 {
        var last := k - 1;
        assert last in have;
      }
    }
    assert Slots(codec, have) == chunks[..k];
  }

  // ---------- one data shard lost ----------

  function XorBlobs(x: Blob, y: Blob): Blob
    requires |x| == |y|
  {
    seq(|x|, b requires 0 <= b < |x| => Xor(x[b], y[b]))
  }

  /** Data shard `j` is the only one missing. */
  ghost predicate OnlyMissing(codec: Codec, chunks: seq<Blob>, have: ShardMap, j: nat) {
    && j < codec.dataShards <= |chunks|
    && Surviving(codec, chunks, have)
    && forall x :: 0 <= x < codec.dataShards ==> (x in have <==> x != j)
  }

  lemma MaskedSum(column: seq<Byte>, j: nat)
    requires j < |column|
    ensures XorSum(column[j := 0]) == Xor(XorSum(column), column[j])
  {
    XorSumUpdate(column, j, 0);
    XorLaws(Xor(XorSum(column), column[j]), 0, 0);
  }

  lemma LostByteRecovered(column: seq<Byte>, j: nat)
    requires j < |column|
    ensures Xor(XorSum(column[j := 0]), ParityByte(column, 0)) == Xor(column[j], SyndromeByte(column))
  {
    MaskedSum(column, j);
    SyndromeIsSumPlusParity(column);
    var s, d, q := XorSum(column), column[j], ParityByte(column, 0);
    XorLaws(s, d, q);
    XorLaws(d, s, q);
  }

  lemma SingleLossBlock(codec: Codec, chunks: seq<Blob>, have: ShardMap, j: nat)
    requires OnlyMissing(codec, chunks, have, j) && codec.dataShards in have
    ensures XorBlock(have, codec.dataShards)
        == XorBlobs(Pad(chunks[j], ShardSize(chunks)), ChunkSyndrome(codec, chunks))
  {
    XorBlockSize(codec, chunks, have);
    forall b: nat | b < ShardSize(chunks)
      ensures XorBlock(have, codec.dataShards)[b]
          == Xor(Pad(chunks[j], ShardSize(chunks))[b], ChunkSyndrome(codec, chunks)[b])
    {
      XorBlockByte(codec, chunks, have, b);
      var column: seq<Byte> := DataColumn(codec, chunks, b);
      assert Masked(codec, chunks, have, b) == column[j := 0];
      LostByteRecovered(column, j);
    }
  }

  lemma SingleLossSlot(codec: Codec, chunks: seq<Blob>, have: ShardMap, j: nat)
    requires OnlyMissing(codec, chunks, have, j) && codec.dataShards in have
    ensures Slot(codec, have, j) == XorBlock(have, codec.dataShards)
  {
    assert EmittedShard(codec, chunks, codec.dataShards).Some?;
    RankAfter(have, j, j);
    ParityZeroFirst(have, codec.dataShards, codec.dataShards + codec.parityShards);
  }

  /** Parity shard 0 puts the lost padded shard, disturbed by the syndrome, in the lost shard's place. */
  lemma DecodeSingleLoss(codec: Codec, chunks: seq<Blob>, have: ShardMap, j: nat)
    requires OnlyMissing(codec, chunks, have, j) && codec.dataShards in have
    ensures Reconstruct(codec, have)
        == Concat(chunks[..codec.dataShards]
                  [j := XorBlobs(Pad(chunks[j], ShardSize(chunks)), ChunkSyndrome(codec, chunks))])
  {
    var k := codec.dataShards;
    var block := XorBlobs(Pad(chunks[j], ShardSize(chunks)), ChunkSyndrome(codec, chunks));
    var want: seq<Blob> := chunks[..k][j := block];
    forall x: nat | x < k
      ensures Slots(codec, have)[x] == want[x]
    {
      if x != j {
        assert EmittedShard(codec, chunks, x) == Some(have[x]);
      } else {
        SingleLossSlot(codec, chunks, have, j);
        SingleLossBlock(codec, chunks, have, j);
      }
    }
    assert Slots(codec, have) == want;
  }

  /** The recovered object is right if and only if the lost chunk was full size and the syndrome is zero. */
  lemma SingleLossRightExactly(codec: Codec, chunks: seq<Blob>, have: ShardMap, j: nat)
    requires OnlyMissing(codec, chunks, have, j) && codec.dataShards in have
    ensures Reconstruct(codec, have) == Concat(chunks[..codec.dataShards])
        <==> |chunks[j]| == ShardSize(chunks) && ChunkSyndrome(codec, chunks) == Zeros(ShardSize(chunks))
  {
    var size, syndrome := ShardSize(chunks), ChunkSyndrome(codec, chunks);
    var block := XorBlobs(Pad(chunks[j], size), syndrome);
    DecodeSingleLoss(codec, chunks, have, j);
    ConcatReplaced(chunks[..codec.dataShards], j, block);
    ShardSizeBounds(chunks, j);
    if |chunks[j]| == size {
      assert Pad(chunks[j], size) == chunks[j];
      XorBlobsNeutral(chunks[j], syndrome);
    }
  }

  lemma XorBlobsNeutral(x: Blob, y: Blob)
    requires |x| == |y|
    ensures XorBlobs(x, y) == x <==> y == Zeros(|x|)
  {
    forall b | 0 <= b < |x|
      ensures Xor(x[b], y[b]) == x[b] <==> y[b] == 0
    {
      XorLaws(x[b], 0, 0);
      if Xor(x[b], y[b]) == x[b] {
        XorCancel(x[b], y[b], 0);
      }
    }
    if XorBlobs(x, y) == x {
      forall b | 0 <= b < |x|
        ensures y[b] == 0
      {
        assert XorBlobs(x, y)[b] == x[b];
      }
    }
  }

  /** The syndrome vanishes for every content exactly when there is at most one data shard. */
  lemma SyndromeVanishesExactly(k: nat, size: nat)
    requires size > 0
    ensures (forall shards: seq<Blob> :: Rectangular(shards, k, size) ==> Syndrome(shards, size) == Zeros(size))
        <==> k <= 1
  {
    if k <= 1 {
      forall shards: seq<Blob> | Rectangular(shards, k, size)
        ensures Syndrome(shards, size) == Zeros(size)
      {
        forall b: nat | b < size
          ensures SyndromeByte(Column(shards, size, b)) == 0
        {
          SyndromeOfFirst(Column(shards, size, b));
        }
      }
    } else {
      var shards := ZeroShards(k, size)[1 := Constant(size, 1)];
      var column: seq<Byte> := Column(shards, size, 0);
      SyndromeOfUnit(column);
      assert Syndrome(shards, size)[0] == 3;
    }
  }

  lemma SyndromeOfFirst(column: seq<Byte>)
    requires forall t :: 0 < t < |column| ==> column[t] == 0
    ensures SyndromeByte(column) == 0
  {
    var mixed := Disturbed(column);
    forall t | 0 <= t < |mixed|
      ensures mixed[t] == 0
    {
      XorLaws(column[t], 0, 0);
      if t == 0 {
        OneWeighs(column[t]);
      } else {
        ZeroWeighs(ByteOf(t + 1));
      }
    }
    XorSumZero(mixed);
  }

  lemma OneWeighs(x: Byte)
    ensures Mul(x, ByteOf(1)) == x
  {
  }

  lemma {:induction false} XorSumSingle(xs: seq<Byte>, j: nat)
    requires j < |xs| && forall t :: 0 <= t < |xs| && t != j ==> xs[t] == 0
    ensures XorSum(xs) == xs[j]
  {
    var n := |xs| - 1;
    XorLaws(xs[j], 0, 0);
    if j < n {
      XorSumSingle(xs[..n], j);
    } else {
      XorSumZero(xs[..n]);
    }
  }

  lemma {:induction false} XorSumZero(xs: seq<Byte>)
    requires forall t :: 0 <= t < |xs| ==> xs[t] == 0
    ensures XorSum(xs) == 0
  {
    XorLaws(0, 0, 0);
    if xs != [] {
      XorSumZero(xs[..|xs| - 1]);
    }
  }

  lemma SmallXors()
    ensures Xor(1, 2) == 3 && Xor(1, 3) == 2
  {
    XorNatJoin(0, 1, 1, 0);
    XorNatJoin(0, 1, 1, 1);
    XorNatUnits(1);
    XorNatSymmetric(0, 1);
  }

  lemma SyndromeOfUnit(column: seq<Byte>)
    requires |column| >= 2 && forall t :: 0 <= t < |column| ==> column[t] == if t == 1 then 1 else 0
    ensures SyndromeByte(column) == 3
  {
    var mixed := Disturbed(column);
    forall t | 0 <= t < |column|
      ensures mixed[t] == if t == 1 then 3 else 0
    {
      XorLaws(0, 0, 0);
      SmallXors();
      assert Mul(1, ByteOf(2)) == 2;
    }
    XorSumSingle(mixed, 1);
  }

  // ---------- how much comes back ----------

  /** Bytes of the data shards below `n` that are present. */
  function PresentBytes(have: ShardMap, n: nat): nat {
    if n == 0 then 0
    else PresentBytes(have, n - 1) + (if n - 1 in have then |have[n - 1]| else 0)
  }

  function ParityLeft(codec: Codec, have: ShardMap): nat {
    |PresentParity(have, codec.dataShards, codec.dataShards + codec.parityShards)|
  }

  lemma RefillSize(codec: Codec, chunks: seq<Blob>, have: ShardMap, j: nat)
    requires Surviving(codec, chunks, have)
    ensures |Refill(codec, have, j)| == if Rank(have, j) < ParityLeft(codec, have) then ShardSize(chunks) else 0
  {
    var k, r := codec.dataShards, Rank(have, j);
    if r < ParityLeft(codec, have) {
      PresentParityIsPresent(have, k, k + codec.parityShards, r);
      var x := PresentParity(have, k, k + codec.parityShards)[r];
      assert EmittedShard(codec, chunks, x) == Some(have[x]);
    }
  }

  /** Bytes that stand in for the missing data shards below `n`. */
  function RefilledBytes(have: ShardMap, left: nat, size: nat, n: nat): nat {
    if n == 0 then 0
    else RefilledBytes(have, left, size, n - 1) + (if n - 1 !in have && Rank(have, n - 1) < left then size else 0)
  }

  lemma {:induction false} RefilledInAll(have: ShardMap, left: nat, size: nat, n: nat)
    ensures RefilledBytes(have, left, size, n) == Min(Rank(have, n), left) * size
  {
    if n > 0 {
      RefilledInAll(have, left, size, n - 1);
      OneMoreWithin(Rank(have, n - 1), left, size);
    }
  }

  lemma {:induction false} SlotsSize(codec: Codec, chunks: seq<Blob>, have: ShardMap, n: nat)
    requires Surviving(codec, chunks, have) && n <= codec.dataShards
    ensures TotalSize(Slots(codec, have)[..n])
        == PresentBytes(have, n) + RefilledBytes(have, ParityLeft(codec, have), ShardSize(chunks), n)
  {
    if n > 0 {
      SlotsSize(codec, chunks, have, n - 1);
      TotalNext(Slots(codec, have), n - 1);
      if n - 1 !in have {
        RefillSize(codec, chunks, have, n - 1);
      }
    }
  }

  lemma TotalNext(blobs: seq<Blob>, j: nat)
    requires j < |blobs|
    ensures TotalSize(blobs[..j + 1]) == TotalSize(blobs[..j]) + |blobs[j]|
  {
    assert blobs[..j + 1][..j] == blobs[..j];
  }

  lemma OneMoreWithin(r: nat, left: nat, size: nat)
    ensures Min(r + 1, left) * size == Min(r, left) * size + (if r < left then size else 0)
  {
    OneMore(Min(r, left), size);
  }

  lemma OneMore(r: nat, size: nat)
    ensures (r + 1) * size == r * size + size
  {
  }

  /** Every present shard comes back whole, and one shard size for each missing one that a parity shard is left for. */
  lemma ReconstructSize(codec: Codec, chunks: seq<Blob>, have: ShardMap)
    requires Surviving(codec, chunks, have)
    ensures |Reconstruct(codec, have)|
        == PresentBytes(have, codec.dataShards)
           + Min(Rank(have, codec.dataShards), ParityLeft(codec, have)) * ShardSize(chunks)
  {
    var slots := Slots(codec, have);
    SlotsSize(codec, chunks, have, codec.dataShards);
    RefilledInAll(have, ParityLeft(codec, have), ShardSize(chunks), codec.dataShards);
    ConcatSize(slots);
    assert slots[..codec.dataShards] == slots;
  }
}
