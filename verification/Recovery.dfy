/** The decoder: which shards are available, what the recovery loop fills in, and the reassembled bytes. */
module Recovery {
  import opened Bytes
  import opened Domain
  import opened Erasure

  type ShardMap = map<int, Blob>

  /** The first `n` descriptors paired with their bytes; a later pair replaces an earlier one. */
  function AvailableUpTo(rows: seq<FileChunk>, data: seq<Blob>, n: nat): ShardMap
    requires n <= |rows|
  {
    if n == 0 then map[]
    else
      var before := AvailableUpTo(rows, data, n - 1);
      if n - 1 < |data| then before[rows[n - 1].chunkIndex := data[n - 1]] else before
  }

  function Available(rows: seq<FileChunk>, data: seq<Blob>): ShardMap {
    AvailableUpTo(rows, data, |rows|)
  }

  /** How many data shards below `j` are missing. */
  function Rank(have: ShardMap, j: nat): nat {
    if j == 0 then 0 else Rank(have, j - 1) + (if j - 1 in have then 0 else 1)
  }

  /** Indices of the parity shards that are present below index `t`, in order. */
  function PresentParity(have: ShardMap, k: nat, t: nat): seq<nat> {
    if t <= k then []
    else PresentParity(have, k, t - 1) + (if t - 1 in have then [t - 1] else [])
  }

  /** Exclusive or of byte `b` over the present data shards below `n` that are long enough. */
  function XorPresent(have: ShardMap, n: nat, b: nat): Byte {
    if n == 0 then 0
    else
      var rest := XorPresent(have, n - 1, b);
      if n - 1 in have && b < |have[n - 1]| then Xor(rest, have[n - 1][b]) else rest
  }

  function XorBlock(have: ShardMap, k: nat): Blob
    requires k in have
  {
    seq(|have[k]|, b requires 0 <= b < |have[k]| => Xor(XorPresent(have, k, b), have[k][b]))
  }

  /**
   * What stands in for missing data shard `j`: the parity shard of the same rank decides.
   * Parity shard 0 gives the exclusive-or block, any other one zeros, no parity shard left gives nothing.
   */
  function Refill(codec: Codec, have: ShardMap, j: nat): Blob {
    var parity := PresentParity(have, codec.dataShards, codec.dataShards + codec.parityShards);
    var r := Rank(have, j);
    if r >= |parity| then []
    else
      PresentParityIsPresent(have, codec.dataShards, codec.dataShards + codec.parityShards, r);
      if parity[r] == codec.dataShards then XorBlock(have, codec.dataShards) else Zeros(|have[parity[r]]|)
  }

  function Slot(codec: Codec, have: ShardMap, j: nat): Blob {
    if j in have then have[j] else Refill(codec, have, j)
  }

  function Slots(codec: Codec, have: ShardMap): seq<Blob> {
    seq(codec.dataShards, j requires 0 <= j < codec.dataShards => Slot(codec, have, j))
  }

  /** The decoder's result as a closed expression of the available shards. */
  function Reconstruct(codec: Codec, have: ShardMap): Blob {
    Concat(Slots(codec, have))
  }

  method Decode(codec: Codec, rows: seq<FileChunk>, data: seq<Blob>) returns (r: Result<Blob>)
    ensures rows == [] ==> r == Err(NoChunks)
    ensures rows != [] ==> r == Ok(Reconstruct(codec, Available(rows, data)))
  {
    if |rows| == 0 {
      return Err(NoChunks);
    }
    var k, total := codec.dataShards, codec.dataShards + codec.parityShards;

    var available: ShardMap := map[];
    for i := 0 to |rows|
      invariant available == AvailableUpTo(rows, data, i)
    {
      if i < |data| {
        available := available[rows[i].chunkIndex := data[i]];
      }
    }
    ghost var have := available;

    var presentDataShards := 0;
    for i := 0 to k
      invariant presentDataShards == i - Rank(have, i)
    {
      if i in available {
        presentDataShards := presentDataShards + 1;
      }
    }

    if presentDataShards < k {
      available := Recover(codec, available, k - presentDataShards);
    } else {
      NothingMissing(have, k);
    }
    var reconstructed := Assemble(k, available, Slots(codec, have));
    r := Ok(reconstructed);
  }

  method Assemble(k: nat, available: ShardMap, ghost slots: seq<Blob>) returns (reconstructed: Blob)
    requires |slots| == k && Represents(available, slots)
    ensures reconstructed == Concat(slots)
  {
    reconstructed := [];
    for i := 0 to k
      invariant reconstructed == Concat(slots[..i])
    {
      assert slots[..i + 1][..i] == slots[..i];
      if i in available {
        reconstructed := reconstructed + available[i];
      }
    }
    assert slots[..k] == slots;
  }

  /** `now` is `have` with every missing data shard below `front` filled in from `slots`. */
  ghost predicate FilledBelow(have: ShardMap, now: ShardMap, slots: seq<Blob>, front: nat) {
    && front <= |slots|
    && (forall x :: x in have ==> x in now && now[x] == have[x])
    && (forall x :: x in now && x !in have ==> 0 <= x < front)
    && (forall x {:trigger slots[x]} :: 0 <= x < front && x !in have && x in now ==> now[x] == slots[x])
    && (forall x :: 0 <= x < front ==> x in now)
  }

  /** Every slot is either available or empty. */
  ghost predicate Represents(now: ShardMap, slots: seq<Blob>) {
    forall j :: 0 <= j < |slots| ==> if j in now then now[j] == slots[j] else slots[j] == []
  }

  /** The nested recovery loop. */
  method Recover(codec: Codec, have: ShardMap, needed: nat) returns (available: ShardMap)
    requires needed == Rank(have, codec.dataShards)
    ensures Represents(available, Slots(codec, have))
  {
    var k, total := codec.dataShards, codec.dataShards + codec.parityShards;
    ghost var front := 0;
    available := have;
    var recovered := 0;
    var i := k;
    while i < total && recovered < needed
      invariant k <= i <= total
      invariant recovered <= needed
      invariant recovered == |PresentParity(have, k, i)| == Rank(have, front)
      invariant FilledBelow(have, available, Slots(codec, have), front)
    {
      PresentParityStep(have, k, i);
      if i in available {
        available, front := RecoverOne(codec, have, available, i, front);
        recovered := recovered + 1;
      }
      i := i + 1;
    }
    RecoveredAll(codec, have, available, Slots(codec, have), i, front);
  }

  /** One round of the loop: the lowest missing data shard is filled from parity shard `i`. */
  method RecoverOne(codec: Codec, ghost have: ShardMap, available: ShardMap, i: nat, ghost front: nat)
      returns (filled: ShardMap, ghost front': nat)
    requires codec.dataShards <= i < codec.dataShards + codec.parityShards && i in available
    requires FilledBelow(have, available, Slots(codec, have), front)
    requires Rank(have, front) == |PresentParity(have, codec.dataShards, i)| < Rank(have, codec.dataShards)
    ensures FilledBelow(have, filled, Slots(codec, have), front')
    ensures Rank(have, front') == Rank(have, front) + 1
  {
    ghost var slots := Slots(codec, have);
    var parityData := available[i];
    var j := FirstMissing(codec.dataShards, have, available, slots, front);
    var recoveredChunk := RecoverShard(codec, have, available, i, j, parityData, front);
    FilledNext(have, available, slots, front, j);
    filled := available[j := recoveredChunk];
    front' := j + 1;
  }

  /** The scan for the lowest data index that is not available yet. */
  method FirstMissing(k: nat, ghost have: ShardMap, available: ShardMap, ghost slots: seq<Blob>, ghost front: nat)
      returns (j: nat)
    requires FilledBelow(have, available, slots, front) && |slots| == k
    requires Rank(have, front) < Rank(have, k)
    ensures front <= j < k && j !in available && Rank(have, j) == Rank(have, front)
    ensures forall i :: 0 <= i < j ==> i in available
  {
    j := 0;
    while j < k && j in available
      invariant 0 <= j <= k
      invariant j >= front ==> Rank(have, j) == Rank(have, front)
      invariant forall i :: 0 <= i < j ==> i in available
    {
      RankStep(have, j);
      j := j + 1;
    }
  }

  /** Filling one missing shard from parity shard `i`. */
  method RecoverShard(codec: Codec, ghost have: ShardMap, available: ShardMap, i: nat, j: nat, parityData: Blob,
                      ghost front: nat)
      returns (recoveredChunk: Blob)
    requires codec.dataShards <= i < codec.dataShards + codec.parityShards
    requires i in have && have[i] == parityData
    requires front <= j < codec.dataShards && j !in available
    requires FilledBelow(have, available, Slots(codec, have), front)
    requires Rank(have, j) == Rank(have, front) == |PresentParity(have, codec.dataShards, i)|
    ensures recoveredChunk == Slots(codec, have)[j]
  {
    RefillFrom(codec, have, i, j);
    var k := codec.dataShards;
    var buffer := new Byte[|parityData|](_ => 0);
    if i == k {
      NothingMissing(have, front);
      XorShards(k, have, available, j, buffer);
      XorInto(buffer, parityData);
      assert buffer[..] == XorBlock(have, k);
    } else {
      assert buffer[..] == Zeros(|parityData|);
    }
    recoveredChunk := buffer[..];
  }

  method XorShards(k: nat, ghost have: ShardMap, available: ShardMap, j: nat, buffer: array<Byte>)
    requires forall q :: 0 <= q < k ==> (q in available <==> q in have) && (q in have ==> available[q] == have[q])
    requires j !in available
    requires forall b :: 0 <= b < buffer.Length ==> buffer[b] == 0
    modifies buffer
    ensures forall b :: 0 <= b < buffer.Length ==> buffer[b] == XorPresent(have, k, b)
  {
    for q := 0 to k
      invariant forall b :: 0 <= b < buffer.Length ==> buffer[b] == XorPresent(have, q, b)
    {
      if q != j {
        if q in available {
          XorInto(buffer, available[q]);
        }
      }
    }
  }

  /** `buffer[b] ^= d[b]` as far as both reach. */
  method XorInto(buffer: array<Byte>, d: Blob)
    modifies buffer
    ensures forall b :: 0 <= b < buffer.Length ==>
        buffer[b] == if b < |d| then Xor(old(buffer[b]), d[b]) else old(buffer[b])
  {
    for b := 0 to Min(buffer.Length, |d|)
      invariant forall b' :: 0 <= b' < b ==> buffer[b'] == Xor(old(buffer[b']), d[b'])
      invariant forall b' :: b <= b' < buffer.Length ==> buffer[b'] == old(buffer[b'])
    {
      buffer[b] := Xor(buffer[b], d[b]);
    }
  }

  /** The parity shard with as many parity shards before it as `j` has missing shards before it decides. */
  lemma RefillFrom(codec: Codec, have: ShardMap, i: nat, j: nat)
    requires codec.dataShards <= i < codec.dataShards + codec.parityShards && i in have
    requires j < codec.dataShards && j !in have
    requires Rank(have, j) == |PresentParity(have, codec.dataShards, i)|
    ensures Slots(codec, have)[j]
        == if i == codec.dataShards then XorBlock(have, codec.dataShards) else Zeros(|have[i]|)
  {
    PresentParityAt(have, codec.dataShards, i, codec.dataShards + codec.parityShards);
    RefillAt(codec, have, i, j);
  }

  lemma RefillAt(codec: Codec, have: ShardMap, i: nat, j: nat)
    requires i in have
    requires
      var parity := PresentParity(have, codec.dataShards, codec.dataShards + codec.parityShards);
      Rank(have, j) < |parity| && parity[Rank(have, j)] == i
    ensures Refill(codec, have, j)
        == if i == codec.dataShards then XorBlock(have, codec.dataShards) else Zeros(|have[i]|)
  {
  }

  /** A present parity shard stands behind as many as are present before it. */
  lemma PresentParityAt(have: ShardMap, k: nat, i: nat, t: nat)
    requires k <= i < t && i in have
    ensures |PresentParity(have, k, i)| < |PresentParity(have, k, t)|
    ensures PresentParity(have, k, t)[|PresentParity(have, k, i)|] == i
  {
    PresentParityStep(have, k, i);
    PresentParityPrefix(have, k, i + 1, t);
  }

  lemma FilledNext(have: ShardMap, now: ShardMap, slots: seq<Blob>, front: nat, j: nat)
    requires FilledBelow(have, now, slots, front)
    requires front <= j < |slots| && j !in now
    requires forall i :: 0 <= i < j ==> i in now
    ensures FilledBelow(have, now[j := slots[j]], slots, j + 1)
    ensures Rank(have, j + 1) == Rank(have, j) + 1
  {
    RankStep(have, j);
  }

  lemma PresentParityStep(have: ShardMap, k: nat, i: nat)
    requires k <= i
    ensures PresentParity(have, k, i + 1) == PresentParity(have, k, i) + (if i in have then [i] else [])
  {
  }

  lemma SlotsOfPresentOrLost(codec: Codec, have: ShardMap, j: nat)
    requires j < codec.dataShards
    ensures j in have ==> Slots(codec, have)[j] == have[j]
    ensures j !in have
        && Rank(have, j) >= |PresentParity(have, codec.dataShards, codec.dataShards + codec.parityShards)|
        ==> Slots(codec, have)[j] == []
  {
    assert Slots(codec, have)[j] == Slot(codec, have, j);
    if j !in have
      && Rank(have, j) >= |PresentParity(have, codec.dataShards, codec.dataShards + codec.parityShards)| {
      NothingLeft(codec, have, j);
    }
  }

  lemma NothingLeft(codec: Codec, have: ShardMap, j: nat)
    requires Rank(have, j) >= |PresentParity(have, codec.dataShards, codec.dataShards + codec.parityShards)|
    ensures Refill(codec, have, j) == []
  {
  }

  lemma RecoveredAll(codec: Codec, have: ShardMap, now: ShardMap, slots: seq<Blob>, i: nat, front: nat)
    requires codec.dataShards <= i <= codec.dataShards + codec.parityShards
    requires Rank(have, front) == |PresentParity(have, codec.dataShards, i)| <= Rank(have, codec.dataShards)
    requires i == codec.dataShards + codec.parityShards || Rank(have, front) == Rank(have, codec.dataShards)
    requires slots == Slots(codec, have) && FilledBelow(have, now, slots, front)
    ensures Represents(now, slots)
  {
    forall j | 0 <= j < |slots|
      ensures if j in now then now[j] == slots[j] else slots[j] == []
    {
      SlotsOfPresentOrLost(codec, have, j);
      if j !in now {
        LostIsBehind(have, front, j, codec.dataShards);
      }
    }
  }

  lemma LostIsBehind(have: ShardMap, front: nat, j: nat, k: nat)
    requires front <= j < k && j !in have
    ensures Rank(have, front) <= Rank(have, j) < Rank(have, k)
  {
    RankMonotone(have, front, j);
    RankStep(have, j);
    RankMonotone(have, j + 1, k);
  }

  lemma {:induction false} PresentParityIsPresent(have: ShardMap, k: nat, t: nat, r: nat)
    requires r < |PresentParity(have, k, t)|
    ensures k <= PresentParity(have, k, t)[r] < t && PresentParity(have, k, t)[r] in have
  {
    if r < |PresentParity(have, k, t - 1)| {
      PresentParityIsPresent(have, k, t - 1, r);
    }
  }

  lemma {:induction false} PresentParityPrefix(have: ShardMap, k: nat, i: nat, t: nat)
    requires i <= t
    ensures PresentParity(have, k, i) <= PresentParity(have, k, t)
  {
    if i < t {
      PresentParityPrefix(have, k, i, t - 1);
    }
  }

  lemma {:induction false} RankMonotone(have: ShardMap, i: nat, j: nat)
    requires i <= j
    ensures Rank(have, i) <= Rank(have, j)
  {
    if i < j {
      RankMonotone(have, i, j - 1);
    }
  }

  lemma RankStep(have: ShardMap, j: nat)
    ensures Rank(have, j + 1) == Rank(have, j) + (if j in have then 0 else 1)
  {
  }

  /** Missing shards have pairwise different ranks. */
  lemma RankInjective(have: ShardMap, i: nat, j: nat)
    requires i !in have && j !in have && i != j
    ensures Rank(have, i) != Rank(have, j)
  {
    RankStep(have, i);
    RankStep(have, j);
    if i < j {
      RankMonotone(have, i + 1, j);
    } else {
      RankMonotone(have, j + 1, i);
    }
  }

  lemma {:induction false} NothingMissing(have: ShardMap, k: nat)
    requires Rank(have, k) == 0
    ensures forall j :: 0 <= j < k ==> j in have
  {
    if k > 0 {
      NothingMissing(have, k - 1);
    }
  }

  // ---------- the decoder's answer for any input ----------

  /** Of the first `n` descriptors with bytes, the i-th is the last to name shard `x`. */
  ghost predicate LastToName(rows: seq<FileChunk>, data: seq<Blob>, n: nat, x: int, i: nat)
    requires n <= |rows|
  {
    && i < n && i < |data| && rows[i].chunkIndex == x
    && forall l :: i < l < n && l < |data| ==> rows[l].chunkIndex != x
  }

  /** A shard is available when some descriptor with bytes names it, with the bytes of the last one that does. */
  lemma {:induction false} AvailableExactly(rows: seq<FileChunk>, data: seq<Blob>, n: nat, x: int)
    requires n <= |rows|
    ensures x in AvailableUpTo(rows, data, n)
       <==> exists i :: 0 <= i < n && i < |data| && rows[i].chunkIndex == x
    ensures forall i: nat :: LastToName(rows, data, n, x, i) ==>
        x in AvailableUpTo(rows, data, n) && AvailableUpTo(rows, data, n)[x] == data[i]
  {
    if n > 0 {
      AvailableExactly(rows, data, n - 1, x);
      forall i: nat | LastToName(rows, data, n, x, i)
        ensures x in AvailableUpTo(rows, data, n) && AvailableUpTo(rows, data, n)[x] == data[i]
      {
        assert i < n - 1 ==> LastToName(rows, data, n - 1, x, i);
      }
    }
  }

  function MissingBelow(have: ShardMap, j: nat): set<nat> {
    set q: nat | q < j && q !in have
  }

  function ParityBelow(have: ShardMap, k: nat, i: nat): set<nat> {
    set q: nat | k <= q < i && q in have
  }

  lemma {:induction false} RankCounts(have: ShardMap, j: nat)
    ensures Rank(have, j) == |MissingBelow(have, j)|
  {
    if j > 0 {
      RankCounts(have, j - 1);
      assert MissingBelow(have, j) == MissingBelow(have, j - 1) + (if j - 1 in have then {} else {j - 1});
    }
  }

  lemma {:induction false} ParityCounts(have: ShardMap, k: nat, i: nat)
    ensures |PresentParity(have, k, i)| == |ParityBelow(have, k, i)|
  {
    if i > k {
      ParityCounts(have, k, i - 1);
      assert ParityBelow(have, k, i) == ParityBelow(have, k, i - 1) + (if i - 1 in have then {i - 1} else {});
    }
  }

  /** Byte `b` of the data shards that are there and long enough, zero for the others. */
  function PresentBytesAt(have: ShardMap, k: nat, b: nat): seq<Byte> {
    seq(k, q requires 0 <= q < k => if q in have && b < |have[q]| then have[q][b] else 0)
  }

  lemma {:induction false} XorPresentIsSum(have: ShardMap, n: nat, b: nat, column: seq<Byte>)
    requires n <= |column|
    requires forall t :: 0 <= t < n ==> column[t] == if t in have && b < |have[t]| then have[t][b] else 0
    ensures XorPresent(have, n, b) == XorSum(column[..n])
  {
    if n > 0 {
      XorPresentIsSum(have, n - 1, b, column);
      XorSumNext(column, n - 1);
      XorLaws(XorSum(column[..n - 1]), 0, 0);
    }
  }

  /**
   * A missing shard takes the parity shard with as many present ones before it as there are missing shards before the
   * missing one: parity 0 gives the exclusive or of everything present, any other one zeros, and none gives nothing.
   */
  lemma SlotExactly(codec: Codec, have: ShardMap, j: nat, i: nat)
    requires j < codec.dataShards && j !in have
    ensures
      var k, slot := codec.dataShards, Slots(codec, have)[j];
      && (k <= i < k + codec.parityShards && i in have && |ParityBelow(have, k, i)| == |MissingBelow(have, j)| ==>
            && |slot| == |have[i]|
            && forall b :: 0 <= b < |slot| ==>
                 slot[b] == if i == k then Xor(XorSum(PresentBytesAt(have, k, b)), have[k][b]) else 0)
      && (|ParityBelow(have, k, k + codec.parityShards)| <= |MissingBelow(have, j)| ==> slot == [])
  {
    var k := codec.dataShards;
    RankCounts(have, j);
    ParityCounts(have, k, i);
    ParityCounts(have, k, k + codec.parityShards);
    if k <= i < k + codec.parityShards && i in have && |ParityBelow(have, k, i)| == |MissingBelow(have, j)| {
      RefillFrom(codec, have, i, j);
      BlockBytes(have, k, i);
    }
    SlotsOfPresentOrLost(codec, have, j);
  }

  lemma BlockBytes(have: ShardMap, k: nat, i: nat)
    requires k <= i && i in have
    ensures i == k ==> forall b :: 0 <= b < |have[k]| ==>
        XorBlock(have, k)[b] == Xor(XorSum(PresentBytesAt(have, k, b)), have[k][b])
  {
    if i == k {
      forall b | 0 <= b < |have[k]|
        ensures XorBlock(have, k)[b] == Xor(XorSum(PresentBytesAt(have, k, b)), have[k][b])
      {
        XorPresentIsSum(have, k, b, PresentBytesAt(have, k, b));
        assert PresentBytesAt(have, k, b)[..k] == PresentBytesAt(have, k, b);
      }
    }
  }
}
