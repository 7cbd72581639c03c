/** How many lost shards the codec survives, against what `CanRecover` answers and what any decoder could do. */
module Guarantee {
  import opened Bytes
  import opened Domain
  import opened Erasure
  import opened Recovery
  import opened Recoverability
  import opened RoundTrip
  import opened Losses
  import opened Survivors

  predicate CanRecover(codec: Codec, missingShards: int) {
    missingShards <= codec.parityShards
  }

  function LostData(codec: Codec, gone: set<nat>): set<nat> {
    set j | j in gone && j < codec.dataShards
  }

  function SurvivingRows(codec: Codec, gone: set<nat>): set<nat> {
    set i: nat | i < codec.parityShards && !ParityGone(codec, gone, i)
  }

  predicate ParityGone(codec: Codec, gone: set<nat>, i: nat) {
    codec.dataShards + i in gone
  }

  predicate ShardNumbers(codec: Codec, gone: set<nat>) {
    forall x :: x in gone ==> x < codec.dataShards + codec.parityShards
  }

  /** Whichever `m` of the shards are lost, the survivors determine the data: some decoder could restore it. */
  ghost predicate DeterminedAny(codec: Codec, size: nat, m: nat) {
    forall gone: set<nat> :: |gone| == m && ShardNumbers(codec, gone) ==>
      Determined(codec.dataShards, size, LostData(codec, gone), SurvivingRows(codec, gone))
  }

  /** The emitted shards without those numbered in `gone`. */
  function Remaining(codec: Codec, chunks: seq<Blob>, gone: set<nat>): ShardMap {
    map x: int | 0 <= x < codec.dataShards + codec.parityShards && x !in gone && EmittedShard(codec, chunks, x).Some?
      :: EmittedShard(codec, chunks, x).value
  }

  /** An object of `n` chunks cut at `size` bytes. */
  predicate Sized(chunks: seq<Blob>, n: nat, size: nat) {
    |chunks| == n && Cut(chunks) && (chunks != [] ==> ShardSize(chunks) == size)
  }

  /** The numbers of the shards emitted for `n` chunks. */
  function EmittedNumbers(codec: Codec, n: nat): set<nat> {
    Range(0, Min(n, codec.dataShards)) + Range(codec.dataShards, codec.parityShards)
  }

  /**
   * Whatever the object of `n` chunks and whichever `m` of its shards are lost, the program's decoder gives the
   * object back.
   */
  ghost predicate SurvivesAny(codec: Codec, size: nat, n: nat, m: nat) {
    forall chunks: seq<Blob>, gone: set<nat> ::
      Sized(chunks, n, size) && |gone| == m && gone <= EmittedNumbers(codec, n) ==>
      Reconstruct(codec, Remaining(codec, chunks, gone)) == Concat(chunks)
  }

  // ---------- counting ----------

  function Range(from: nat, count: nat): (r: set<nat>)
    ensures |r| == count
    ensures forall x :: x in r <==> from <= x < from + count
  {
    if count == 0 then {}
    else
      var r := Range(from, count - 1);
      assert from + count - 1 !in r;
      r + {from + count - 1}
  }

  lemma EmittedCount(codec: Codec, n: nat)
    ensures |EmittedNumbers(codec, n)| == Min(n, codec.dataShards) + codec.parityShards
  {
    assert Range(0, Min(n, codec.dataShards)) !! Range(codec.dataShards, codec.parityShards);
  }

  lemma OneOutside(base: set<nat>, all: set<nat>) returns (x: nat)
    requires base <= all && |base| < |all|
    ensures x in all && x !in base
  {
    assert (all - base) + base == all;
    assert |all - base| == |all| - |base|;
    x :| x in all - base;
  }

  /** `base` enlarged to `m` elements of `all`. */
  lemma {:induction false} Enlarge(base: set<nat>, all: set<nat>, m: nat) returns (s: set<nat>)
    requires base <= all && |base| <= m <= |all|
    ensures base <= s <= all && |s| == m
    decreases m - |base|
  {
    if |base| == m {
      s := base;
    } else {
      var x := OneOutside(base, all);
      s := Enlarge(base + {x}, all, m);
    }
  }

  /** Shard numbers of the parity rows of even index when there is one data shard, and that shard itself. */
  function EvenRows(count: nat): set<nat> {
    if count == 0 then {0} else EvenRows(count - 1) + {2 * count - 1}
  }

  lemma {:induction false} EvenRowsMembers(count: nat, x: nat)
    ensures x in EvenRows(count) <==> x == 0 || (x % 2 == 1 && x < 2 * count)
  {
    if count > 0 {
      EvenRowsMembers(count - 1, x);
    }
  }

  lemma {:induction false} EvenRowsSize(count: nat)
    ensures |EvenRows(count)| == count + 1
  {
    if count > 0 {
      EvenRowsSize(count - 1);
      EvenRowsMembers(count - 1, 2 * count - 1);
    }
  }

  lemma {:induction false} SubsetSize(small: set<nat>, large: set<nat>)
    requires small <= large
    ensures |small| <= |large|
  {
    if small != {} {
      var x :| x in small;
      SubsetSize(small - {x}, large - {x});
    }
  }

  // ---------- what any decoder could do ----------

  lemma OneDataShard(codec: Codec, gone: set<nat>)
    requires codec.dataShards == 1
    requires ShardNumbers(codec, gone)
    ensures !Solvable(LostData(codec, gone), SurvivingRows(codec, gone))
        <==> EvenRows((codec.parityShards + 1) / 2) <= gone
  {
    var half := (codec.parityShards + 1) / 2;
    var even := EvenRows(half);
    EvenRowsMembers(half, 0);
    var lost, rows := LostData(codec, gone), SurvivingRows(codec, gone);
    if even <= gone {
      assert 0 in lost;
      forall i | i in rows
        ensures i % 2 == 1
      {
        EvenRowsMembers(half, i + 1);
      }
    } else {
      var x :| x in even && x !in gone;
      EvenRowsMembers(half, x);
      if 0 in gone {
        assert lost == {0};
        assert x - 1 in rows;
      } else {
        assert lost == {};
      }
    }
  }

  predicate Determinable(codec: Codec, m: nat) {
    m == 0 || codec.dataShards == 0 || (codec.dataShards == 1 && m <= (codec.parityShards + 1) / 2)
  }

  lemma DeterminableIsDetermined(codec: Codec, size: nat, m: nat, gone: set<nat>)
    requires size > 0 && |gone| == m && Determinable(codec, m)
    requires ShardNumbers(codec, gone)
    ensures Determined(codec.dataShards, size, LostData(codec, gone), SurvivingRows(codec, gone))
  {
    RecoverableExactly(codec.dataShards, size, LostData(codec, gone), SurvivingRows(codec, gone));
    if m == 0 || codec.dataShards == 0 {
      assert LostData(codec, gone) == {};
    } else {
      var half := (codec.parityShards + 1) / 2;
      EvenRowsSize(half);
      OneDataShard(codec, gone);
      if EvenRows(half) <= gone {
        SubsetSize(EvenRows(half), gone);
      }
    }
  }

  lemma EvenRowsBelow(count: nat, n: nat)
    requires 2 * count <= n && n > 0
    ensures forall x :: x in EvenRows(count) ==> x < n
  {
    forall x | x in EvenRows(count)
      ensures x < n
    {
      EvenRowsMembers(count, x);
    }
  }

  /** Losses after which the data is not determined: data shard 1, or the only data shard with all even parity rows. */
  lemma NotDetermined(codec: Codec, size: nat, gone: set<nat>)
    requires size > 0 && ShardNumbers(codec, gone)
    requires if codec.dataShards == 1 then EvenRows((codec.parityShards + 1) / 2) <= gone
             else codec.dataShards > 1 && 1 in gone
    ensures !Determined(codec.dataShards, size, LostData(codec, gone), SurvivingRows(codec, gone))
  {
    RecoverableExactly(codec.dataShards, size, LostData(codec, gone), SurvivingRows(codec, gone));
    if codec.dataShards == 1 {
      OneDataShard(codec, gone);
    } else {
      assert 1 in LostData(codec, gone);
    }
  }

  lemma BeyondDetermined(codec: Codec, size: nat, m: nat) returns (gone: set<nat>)
    requires size > 0 && m <= codec.dataShards + codec.parityShards && !Determinable(codec, m)
    ensures |gone| == m && ShardNumbers(codec, gone)
    ensures !Determined(codec.dataShards, size, LostData(codec, gone), SurvivingRows(codec, gone))
  {
    var half := (codec.parityShards + 1) / 2;
    EvenRowsSize(half);
    EvenRowsBelow(half, codec.parityShards + 1);
    var base: set<nat> := if codec.dataShards == 1 then EvenRows(half) else {1};
    gone := Enlarge(base, Range(0, codec.dataShards + codec.parityShards), m);
    NotDetermined(codec, size, gone);
  }

  /**
   * A bound for every decoder: the survivors of any `m` losses determine the data only in the degenerate cases that
   * nothing is lost, there is no data shard, or a single one with a parity row of even index left in every case.
   */
  lemma DeterminedAnyExactly(codec: Codec, size: nat, m: nat)
    requires size > 0 && m <= codec.dataShards + codec.parityShards
    ensures DeterminedAny(codec, size, m)
        <==> m == 0 || codec.dataShards == 0 || (codec.dataShards == 1 && m <= (codec.parityShards + 1) / 2)
  {
    if Determinable(codec, m) {
      forall gone: set<nat> | |gone| == m && ShardNumbers(codec, gone)
        ensures Determined(codec.dataShards, size, LostData(codec, gone), SurvivingRows(codec, gone))
      {
        DeterminableIsDetermined(codec, size, m, gone);
      }
    } else {
      var gone := BeyondDetermined(codec, size, m);
    }
  }

  // ---------- what the program's decoder does ----------

  /** Nothing to lose, all chunks kept with nothing lost, or one chunk, one loss, and parity that makes up for it. */
  predicate Survivable(codec: Codec, n: nat, m: nat) {
    var k, p := codec.dataShards, codec.parityShards;
    || n == 0
    || (n == k && m == 0)
    || (n < k && m == 0 && p == 0)
    || (n == 1 && m == 1 && (if k == 1 then p >= 1 else k > 1 && p == 1))
  }

  lemma RemainingSurvives(codec: Codec, chunks: seq<Blob>, gone: set<nat>)
    ensures Surviving(codec, chunks, Remaining(codec, chunks, gone))
    ensures forall x: nat :: x in EmittedNumbers(codec, |chunks|) ==>
        (x in Remaining(codec, chunks, gone) <==> x !in gone)
  {
  }

  lemma RemainingNumbers(codec: Codec, chunks: seq<Blob>, gone: set<nat>)
    ensures forall x: nat :: x in EmittedNumbers(codec, |chunks|) ==>
        (x in Remaining(codec, chunks, gone) <==> x !in gone)
  {
  }

  lemma SyndromeOfOneChunk(codec: Codec, chunks: seq<Blob>)
    requires |chunks| == 1
    ensures ChunkSyndrome(codec, chunks) == Zeros(ShardSize(chunks))
  {
    forall b: nat | b < ShardSize(chunks)
      ensures ChunkSyndrome(codec, chunks)[b] == 0
    {
      var column := DataColumn(codec, chunks, b);
      forall t | 0 < t < |column|
        ensures column[t] == 0
      {
        DataByte(codec, chunks, b, t);
      }
      SyndromeOfFirst(column);
    }
  }

  /** No chunk is lost and none is dropped. */
  lemma AllChunksLeft(codec: Codec, chunks: seq<Blob>, gone: set<nat>)
    requires Cut(chunks) && 0 < |chunks| <= codec.dataShards
    requires forall x: nat :: x < |chunks| ==> x !in gone
    requires |chunks| < codec.dataShards ==> Range(codec.dataShards, codec.parityShards) <= gone
    ensures Reconstruct(codec, Remaining(codec, chunks, gone)) == Concat(chunks)
  {
    var have := Remaining(codec, chunks, gone);
    RemainingSurvives(codec, chunks, gone);
    ChunksStay(codec, chunks, gone);
    NoChunkLostExactly(codec, chunks, have);
  }

  lemma ChunksStay(codec: Codec, chunks: seq<Blob>, gone: set<nat>)
    requires 0 < |chunks| <= codec.dataShards
    requires forall x: nat :: x < |chunks| ==> x !in gone
    requires |chunks| < codec.dataShards ==> Range(codec.dataShards, codec.parityShards) <= gone
    ensures forall j :: 0 <= j < |chunks| ==> j in Remaining(codec, chunks, gone)
    ensures |chunks| == codec.dataShards || ParityLeft(codec, Remaining(codec, chunks, gone)) == 0
  {
    var have := Remaining(codec, chunks, gone);
    RemainingNumbers(codec, chunks, gone);
    NoParityExactly(have, codec.dataShards, codec.dataShards + codec.parityShards);
  }

  /** One chunk, lost, with all parity left: the syndrome of one chunk is zero, so it comes back. */
  lemma OnlyChunkMended(codec: Codec, chunks: seq<Blob>)
    requires Cut(chunks) && |chunks| == 1 && codec.dataShards >= 1 && codec.parityShards >= 1
    requires codec.dataShards > 1 ==> codec.parityShards == 1
    ensures Reconstruct(codec, Remaining(codec, chunks, {0})) == Concat(chunks)
  {
    var have := Remaining(codec, chunks, {0});
    RemainingSurvives(codec, chunks, {0});
    AnyLossRightExactly(codec, chunks, have);
    assert chunks[..1] == chunks;
    FirstLost(codec, chunks);
    SyndromeOfOneChunk(codec, chunks);
    ShardSizeOfEqual(chunks, |chunks[0]|);
  }

  lemma FirstLost(codec: Codec, chunks: seq<Blob>)
    requires |chunks| == 1 <= codec.dataShards
    ensures
      var have := Remaining(codec, chunks, {0});
      && Rank(have, 0) == 0 && Rank(have, 1) == 1 && ParityLeft(codec, have) == codec.parityShards
      && (codec.parityShards > 0 ==> codec.dataShards in have)
  {
    var have := Remaining(codec, chunks, {0});
    RankStep(have, 0);
    ParityAllPresent(have, codec.dataShards, codec.dataShards + codec.parityShards);
  }

  lemma SurvivableIsRestored(codec: Codec, chunks: seq<Blob>, size: nat, gone: set<nat>)
    requires Survivable(codec, |chunks|, |gone|) && Sized(chunks, |chunks|, size)
    requires gone <= EmittedNumbers(codec, |chunks|)
    ensures Reconstruct(codec, Remaining(codec, chunks, gone)) == Concat(chunks)
  {
    if chunks == [] {
      NoChunksNoBytes(codec, gone);
    } else if |gone| == 1 && 0 in gone {
      SingletonOf(gone);
      OnlyChunkMended(codec, chunks);
    } else {
      if |gone| == 1 && codec.dataShards > 1 {
        var x :| x in gone;
        Singleton(gone, x);
        assert x == codec.dataShards;
      }
      AllChunksLeft(codec, chunks, gone);
    }
  }

  lemma NoChunksNoBytes(codec: Codec, gone: set<nat>)
    ensures Reconstruct(codec, Remaining(codec, [], gone)) == []
  {
    RemainingSurvives(codec, [], gone);
    NothingOfNothing(codec, Remaining(codec, [], gone));
  }

  lemma Singleton(s: set<nat>, x: nat)
    requires |s| == 1 && x in s
    ensures s == {x}
  {
    assert |s - {x}| == 0;
  }

  lemma SingletonOf(gone: set<nat>)
    requires |gone| == 1 && 0 in gone
    ensures gone == {0}
  {
    Singleton(gone, 0);
  }

  /** Chunks of `size` zeros, but ones in chunk `j`. */
  function Unit(n: nat, size: nat, j: nat): (chunks: seq<Blob>)
    requires j < n
    ensures Rectangular(chunks, n, size)
  {
    ZeroShards(n, size)[j := Constant(size, 1)]
  }

  lemma {:induction false} ShardSizeOfEqual(chunks: seq<Blob>, size: nat)
    requires chunks != [] && Rectangular(chunks, |chunks|, size)
    ensures ShardSize(chunks) == size
  {
    if |chunks| > 1 {
      ShardSizeOfEqual(chunks[..|chunks| - 1], size);
    }
  }

  lemma UnitSized(n: nat, size: nat, j: nat)
    requires size > 0 && j < n
    ensures Sized(Unit(n, size, j), n, size)
  {
    ShardSizeOfEqual(Unit(n, size, j), size);
  }

  /** With ones in chunk 1 only, the syndrome is all threes, so chunk 1 does not come back. */
  lemma SecondChunkSpoiled(codec: Codec, size: nat, n: nat, have: ShardMap)
    requires size > 0 && 2 <= n <= codec.dataShards
    ensures !Spared(codec, Unit(n, size, 1), have, 1)
  {
    var chunks := Unit(n, size, 1);
    UnitSized(n, size, 1);
    var column := DataColumn(codec, chunks, 0);
    forall t | 0 <= t < |column|
      ensures column[t] == if t == 1 then 1 else 0
    {
      DataByte(codec, chunks, 0, t);
    }
    SyndromeOfUnit(column);
    assert ChunkSyndrome(codec, chunks)[0] == 3;
    assert chunks[1][0] == 1 && Zeros(size)[0] == 0;
  }

  lemma SecondChunkLost(codec: Codec, size: nat, n: nat, gone: set<nat>)
    requires size > 0 && 2 <= n <= codec.dataShards && 1 in gone
    ensures Reconstruct(codec, Remaining(codec, Unit(n, size, 1), gone)) != Concat(Unit(n, size, 1))
  {
    var chunks, have := Unit(n, size, 1), Remaining(codec, Unit(n, size, 1), gone);
    UnitSized(n, size, 1);
    RemainingSurvives(codec, chunks, gone);
    AnyLossRightExactly(codec, chunks, have);
    assert chunks[..n] == chunks;
    SecondChunkSpoiled(codec, size, n, have);
    assert 1 !in have;
  }

  /** One chunk lost together with parity 0, or alone with too little or too much parity left. */
  lemma OnlyChunkLost(codec: Codec, size: nat, gone: set<nat>)
    requires size > 0 && codec.dataShards >= 1 && 0 in gone
    requires codec.dataShards in gone || (gone == {0} && !Survivable(codec, 1, 1))
    ensures Reconstruct(codec, Remaining(codec, Unit(1, size, 0), gone)) != Concat(Unit(1, size, 0))
  {
    var chunks, have := Unit(1, size, 0), Remaining(codec, Unit(1, size, 0), gone);
    UnitSized(1, size, 0);
    RemainingSurvives(codec, chunks, gone);
    AnyLossRightExactly(codec, chunks, have);
    assert chunks[..1] == chunks;
    assert 0 !in have;
    if codec.dataShards in gone {
      assert !Spared(codec, chunks, have, 0) by {
        assert chunks[0][0] == 1 && Zeros(size)[0] == 0;
      }
    } else {
      FirstLost(codec, chunks);
    }
  }

  /** Parity adds blocks to an object of fewer chunks than data shards. */
  lemma NothingLostButPadded(codec: Codec, chunks: seq<Blob>)
    requires Cut(chunks) && 0 < |chunks| < codec.dataShards && codec.parityShards > 0
    ensures Reconstruct(codec, Remaining(codec, chunks, {})) != Concat(chunks)
  {
    RemainingSurvives(codec, chunks, {});
    SomeParityLeft(codec, chunks);
    NoChunkLostExactly(codec, chunks, Remaining(codec, chunks, {}));
  }

  lemma SomeParityLeft(codec: Codec, chunks: seq<Blob>)
    requires codec.parityShards > 0
    ensures ParityLeft(codec, Remaining(codec, chunks, {})) > 0
  {
    ParityZeroFirst(Remaining(codec, chunks, {}), codec.dataShards, codec.dataShards + codec.parityShards);
  }

  /** For every other number of chunks and losses some object and some loss are not restored. */
  lemma BeyondSurvivable(codec: Codec, size: nat, n: nat, m: nat) returns (chunks: seq<Blob>, gone: set<nat>)
    requires size > 0 && m <= Min(n, codec.dataShards) + codec.parityShards && !Survivable(codec, n, m)
    ensures Sized(chunks, n, size) && |gone| == m && gone <= EmittedNumbers(codec, n)
    ensures Reconstruct(codec, Remaining(codec, chunks, gone)) != Concat(chunks)
  {
    var k := codec.dataShards;
    var j: nat := if n == 1 then 0 else 1;
    var base: set<nat> := if n > k || m == 0 then {} else if n == 1 && m > 1 then {0, k} else {j};
    EmittedCount(codec, n);
    gone := Enlarge(base, EmittedNumbers(codec, n), m);
    chunks := Unit(n, size, j);
    UnitSized(n, size, j);
    if n > k {
      RemainingSurvives(codec, chunks, gone);
      SurplusLost(codec, chunks, Remaining(codec, chunks, gone));
    } else if m == 0 {
      NothingLostButPadded(codec, chunks);
    } else if n >= 2 {
      SecondChunkLost(codec, size, n, gone);
    } else {
      if m == 1 {
        SingletonOf(gone);
      }
      OnlyChunkLost(codec, size, gone);
    }
  }

  /**
   * The exact answer for every layout, shard size, number of chunks and number of losses: every object of `n` chunks
   * survives every loss of `m` of its shards if and only if all chunks fill the data shards and nothing is lost (or
   * they do not fill them, and there is no parity to add blocks), or there is one chunk and one loss, with parity for
   * a single data shard, or exactly one parity shard for several.
   */
  lemma SurvivesAnyExactly(codec: Codec, size: nat, n: nat, m: nat)
    requires size > 0 && m <= Min(n, codec.dataShards) + codec.parityShards
    ensures
      var k, p := codec.dataShards, codec.parityShards;
      SurvivesAny(codec, size, n, m)
      <==> (|| n == 0
            || (n == k && m == 0)
            || (n < k && m == 0 && p == 0)
            || (n == 1 && m == 1 && (if k == 1 then p >= 1 else k > 1 && p == 1)))
  {
    if Survivable(codec, n, m) {
      forall chunks: seq<Blob>, gone: set<nat> |
        Sized(chunks, n, size) && |gone| == m && gone <= EmittedNumbers(codec, n)
        ensures Reconstruct(codec, Remaining(codec, chunks, gone)) == Concat(chunks)
      {
        SurvivableIsRestored(codec, chunks, size, gone);
      }
    } else {
      var chunks, gone := BeyondSurvivable(codec, size, n, m);
    }
  }

  /** `CanRecover` asks whether at least as many shards are left as there are data shards. */
  lemma CanRecoverCounts(codec: Codec, gone: set<nat>)
    requires ShardNumbers(codec, gone)
    ensures CanRecover(codec, |gone|)
       <==> |Range(0, codec.dataShards + codec.parityShards) - gone| >= codec.dataShards
  {
    var all := Range(0, codec.dataShards + codec.parityShards);
    assert all == (all - gone) + gone;
  }

  /** `CanRecover` tells the truth about the decoder for every number of missing shards exactly in these cases. */
  lemma CanRecoverIsRightExactly(codec: Codec, size: nat, n: nat)
    requires size > 0
    ensures (forall m: nat :: m <= Min(n, codec.dataShards) + codec.parityShards ==>
               (CanRecover(codec, m) <==> SurvivesAny(codec, size, n, m)))
        <==> n == 0 || (n <= codec.dataShards && codec.parityShards == 0)
             || (n == codec.dataShards == codec.parityShards == 1)
  {
    var k, p := codec.dataShards, codec.parityShards;
    forall m: nat | m <= Min(n, k) + p
      ensures SurvivesAny(codec, size, n, m) <==> Survivable(codec, n, m)
    {
      SurvivesAnyExactly(codec, size, n, m);
    }
    if n > k || (0 < n < k && p > 0) {
      assert 0 <= Min(n, k) + p;
      assert CanRecover(codec, 0) && !SurvivesAny(codec, size, n, 0);
    } else if n == k > 0 && p > 0 && !(k == 1 && p == 1) {
      assert p <= Min(n, k) + p;
      assert CanRecover(codec, p) && !SurvivesAny(codec, size, n, p);
    }
  }

  /**
   * Objects of k chunks: the decoder survives fewer losses than the survivors would allow exactly for one data shard
   * and these `m`.
   */
  lemma DecoderFallsShortExactly(codec: Codec, size: nat, m: nat)
    requires size > 0 && m <= codec.dataShards + codec.parityShards
    ensures SurvivesAny(codec, size, codec.dataShards, m) ==> DeterminedAny(codec, size, m)
    ensures DeterminedAny(codec, size, m) && !SurvivesAny(codec, size, codec.dataShards, m)
        <==> codec.dataShards == 1 && 2 <= m <= (codec.parityShards + 1) / 2
  {
    SurvivesAnyExactly(codec, size, codec.dataShards, m);
    DeterminedAnyExactly(codec, size, m);
  }

  /** One data shard holding the byte 5, three parity shards, data and parity 0 lost: determined, yet decoded as 0. */
  lemma GapOfThreeParityShards()
    ensures DeterminedAny(Codec(1, 3), 1, 2)
    ensures Reconstruct(Codec(1, 3), Remaining(Codec(1, 3), [[5]], {0, 1})) == [0]
  {
    var codec, chunks := Codec(1, 3), [[5]];
    DeterminedAnyExactly(codec, 1, 2);
    var have := Remaining(codec, chunks, {0, 1});
    RemainingSurvives(codec, chunks, {0, 1});
    RankStep(have, 0);
    assert ShardSize(chunks) == 1;
    ParityOfGap(have);
    SlotIsReplacement(codec, chunks, have, 0);
    OneSlot(codec, have);
  }

  lemma OneSlot(codec: Codec, have: ShardMap)
    requires codec.dataShards == 1
    ensures Reconstruct(codec, have) == Slot(codec, have, 0)
  {
    assert Slots(codec, have) == [Slot(codec, have, 0)];
    assert Concat([]) + Slot(codec, have, 0) == Slot(codec, have, 0);
  }

  lemma ParityOfGap(have: ShardMap)
    requires 2 in have && 1 !in have
    ensures ParityLeft(Codec(1, 3), have) > 0
  {
    PresentParityPrefix(have, 1, 3, 4);
  }

  /**
   * In the default layout of four data and two parity shards an object of four chunks does not survive every single
   * loss, by this decoder or any other, and an object of any other number of chunks does not even come back whole.
   */
  lemma DefaultLayout(size: nat, n: nat, m: nat)
    requires size > 0 && n > 0 && m <= Min(n, 4) + 2
    ensures SurvivesAny(Codec(4, 2), size, n, m) <==> n == 4 && m == 0
    ensures DeterminedAny(Codec(4, 2), size, m) <==> m == 0
    ensures CanRecover(Codec(4, 2), m) <==> m <= 2
  {
    SurvivesAnyExactly(Codec(4, 2), size, n, m);
    DeterminedAnyExactly(Codec(4, 2), size, m);
  }

  /** Handing the decoder every emitted pair but the lost ones, in any order, makes exactly `Remaining` available. */
  lemma RemainingIsHandedOver(codec: Codec, chunks: seq<Blob>, sha256: Hash, picks: seq<nat>, gone: set<nat>)
    requires forall t :: 0 <= t < |picks| ==> picks[t] < |EmittedData(codec, chunks)|
    requires forall s, t :: 0 <= s < t < |picks| ==> picks[s] != picks[t]
    requires forall t: nat :: t < |EmittedData(codec, chunks)| ==>
        (t in picks <==> EmittedIndex(codec, chunks, t) !in gone)
    ensures
      var rows := seq(|picks|, t requires 0 <= t < |picks| => EmittedRows(codec, chunks, sha256)[picks[t]]);
      var data := seq(|picks|, t requires 0 <= t < |picks| => EmittedData(codec, chunks)[picks[t]]);
      Available(rows, data) == Remaining(codec, chunks, gone)
  {
    var rows := seq(|picks|, t requires 0 <= t < |picks| => EmittedRows(codec, chunks, sha256)[picks[t]]);
    var data := seq(|picks|, t requires 0 <= t < |picks| => EmittedData(codec, chunks)[picks[t]]);
    var have, left := Available(rows, data), Remaining(codec, chunks, gone);
    SelectionSurvives(codec, chunks, sha256, picks);
    forall x | x in have
      ensures x in left
    {
      var t :| 0 <= t < |picks| && rows[t].chunkIndex == x;
      assert picks[t] in picks;
      PickedRemains(codec, chunks, sha256, picks[t], gone);
    }
    forall x | x in left
      ensures x in have
    {
      var t := RemainingIsPicked(codec, chunks, sha256, picks, gone, x);
      assert rows[t].chunkIndex == x;
    }
    assert have.Keys == left.Keys;
  }

  lemma RemainingIsPicked(codec: Codec, chunks: seq<Blob>, sha256: Hash, picks: seq<nat>, gone: set<nat>, x: int)
      returns (t: nat)
    requires forall u: nat :: u < |EmittedData(codec, chunks)| ==>
        (u in picks <==> EmittedIndex(codec, chunks, u) !in gone)
    requires x in Remaining(codec, chunks, gone)
    ensures t < |picks| && picks[t] < |EmittedData(codec, chunks)|
    ensures EmittedRows(codec, chunks, sha256)[picks[t]].chunkIndex == x
  {
    var u := EmittedPosition(codec, chunks, x);
    EmittedPair(codec, chunks, sha256, u);
    t :| t < |picks| && picks[t] == u;
  }

  lemma PickedRemains(codec: Codec, chunks: seq<Blob>, sha256: Hash, t: nat, gone: set<nat>)
    requires t < |EmittedData(codec, chunks)| && EmittedIndex(codec, chunks, t) !in gone
    ensures EmittedRows(codec, chunks, sha256)[t].chunkIndex in Remaining(codec, chunks, gone)
  {
    EmittedPair(codec, chunks, sha256, t);
    EmittedBelow(codec, chunks, t);
  }

  lemma EmittedBelow(codec: Codec, chunks: seq<Blob>, t: nat)
    requires t < |EmittedData(codec, chunks)|
    ensures EmittedIndex(codec, chunks, t) < codec.dataShards + codec.parityShards
  {
  }
}
