/** Sums over selected file rows of a bucket. */
module Tallies {
  import opened Domain
  import opened Store

  /** What the cached counters count: bytes or objects. */
  datatype Measure = Bytes | Objects

  function Amount(m: Measure, size: nat): nat {
    if m.Bytes? then size else 1
  }

  function Recorded(m: Measure, b: Bucket): int {
    if m.Bytes? then b.currentSizeBytes else b.objectCount
  }

  function Tally(m: Measure, files: seq<FileRow>, who: set<nat>, bucket: nat): nat {
    if files == [] then 0
    else
      var n := |files| - 1;
      Tally(m, files[..n], who, bucket) + (if n in who && files[n].bucket == bucket then Amount(m, files[n].size) else 0)
  }

  predicate IsLive(files: seq<FileRow>, f: nat) {
    f < |files| && files[f].Live()
  }

  function LiveIds(files: seq<FileRow>): set<nat> {
    set f: nat | f < |files| && IsLive(files, f)
  }

  lemma LivePush(files: seq<FileRow>, row: FileRow)
    requires row.Live()
    ensures LiveIds(files + [row]) == LiveIds(files) + {|files|}
  {
    forall f: nat
      ensures IsLive(files + [row], f) <==> IsLive(files, f) || f == |files|
    {
    }
  }

  lemma LiveRemove(files: seq<FileRow>, f: nat, now: nat)
    requires f < |files|
    ensures LiveIds(files[f := files[f].(deletedAt := Some(now))]) == LiveIds(files) - {f}
  {
    forall g: nat
      ensures IsLive(files[f := files[f].(deletedAt := Some(now))], g) <==> IsLive(files, g) && g != f
    {
    }
  }

  lemma {:induction false} TallySame(m: Measure, files: seq<FileRow>, files': seq<FileRow>, who: set<nat>, who': set<nat>,
                                     bucket: nat)
    requires |files| == |files'|
    requires forall f :: 0 <= f < |files| ==> files'[f].bucket == files[f].bucket && files'[f].size == files[f].size
    requires forall f :: 0 <= f < |files| ==> (f in who <==> f in who')
    ensures Tally(m, files', who', bucket) == Tally(m, files, who, bucket)
  {
    if files != [] {
      var n := |files| - 1;
      TallySame(m, files[..n], files'[..n], who, who', bucket);
    }
  }

  lemma TallyPush(m: Measure, files: seq<FileRow>, row: FileRow, who: set<nat>, bucket: nat)
    ensures Tally(m, files + [row], who, bucket)
        == Tally(m, files, who, bucket) + (if |files| in who && row.bucket == bucket then Amount(m, row.size) else 0)
  {
    assert (files + [row])[..|files|] == files;
  }

  lemma {:induction false} TallyRemove(m: Measure, files: seq<FileRow>, who: set<nat>, f: nat, bucket: nat)
    requires f < |files| && f in who
    ensures Tally(m, files, who - {f}, bucket)
        == Tally(m, files, who, bucket) - (if files[f].bucket == bucket then Amount(m, files[f].size) else 0)
  {
    var n := |files| - 1;
    if f < n {
      TallyRemove(m, files[..n], who, f, bucket);
    } else {
      TallySame(m, files[..n], files[..n], who, who - {f}, bucket);
    }
  }

  lemma {:induction false} TallySplit(m: Measure, files: seq<FileRow>, who: set<nat>, who': set<nat>, bucket: nat)
    requires who !! who'
    ensures Tally(m, files, who + who', bucket) == Tally(m, files, who, bucket) + Tally(m, files, who', bucket)
  {
    if files != [] {
      TallySplit(m, files[..|files| - 1], who, who', bucket);
    }
  }

  lemma {:induction false} TallyZero(m: Measure, files: seq<FileRow>, who: set<nat>, bucket: nat)
    requires forall f :: 0 <= f < |files| && f in who ==> files[f].bucket != bucket
    ensures Tally(m, files, who, bucket) == 0
  {
    if files != [] {
      TallyZero(m, files[..|files| - 1], who, bucket);
    }
  }

  lemma {:induction false} LiveCountZero(files: seq<FileRow>, bucket: nat)
    ensures LiveCount(files, bucket) == 0 <==>
        forall f :: 0 <= f < |files| && files[f].Live() ==> files[f].bucket != bucket
  {
    if files != [] {
      var n := |files| - 1;
      LiveCountZero(files[..n], bucket);
      assert forall f :: 0 <= f < n ==> files[..n][f] == files[f];
    }
  }

  function LiveInBucket(files: seq<FileRow>, bucket: nat): set<nat> {
    set f: nat | f < |files| && files[f].deletedAt.None? && files[f].bucket == bucket
  }

  /** The count is the number of live rows of the bucket. */
  lemma {:induction false} LiveCountCounts(files: seq<FileRow>, bucket: nat)
    ensures LiveCount(files, bucket) == |LiveInBucket(files, bucket)|
  {
    if files != [] {
      var n := |files| - 1;
      LiveCountCounts(files[..n], bucket);
      assert LiveInBucket(files, bucket) == LiveInBucket(files[..n], bucket)
          + (if files[n].deletedAt.None? && files[n].bucket == bucket then {n} else {});
    }
  }

  /** The lookup finds a bucket exactly when there is a live one of the name. */
  lemma {:induction false} NameFoundExactly(buckets: seq<Bucket>, name: string)
    ensures LiveBucketNamed(buckets, name).None?
       <==> forall b :: 0 <= b < |buckets| && buckets[b].deletedAt.None? ==> buckets[b].name != name
  {
    if buckets != [] {
      var n := |buckets| - 1;
      NameFoundExactly(buckets[..n], name);
      assert forall b :: 0 <= b < n ==> buckets[..n][b] == buckets[b];
    }
  }
}
