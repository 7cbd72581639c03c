/** When files stay in buckets that are there, and live bucket names distinct, under every interleaving. */
module Soundness {
  import opened Domain
  import opened Store
  import opened Tallies
  import opened Interleaving
  import opened Quota

  // ---------- files in live buckets ----------

  /** A bucket with live files has not been deleted. */
  predicate Housed(s: System, b: nat) {
    LiveCount(s.files, b) > 0 ==> Present(s, b)
  }

  /** The step is a put inserting its row into the bucket. */
  predicate Inserts(s: System, a: Action, b: nat) {
    a.Advance? && a.j < |s.jobs| && s.jobs[a.j].PutRead? && s.jobs[a.j].bucket == b
  }

  /** The step deletes the bucket. */
  predicate Drops(s: System, a: Action, b: nat) {
    a.Advance? && a.j < |s.jobs| && s.jobs[a.j].DropCounted? && s.jobs[a.j].bucket == b && Present(s, b)
  }

  /** The step's own check, made earlier, would pass again: the put's bucket lookup, the deletion's file count. */
  predicate StillHolds(s: System, a: Action, b: nat) {
    && (Inserts(s, a, b) ==> Present(s, b))
    && (Drops(s, a, b) ==> LiveCount(s.files, b) == 0)
  }

  lemma {:induction false} CountPush(files: seq<FileRow>, row: FileRow, b: nat)
    ensures LiveCount(files + [row], b) == LiveCount(files, b) + if row.Live() && row.bucket == b then 1 else 0
  {
    assert (files + [row])[..|files|] == files;
  }

  /** Rows that stay in place can only leave the count. */
  lemma CountShrinks(files: seq<FileRow>, files': seq<FileRow>, b: nat)
    requires |files'| == |files|
    requires forall f :: 0 <= f < |files| ==>
      files'[f].bucket == files[f].bucket && (files'[f].Live() ==> files[f].Live())
    ensures LiveCount(files, b) == 0 ==> LiveCount(files', b) == 0
  {
    LiveCountZero(files, b);
    LiveCountZero(files', b);
  }

  /** Only deleting the bucket takes it away. */
  lemma StaysPresent(s: System, a: Action, b: nat)
    requires Bounded(s) && CanDo(s, a) && b < |s.buckets|
    ensures Present(Do(s, a), b) <==> Present(s, b) && !Drops(s, a, b)
  {
    if a.Advance? {
      assert JobOk(s, s.jobs[a.j]);
    }
  }

  /** Only an insert makes a bucket hold a live file. */
  lemma StaysEmpty(s: System, a: Action, b: nat)
    requires Bounded(s) && CanDo(s, a) && !Inserts(s, a, b) && LiveCount(s.files, b) == 0
    ensures LiveCount(Do(s, a).files, b) == 0
  {
    StepGrows(s, a);
    if a.Advance? && s.jobs[a.j].PutRead? {
      assert JobOk(s, s.jobs[a.j]);
      CountPush(s.files, s.jobs[a.j].row, b);
    } else {
      CountShrinks(s.files, Do(s, a).files, b);
    }
  }

  lemma InsertHousesExactly(s: System, a: Action, b: nat)
    requires Bounded(s) && CanDo(s, a) && Inserts(s, a, b)
    ensures Housed(Do(s, a), b) <==> Present(s, b)
  {
    assert JobOk(s, s.jobs[a.j]);
    CountPush(s.files, s.jobs[a.j].row, b);
    StaysPresent(s, a, b);
  }

  lemma NotCreatedIsEmpty(s: System, b: nat)
    requires Bounded(s) && b >= |s.buckets|
    ensures LiveCount(s.files, b) == 0
  {
    LiveCountZero(s.files, b);
  }

  lemma StepHousesExactly(s: System, a: Action, b: nat)
    requires Bounded(s) && CanDo(s, a) && Housed(s, b)
    ensures Housed(Do(s, a), b) <==> StillHolds(s, a, b)
  {
    if Inserts(s, a, b) {
      InsertHousesExactly(s, a, b);
    } else if b >= |s.buckets| {
      NotCreatedIsEmpty(s, b);
      StaysEmpty(s, a, b);
    } else {
      StaysPresent(s, a, b);
      if LiveCount(s.files, b) == 0 {
        StaysEmpty(s, a, b);
      }
    }
  }

  ghost predicate AlwaysHoused(states: seq<System>, i: nat, b: nat)
    requires i < |states|
  {
    forall t :: 0 <= t <= i ==> Housed(states[t], b)
  }

  ghost predicate ChecksStillHold(states: seq<System>, actions: seq<Action>, i: nat, b: nat)
    requires i <= |actions| < |states|
  {
    forall t :: 0 <= t < i ==> StillHolds(states[t], actions[t], b)
  }

  /**
   * In every run, files stay in buckets that are there if and only if each insert's bucket lookup and each bucket
   * deletion's file count would give the same answer again when the insert and the deletion take effect.
   */
  lemma {:induction false} HousedExactly(states: seq<System>, actions: seq<Action>, i: nat, b: nat)
    requires Run(states, actions) && i <= |actions|
    ensures AlwaysHoused(states, i, b) <==> ChecksStillHold(states, actions, i, b)
  {
    if i > 0 {
      HousedExactly(states, actions, i - 1, b);
      AnyStep(states, actions, i - 1);
      QuotaHolds(states, actions, i - 1);
      assert AlwaysHoused(states, i, b) <==> AlwaysHoused(states, i - 1, b) && Housed(states[i], b);
      assert ChecksStillHold(states, actions, i, b)
          <==> ChecksStillHold(states, actions, i - 1, b) && StillHolds(states[i - 1], actions[i - 1], b);
      if Housed(states[i - 1], b) {
        StepHousesExactly(states[i - 1], actions[i - 1], b);
      }
    }
  }

  // ---------- puts apart from deletions ----------

  predicate Putting(s: System, j: nat, b: nat) {
    j < |s.jobs| && s.jobs[j].PutRead? && s.jobs[j].bucket == b
  }

  predicate Dropping(s: System, j: nat, b: nat) {
    j < |s.jobs| && s.jobs[j].DropCounted? && s.jobs[j].bucket == b
  }

  /** No put is between its lookup and its insert while a deletion is between its count and its effect. */
  ghost predicate Apart(s: System, b: nat) {
    forall i: nat, j: nat :: !(Putting(s, i, b) && Dropping(s, j, b))
  }

  /** What an open put and an open deletion saw still holds. */
  ghost predicate Unchanged(s: System, b: nat) {
    && (forall j: nat :: Putting(s, j, b) ==> Present(s, b))
    && (forall j: nat :: Dropping(s, j, b) ==> LiveCount(s.files, b) == 0)
  }

  lemma PuttingBefore(s: System, a: Action, j: nat, b: nat)
    requires CanDo(s, a) && Putting(Do(s, a), j, b)
    ensures Putting(s, j, b) || (a == Advance(j) && s.jobs[j].PutStart? && Present(s, b))
  {
  }

  lemma DroppingBefore(s: System, a: Action, j: nat, b: nat)
    requires CanDo(s, a) && Dropping(Do(s, a), j, b)
    ensures Dropping(s, j, b) || (a == Advance(j) && s.jobs[j].DropFound? && LiveCount(s.files, b) == 0)
  {
  }

  lemma PutStaysUnchanged(s: System, a: Action, j: nat, b: nat)
    requires Bounded(s) && CanDo(s, a) && Unchanged(s, b) && Apart(s, b) && Putting(Do(s, a), j, b)
    ensures Present(Do(s, a), b)
  {
    PuttingBefore(s, a, j, b);
    assert Present(s, b);
    StaysPresent(s, a, b);
    if Drops(s, a, b) {
      assert Putting(s, j, b) && Dropping(s, a.j, b);
    }
  }

  lemma DropStaysUnchanged(s: System, a: Action, j: nat, b: nat)
    requires Bounded(s) && CanDo(s, a) && Unchanged(s, b) && Apart(s, b) && Dropping(Do(s, a), j, b)
    ensures LiveCount(Do(s, a).files, b) == 0
  {
    DroppingBefore(s, a, j, b);
    assert LiveCount(s.files, b) == 0;
    if Inserts(s, a, b) {
      assert Dropping(s, j, b) && Putting(s, a.j, b);
    } else {
      StaysEmpty(s, a, b);
    }
  }

  lemma {:induction false} ApartStaysUnchanged(states: seq<System>, actions: seq<Action>, i: nat, b: nat)
    requires Run(states, actions) && i <= |actions|
    requires forall t :: 0 <= t < i ==> Apart(states[t], b)
    ensures Unchanged(states[i], b)
  {
    if i > 0 {
      var s, a := states[i - 1], actions[i - 1];
      ApartStaysUnchanged(states, actions, i - 1, b);
      AnyStep(states, actions, i - 1);
      QuotaHolds(states, actions, i - 1);
      forall j: nat | Putting(states[i], j, b)
        ensures Present(states[i], b)
      {
        PutStaysUnchanged(s, a, j, b);
      }
      forall j: nat | Dropping(states[i], j, b)
        ensures LiveCount(states[i].files, b) == 0
      {
        DropStaysUnchanged(s, a, j, b);
      }
    }
  }

  /** Where puts and deletions of a bucket stay apart, its files stay in a bucket that is there. */
  lemma ApartKeepsHoused(states: seq<System>, actions: seq<Action>, i: nat, b: nat)
    requires Run(states, actions) && i <= |actions|
    requires forall t :: 0 <= t < i ==> Apart(states[t], b)
    ensures Housed(states[i], b)
  {
    forall t | 0 <= t < i
      ensures StillHolds(states[t], actions[t], b)
    {
      ApartStaysUnchanged(states, actions, t, b);
      assert Inserts(states[t], actions[t], b) ==> Putting(states[t], actions[t].j, b);
      assert Drops(states[t], actions[t], b) ==> Dropping(states[t], actions[t].j, b);
    }
    HousedExactly(states, actions, i, b);
  }

  /** Wherever they meet, letting the two take effect, in either order, leaves a live file in a deleted bucket. */
  lemma MeetingUnhouses(s: System, i: nat, j: nat, b: nat)
    requires Bounded(s) && Putting(s, i, b) && Dropping(s, j, b) && Present(s, b)
    ensures !Housed(AdvanceJob(AdvanceJob(s, i), j), b) && !Housed(AdvanceJob(AdvanceJob(s, j), i), b)
  {
    assert JobOk(s, s.jobs[i]);
    CountPush(s.files, s.jobs[i].row, b);
  }

  // ---------- distinct live names ----------

  predicate SameName(s: System, b: nat, b': nat) {
    Present(s, b) && Present(s, b') && s.buckets[b].name == s.buckets[b'].name
  }

  /** No two live buckets have the same name. */
  ghost predicate DistinctNames(s: System) {
    forall b: nat, b': nat :: SameName(s, b, b') ==> b == b'
  }

  predicate Creating(s: System, j: nat, name: string) {
    j < |s.jobs| && s.jobs[j].CreateChecked? && s.jobs[j].name == name
  }

  /** If the step creates a bucket, the lookup of its name would find nothing again. */
  predicate StillFree(s: System, a: Action) {
    a.Advance? && a.j < |s.jobs| && s.jobs[a.j].CreateChecked? ==> LiveBucketNamed(s.buckets, s.jobs[a.j].name).None?
  }

  /** A step that creates no bucket keeps every name, and brings no bucket back. */
  lemma NamesStay(s: System, a: Action, b: nat)
    requires Bounded(s) && CanDo(s, a)
    requires a.Advance? ==> !s.jobs[a.j].CreateChecked?
    requires Present(Do(s, a), b)
    ensures Present(s, b) && Do(s, a).buckets[b].name == s.buckets[b].name
  {
    if a.Advance? {
      assert JobOk(s, s.jobs[a.j]);
    }
  }

  lemma CreationKeepsDistinctExactly(s: System, j: nat)
    requires j < |s.jobs| && s.jobs[j].CreateChecked? && DistinctNames(s)
    ensures DistinctNames(AdvanceJob(s, j)) <==> LiveBucketNamed(s.buckets, s.jobs[j].name).None?
  {
    var s', n, name := AdvanceJob(s, j), |s.buckets|, s.jobs[j].name;
    NameFoundExactly(s.buckets, name);
    assert forall b: nat :: b < n ==> s'.buckets[b] == s.buckets[b];
    if LiveBucketNamed(s.buckets, name).None? {
      forall b: nat, b': nat | SameName(s', b, b')
        ensures b == b'
      {
        assert b < n && b' < n ==> SameName(s, b, b');
      }
    } else {
      var b :| 0 <= b < n && s.buckets[b].deletedAt.None? && s.buckets[b].name == name;
      assert SameName(s', b, n);
    }
  }

  lemma StepKeepsDistinctExactly(s: System, a: Action)
    requires Bounded(s) && CanDo(s, a) && DistinctNames(s)
    ensures DistinctNames(Do(s, a)) <==> StillFree(s, a)
  {
    if a.Advance? && s.jobs[a.j].CreateChecked? {
      CreationKeepsDistinctExactly(s, a.j);
    } else {
      forall b: nat, b': nat | SameName(Do(s, a), b, b')
        ensures b == b'
      {
        NamesStay(s, a, b);
        NamesStay(s, a, b');
        assert SameName(s, b, b');
      }
    }
  }

  ghost predicate AlwaysDistinct(states: seq<System>, i: nat)
    requires i < |states|
  {
    forall t :: 0 <= t <= i ==> DistinctNames(states[t])
  }

  ghost predicate NamesStillFree(states: seq<System>, actions: seq<Action>, i: nat)
    requires i <= |actions| < |states|
  {
    forall t :: 0 <= t < i ==> StillFree(states[t], actions[t])
  }

  /**
   * In every run from distinct live names, they stay distinct if and only if each creation's lookup of its name would
   * find nothing again when the bucket is inserted.
   */
  lemma {:induction false} DistinctExactly(states: seq<System>, actions: seq<Action>, i: nat)
    requires Run(states, actions) && i <= |actions| && DistinctNames(states[0])
    ensures AlwaysDistinct(states, i) <==> NamesStillFree(states, actions, i)
  {
    if i > 0 {
      DistinctExactly(states, actions, i - 1);
      AnyStep(states, actions, i - 1);
      QuotaHolds(states, actions, i - 1);
      assert AlwaysDistinct(states, i) <==> AlwaysDistinct(states, i - 1) && DistinctNames(states[i]);
      assert NamesStillFree(states, actions, i)
          <==> NamesStillFree(states, actions, i - 1) && StillFree(states[i - 1], actions[i - 1]);
      if DistinctNames(states[i - 1]) {
        StepKeepsDistinctExactly(states[i - 1], actions[i - 1]);
      }
    }
  }

  // ---------- creations apart from each other ----------

  /** No two creations of the same name are past their check. */
  ghost predicate OneCreates(s: System) {
    forall i: nat, j: nat, name: string :: Creating(s, i, name) && Creating(s, j, name) ==> i == j
  }

  /** The names checked are still free. */
  ghost predicate CheckedFree(s: System) {
    forall j: nat, name: string :: Creating(s, j, name) ==> LiveBucketNamed(s.buckets, name).None?
  }

  /** Only creating a bucket of the name takes it. */
  lemma NameStaysFree(s: System, a: Action, name: string)
    requires Bounded(s) && CanDo(s, a) && LiveBucketNamed(s.buckets, name).None?
    requires !(a.Advance? && Creating(s, a.j, name))
    ensures LiveBucketNamed(Do(s, a).buckets, name).None?
  {
    var s' := Do(s, a);
    NameFoundExactly(s.buckets, name);
    NameFoundExactly(s'.buckets, name);
    forall b | 0 <= b < |s'.buckets| && s'.buckets[b].deletedAt.None?
      ensures s'.buckets[b].name != name
    {
      if !(a.Advance? && s.jobs[a.j].CreateChecked?) {
        NamesStay(s, a, b);
      }
    }
  }

  lemma CreatingBefore(s: System, a: Action, j: nat, name: string)
    requires CanDo(s, a) && Creating(Do(s, a), j, name)
    ensures
      || (Creating(s, j, name) && a != Advance(j))
      || (a == Advance(j) && s.jobs[j].CreateStart? && LiveBucketNamed(s.buckets, name).None?)
  {
  }

  lemma FreeStaysFree(s: System, a: Action, j: nat, name: string)
    requires Bounded(s) && CanDo(s, a) && CheckedFree(s) && OneCreates(s) && Creating(Do(s, a), j, name)
    ensures LiveBucketNamed(Do(s, a).buckets, name).None?
  {
    CreatingBefore(s, a, j, name);
    assert LiveBucketNamed(s.buckets, name).None? && !(a.Advance? && Creating(s, a.j, name));
    NameStaysFree(s, a, name);
  }

  lemma {:induction false} OneCreatesStaysFree(states: seq<System>, actions: seq<Action>, i: nat)
    requires Run(states, actions) && i <= |actions|
    requires forall t :: 0 <= t < i ==> OneCreates(states[t])
    ensures CheckedFree(states[i])
  {
    if i > 0 {
      OneCreatesStaysFree(states, actions, i - 1);
      AnyStep(states, actions, i - 1);
      QuotaHolds(states, actions, i - 1);
      forall j: nat, name: string | Creating(states[i], j, name)
        ensures LiveBucketNamed(states[i].buckets, name).None?
      {
        FreeStaysFree(states[i - 1], actions[i - 1], j, name);
      }
    }
  }

  /** Where creations of a name stay apart, live names stay distinct. */
  lemma OneCreatesKeepsDistinct(states: seq<System>, actions: seq<Action>, i: nat)
    requires Run(states, actions) && i <= |actions| && DistinctNames(states[0])
    requires forall t :: 0 <= t < i ==> OneCreates(states[t])
    ensures DistinctNames(states[i])
  {
    forall t | 0 <= t < i
      ensures StillFree(states[t], actions[t])
    {
      OneCreatesStaysFree(states, actions, t);
      AnyStep(states, actions, t);
      if actions[t].Advance? && states[t].jobs[actions[t].j].CreateChecked? {
        assert Creating(states[t], actions[t].j, states[t].jobs[actions[t].j].name);
      }
    }
    DistinctExactly(states, actions, i);
  }

  /** Wherever two creations of a name meet, letting both insert leaves two live buckets of the name. */
  lemma MeetingDoublesName(s: System, i: nat, j: nat, name: string)
    requires Creating(s, i, name) && Creating(s, j, name) && i != j
    ensures !DistinctNames(AdvanceJob(AdvanceJob(s, i), j))
  {
    var n := |s.buckets|;
    assert SameName(AdvanceJob(AdvanceJob(s, i), j), n, n + 1);
  }

  // ---------- both happen ----------

  /** A put and a deletion of the same empty bucket meet. */
  lemma PutMeetsDrop() returns (states: seq<System>, actions: seq<Action>)
    ensures Run(states, actions)
    ensures states[|actions|] == System([EMPTY_ROW], [], [READ, DropCounted(0, 1)], [])
  {
    var start := System([EMPTY_ROW], [], [], []);
    states, actions := [start], [];
    states, actions := RunStep(states, actions, Spawn(START));
    states, actions := RunStep(states, actions, Spawn(DropStart(0, 1)));
    states, actions := RunStep(states, actions, Advance(0));
    assert states[|actions|] == System([EMPTY_ROW], [], [READ, DropStart(0, 1)], []);
    states, actions := RunStep(states, actions, Advance(1));
    assert states[|actions|] == System([EMPTY_ROW], [], [READ, DropFound(0, 1)], []);
    states, actions := RunStep(states, actions, Advance(1));
  }

  /** A run after which a live file is in a deleted bucket. */
  lemma FileInDeletedBucket() returns (states: seq<System>, actions: seq<Action>)
    ensures Run(states, actions) && !Housed(states[|actions|], 0)
  {
    states, actions := PutMeetsDrop();
    var s := states[|actions|];
    QuotaHolds(states, actions, |actions|);
    MeetingUnhouses(s, 0, 1, 0);
    states, actions := RunStep(states, actions, Advance(0));
    states, actions := RunStep(states, actions, Advance(1));
  }

  /** A run after which two live buckets have the same name. */
  lemma TwoBucketsOfOneName() returns (states: seq<System>, actions: seq<Action>)
    ensures Run(states, actions) && DistinctNames(states[0]) && !DistinctNames(states[|actions|])
  {
    var job, checked := CreateStart("logs", 0), CreateChecked("logs", 0);
    states, actions := [System([], [], [], [])], [];
    states, actions := RunStep(states, actions, Spawn(job));
    states, actions := RunStep(states, actions, Spawn(job));
    states, actions := RunStep(states, actions, Advance(0));
    states, actions := RunStep(states, actions, Advance(1));
    var s := states[|actions|];
    assert s.jobs == [checked, checked];
    MeetingDoublesName(s, 0, 1, "logs");
    states, actions := RunStep(states, actions, Advance(0));
    states, actions := RunStep(states, actions, Advance(1));
  }
}
