/** What write-backs lose, and why nothing is lost when the windows between read and write-back do not overlap. */
module Windows {
  import opened Domain
  import opened Store
  import opened Tallies
  import opened Sums
  import opened Interleaving

  /** The job has read its bucket's row and will write it back. */
  predicate HasWindow(job: Job) {
    job.PutRead? || job.PutInserted? || job.DeleteRead? || job.VersioningRead?
  }

  predicate OpenOn(job: Job, b: nat) {
    HasWindow(job) && job.bucket == b
  }

  predicate Exclusive(s: System) {
    forall i, j :: 0 <= i < j < |s.jobs| && HasWindow(s.jobs[i]) && HasWindow(s.jobs[j]) ==>
      s.jobs[i].bucket != s.jobs[j].bucket
  }

  /** In none of the states up to the i-th were two windows open on the same bucket. */
  ghost predicate NeverOverlap(states: seq<System>, i: nat) {
    forall t :: 0 <= t <= i && t < |states| ==> Exclusive(states[t])
  }

  /** What the job read is still what the row says, unless its bucket is gone. */
  predicate Current(s: System, job: Job) {
    HasWindow(job) && Present(s, job.bucket) ==> job.snapshot == s.buckets[job.bucket]
  }

  predicate Fresh(s: System) {
    forall i :: 0 <= i < |s.jobs| ==> Current(s, s.jobs[i])
  }

  predicate NothingLost(s: System) {
    forall i :: 0 <= i < |s.history| && s.history[i].WroteBack? && Present(s, s.history[i].bucket) ==>
      s.history[i].bytesLost == 0 && s.history[i].objectsLost == 0
  }

  /** No put has inserted without counting, no delete has removed without discounting. */
  predicate Quiescent(s: System, b: nat) {
    forall i :: 0 <= i < |s.jobs| && (s.jobs[i].PutInserted? || s.jobs[i].DeleteRemoved? || s.jobs[i].DeleteRead?) ==>
      s.jobs[i].bucket != b
  }

  // ---------- what a write-back loses ----------

  /** The counter a job takes the row to have: its snapshot's, or the amount to discount where the clamp takes effect. */
  function Seen(m: Measure, job: Job): int
    requires Writes(job)
  {
    var counter := Recorded(m, job.snapshot);
    if job.DeleteRead? && counter < Amount(m, job.size) then Amount(m, job.size) else counter
  }

  /**
   * By how much the job's last step misses the change it is meant to make: the distance between the counter and what
   * the job has seen of it, or the whole change if the bucket is gone.
   */
  function Missed(s: System, job: Job, m: Measure): int {
    if Writes(job) then if Present(s, job.bucket) then Recorded(m, s.buckets[job.bucket]) - Seen(m, job) else Meant(m, job)
    else if job.DeleteRemoved? && !Present(s, job.bucket) then 0 - Amount(m, job.size)
    else 0
  }

  ghost function Staleness(s: System, a: Action, m: Measure, b: nat): int {
    if a.Advance? && a.j < |s.jobs| && Ends(s, s.jobs[a.j]) && s.jobs[a.j].bucket == b then Missed(s, s.jobs[a.j], m) else 0
  }

  /** The job's next step is its last, and due to change the counters. */
  predicate Ends(s: System, job: Job) {
    Writes(job) || (job.DeleteRemoved? && !Present(s, job.bucket))
  }

  /** A job ends with an event that records exactly what it missed. */
  lemma LossIsStaleness(s: System, j: nat, m: Measure, b: nat)
    requires Bounded(s) && j < |s.jobs| && Ends(s, s.jobs[j])
    ensures
      var s' := AdvanceJob(s, j);
      && |s'.history| == |s.history| + 1 && s'.history == s.history + [s'.history[|s.history|]]
      && s'.history[|s.history|].WroteBack? && s'.history[|s.history|].bucket == s.jobs[j].bucket
      && LostIn(m, b)(s'.history[|s.history|]) == Staleness(s, Advance(j), m, b)
      && (Writes(s.jobs[j]) && s.jobs[j].bucket == b && Present(s, b) ==>
            (LostIn(m, b)(s'.history[|s.history|]) == 0 <==> Recorded(m, s.buckets[b]) == Seen(m, s.jobs[j])))
  {
    assert JobOk(s, s.jobs[j]);
    if Writes(s.jobs[j]) {
      WriteBackEvent(s, j, m, b);
    }
  }

  lemma RecordsNoLoss(s: System, a: Action)
    requires Bounded(s) && CanDo(s, a) && !(a.Advance? && Ends(s, s.jobs[a.j]))
    ensures
      var s' := Do(s, a);
      || s'.history == s.history
      || (|s'.history| == |s.history| + 1 && s'.history == s.history + [s'.history[|s.history|]]
          && !s'.history[|s.history|].WroteBack?)
  {
    if a.Advance? {
      assert JobOk(s, s.jobs[a.j]);
    }
  }

  lemma StepLoses(s: System, a: Action, m: Measure, b: nat)
    requires Bounded(s) && CanDo(s, a)
    ensures SumBy(Do(s, a).history, LostIn(m, b)) == SumBy(s.history, LostIn(m, b)) + Staleness(s, a, m, b)
  {
    var s' := Do(s, a);
    if a.Advance? && Ends(s, s.jobs[a.j]) {
      LossIsStaleness(s, a.j, m, b);
      SumPush(s.history, s'.history[|s.history|], LostIn(m, b));
    } else {
      RecordsNoLoss(s, a);
      if s'.history != s.history {
        SumPush(s.history, s'.history[|s.history|], LostIn(m, b));
      }
    }
  }

  /** The staleness of all write-backs of the first `i` steps, added up. */
  ghost function StalenessUpTo(states: seq<System>, actions: seq<Action>, i: nat, m: Measure, b: nat): int
    requires |states| == |actions| + 1 && i <= |actions|
  {
    if i == 0 then 0
    else StalenessUpTo(states, actions, i - 1, m, b) + Staleness(states[i - 1], actions[i - 1], m, b)
  }

  lemma {:induction false} LossesAddUp(states: seq<System>, actions: seq<Action>, i: nat, m: Measure, b: nat)
    requires Run(states, actions) && i <= |actions|
    ensures SumBy(states[i].history, LostIn(m, b)) == StalenessUpTo(states, actions, i, m, b)
  {
    if i > 0 {
      LossesAddUp(states, actions, i - 1, m, b);
      QuotaHolds(states, actions, i - 1);
      StepLoses(states[i - 1], actions[i - 1], m, b);
    }
  }

  lemma NothingPending(s: System, m: Measure, b: nat)
    requires Quiescent(s, b)
    ensures BooksOf(s, m, b).puts == 0 == BooksOf(s, m, b).deletes
  {
    SumZero(s.jobs, PutPending(m, b));
    SumZero(s.jobs, DeletePending(m, b));
  }

  /**
   * Under any interleaving, a quiescent bucket keeps what its counter says and what its requests have missed, so the
   * counter is exact if and only if that adds up to zero.
   */
  lemma ExactIffNothingStale(states: seq<System>, actions: seq<Action>, i: nat, m: Measure, b: nat)
    requires Run(states, actions) && i <= |actions| && b < |states[i].buckets| && Quiescent(states[i], b)
    ensures
      var s, stale := states[i], StalenessUpTo(states, actions, i, m, b);
      var kept := SumBy(s.files, LiveIn(m, b)) + SumBy(s.history, ReapedIn(m, b));
      && kept == Recorded(m, s.buckets[b]) + stale
      && (Recorded(m, s.buckets[b]) == kept <==> stale == 0)
  {
    NothingUnaccounted(states, actions, i, m, b);
    NothingPending(states[i], m, b);
    LossesAddUp(states, actions, i, m, b);
  }

  // ---------- windows that do not overlap ----------

  lemma LostNothing(s: System, m: Measure, b: nat)
    requires NothingLost(s) && Present(s, b)
    ensures SumBy(s.history, LostIn(m, b)) == 0
  {
    SumZero(s.history, LostIn(m, b));
  }

  /** The row about to be discounted still counts the deleted file. */
  lemma DiscountFits(s: System, j: nat, m: Measure)
    requires j < |s.jobs| && s.jobs[j].DeleteRead? && Present(s, s.jobs[j].bucket)
    requires Accounted(s, m, s.jobs[j].bucket) && NothingLost(s) && Exclusive(s)
    ensures Recorded(m, s.buckets[s.jobs[j].bucket]) >= Amount(m, s.jobs[j].size)
  {
    var b := s.jobs[j].bucket;
    LostNothing(s, m, b);
    forall i | 0 <= i < |s.jobs|
      ensures PutPending(m, b)(s.jobs[i]) == 0
    {
      assert i != j ==> !OpenOn(s.jobs[i], b);
    }
    SumZero(s.jobs, PutPending(m, b));
    SumAtLeast(s.jobs, j, DeletePending(m, b));
    SumNonnegative(s.files, LiveIn(m, b));
    SumNonnegative(s.history, ReapedIn(m, b));
  }

  /** A write-back from a fresh snapshot loses nothing. */
  lemma FreshWriteLosesNothing(s: System, j: nat)
    requires Bounded(s) && j < |s.jobs| && Writes(s.jobs[j]) && Present(s, s.jobs[j].bucket)
    requires Fresh(s) && Exclusive(s) && NothingLost(s)
    requires forall m: Measure, b: nat :: Accounted(s, m, b)
    ensures forall m: Measure :: Missed(s, s.jobs[j], m) == 0
  {
    var job := s.jobs[j];
    assert JobOk(s, job) && Current(s, job);
    if job.DeleteRead? {
      DiscountFits(s, j, Measure.Bytes);
      DiscountFits(s, j, Objects);
    }
  }

  lemma EndLosesNothing(s: System, j: nat)
    requires Bounded(s) && j < |s.jobs| && Ends(s, s.jobs[j]) && Fresh(s) && Exclusive(s) && NothingLost(s)
    requires forall m: Measure, b: nat :: Accounted(s, m, b)
    ensures NothingLost(AdvanceJob(s, j))
  {
    var b := s.jobs[j].bucket;
    StepGrows(s, Advance(j));
    LossIsStaleness(s, j, Measure.Bytes, b);
    LossIsStaleness(s, j, Objects, b);
    if Present(s, b) {
      FreshWriteLosesNothing(s, j);
    }
  }

  lemma StepLosesNothing(s: System, a: Action)
    requires Bounded(s) && CanDo(s, a) && Fresh(s) && Exclusive(s) && NothingLost(s)
    requires forall m: Measure, b: nat :: Accounted(s, m, b)
    ensures NothingLost(Do(s, a))
  {
    if a.Advance? && Ends(s, s.jobs[a.j]) {
      EndLosesNothing(s, a.j);
    } else {
      RecordsNoLoss(s, a);
      StepGrows(s, a);
    }
  }

  lemma OtherWindowsStay(s: System, a: Action, i: nat)
    requires Bounded(s) && CanDo(s, a) && Fresh(s) && Exclusive(s)
    requires i < |s.jobs| && !(a.Spawn?) && i != a.j
    ensures Do(s, a).jobs[i] == s.jobs[i] && Current(Do(s, a), s.jobs[i])
  {
    assert JobOk(s, s.jobs[i]) && Current(s, s.jobs[i]) && JobOk(s, s.jobs[a.j]);
  }

  lemma OwnWindowIsCurrent(s: System, a: Action)
    requires Bounded(s) && CanDo(s, a) && Fresh(s) && !a.Spawn?
    ensures Current(Do(s, a), Do(s, a).jobs[a.j])
  {
    assert JobOk(s, s.jobs[a.j]) && Current(s, s.jobs[a.j]);
  }

  lemma StepStaysFresh(s: System, a: Action)
    requires Bounded(s) && CanDo(s, a) && Fresh(s) && Exclusive(s)
    ensures Fresh(Do(s, a))
  {
    var s' := Do(s, a);
    forall i | 0 <= i < |s'.jobs|
      ensures Current(s', s'.jobs[i])
    {
      if a.Spawn? {
        assert i < |s.jobs| ==> Current(s, s.jobs[i]);
      } else if i == a.j {
        OwnWindowIsCurrent(s, a);
      } else {
        OtherWindowsStay(s, a, i);
      }
    }
  }

  /**
   * If in every state so far no two windows were open on the same bucket, every open snapshot is current and no
   * write-back has lost anything.
   */
  lemma {:induction false} ExclusiveKeepsExact(states: seq<System>, actions: seq<Action>, i: nat)
    requires Run(states, actions) && i <= |actions|
    requires NeverOverlap(states, i)
    ensures Fresh(states[i]) && NothingLost(states[i])
  {
    if i > 0 {
      var s, a := states[i - 1], actions[i - 1];
      ExclusiveKeepsExact(states, actions, i - 1);
      QuotaHolds(states, actions, i - 1);
      forall m: Measure, b: nat
        ensures Accounted(s, m, b)
      {
        NothingUnaccounted(states, actions, i - 1, m, b);
      }
      StepStaysFresh(s, a);
      StepLosesNothing(s, a);
    }
  }

  /** At quiescence, after a run without overlapping windows, recorded equals live plus cleaned. */
  lemma ExclusiveRunsAreExact(states: seq<System>, actions: seq<Action>, i: nat, m: Measure, b: nat)
    requires Run(states, actions) && i <= |actions| && Present(states[i], b) && Quiescent(states[i], b)
    requires NeverOverlap(states, i)
    ensures
      var s := states[i];
      Recorded(m, s.buckets[b]) == SumBy(s.files, LiveIn(m, b)) + SumBy(s.history, ReapedIn(m, b))
  {
    ExclusiveKeepsExact(states, actions, i);
    LostNothing(states[i], m, b);
    NothingUnaccounted(states, actions, i, m, b);
    NothingPending(states[i], m, b);
  }
}
