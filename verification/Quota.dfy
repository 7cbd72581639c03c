/** When the quota holds for what a bucket really keeps, under every interleaving. */
module Quota {
  import opened Domain
  import opened Store
  import opened Tallies
  import opened Sums
  import opened Interleaving
  import opened Windows

  // ---------- kept and claimed bytes ----------

  /** What a put that passed the quota check is about to insert. */
  function Reserved(b: nat): Job -> int {
    (job: Job) => if job.PutRead? && job.bucket == b then job.row.size else 0
  }

  /** Live, cleaned and about to be inserted bytes of the bucket. */
  function Kept(s: System, b: nat): int {
    SumBy(s.files, LiveIn(Measure.Bytes, b)) + SumBy(s.history, ReapedIn(Measure.Bytes, b))
  }

  function Claimed(s: System, b: nat): int {
    Kept(s, b) + SumBy(s.jobs, Reserved(b))
  }

  predicate Fits(s: System, b: nat) {
    b < |s.buckets| && s.buckets[b].maxSizeBytes > 0 ==> Claimed(s, b) <= s.buckets[b].maxSizeBytes
  }

  lemma KeptIsBooked(s: System, b: nat)
    ensures Kept(s, b) == BooksOf(s, Measure.Bytes, b).live + BooksOf(s, Measure.Bytes, b).reaped
  {
  }

  // ---------- what each step claims ----------

  lemma InsertFits(s: System, j: nat, b: nat)
    requires Bounded(s) && j < |s.jobs| && s.jobs[j].PutRead?
    ensures Claimed(AdvanceJob(s, j), b) == Claimed(s, b)
  {
    assert JobOk(s, s.jobs[j]);
    InsertBooks(s, j, Measure.Bytes, b);
    KeptIsBooked(s, b);
    KeptIsBooked(AdvanceJob(s, j), b);
    SumUpdate(s.jobs, j, AdvanceJob(s, j).jobs[j], Reserved(b));
  }

  lemma DeletionFits(s: System, j: nat, b: nat)
    requires Bounded(s) && j < |s.jobs| && s.jobs[j].DeleteFound?
    ensures Claimed(AdvanceJob(s, j), b) <= Claimed(s, b)
  {
    var job, s' := s.jobs[j], AdvanceJob(s, j);
    assert JobOk(s, job);
    SumUpdate(s.jobs, j, s'.jobs[j], Reserved(b));
    if s.files[job.file].Live() {
      KeptIsBooked(s, b);
      KeptIsBooked(s', b);
      RemoveBooks(s, j, s'.jobs[j], job.file, job.now, DeletedBy(job.file, job.bucket, job.size), Measure.Bytes, b);
    }
  }

  lemma CleanupFits(s: System, j: nat, b: nat)
    requires j < |s.jobs| && s.jobs[j].CleanupRun?
    ensures Claimed(AdvanceJob(s, j), b) == Claimed(s, b)
  {
    var job, s' := s.jobs[j], AdvanceJob(s, j);
    SumUpdate(s.jobs, j, s'.jobs[j], Reserved(b));
    if job.ids != [] && job.ids[0] < |s.files| && s.files[job.ids[0]].Live() {
      var f := job.ids[0];
      KeptIsBooked(s, b);
      KeptIsBooked(s', b);
      RemoveBooks(s, j, s'.jobs[j], f, job.now, ReapedBy(f, s.files[f].bucket, s.files[f].size), Measure.Bytes, b);
    }
  }

  lemma WriteBackFits(s: System, j: nat, b: nat)
    requires Bounded(s) && j < |s.jobs| && Writes(s.jobs[j])
    ensures Claimed(AdvanceJob(s, j), b) == Claimed(s, b)
  {
    assert JobOk(s, s.jobs[j]);
    WriteBackBooks(s, j, Measure.Bytes, b);
    KeptIsBooked(s, b);
    KeptIsBooked(AdvanceJob(s, j), b);
    SumUpdate(s.jobs, j, Finished, Reserved(b));
  }

  lemma VanishFits(s: System, j: nat, b: nat)
    requires j < |s.jobs| && s.jobs[j].DeleteRemoved? && !Present(s, s.jobs[j].bucket)
    ensures Claimed(AdvanceJob(s, j), b) == Claimed(s, b)
  {
    VanishBooks(s, j, Measure.Bytes, b);
    KeptIsBooked(s, b);
    KeptIsBooked(AdvanceJob(s, j), b);
    SumUpdate(s.jobs, j, Finished, Reserved(b));
  }

  /** Any other step changes neither files nor history, and reserves nothing. */
  lemma ReadFits(s: System, a: Action, b: nat)
    requires CanDo(s, a) && !a.Spawn?
    requires a.Advance? ==> Reads(s, s.jobs[a.j]) || s.jobs[a.j].CreateChecked? || s.jobs[a.j].DropCounted?
    requires Reserved(b)(Do(s, a).jobs[a.j]) == 0
    ensures Claimed(Do(s, a), b) == Claimed(s, b)
  {
    SumUpdate(s.jobs, a.j, Do(s, a).jobs[a.j], Reserved(b));
  }

  /** The step is a put on the bucket passing the quota check. */
  predicate Accepts(s: System, a: Action, b: nat) {
    && a.Advance? && a.j < |s.jobs| && s.jobs[a.j].PutStart? && s.jobs[a.j].bucket == b
    && Present(s, b) && !OverQuota(s.buckets[b], s.jobs[a.j].row.size)
  }

  /** The put would also have passed a check against what is kept and about to be inserted. */
  predicate WouldFit(s: System, a: Action, b: nat)
    requires Accepts(s, a, b)
  {
    s.buckets[b].maxSizeBytes > 0 ==> Claimed(s, b) + s.jobs[a.j].row.size <= s.buckets[b].maxSizeBytes
  }

  lemma AcceptedClaims(s: System, a: Action, b: nat)
    requires CanDo(s, a) && Accepts(s, a, b)
    ensures Claimed(Do(s, a), b) == Claimed(s, b) + s.jobs[a.j].row.size
  {
    SumUpdate(s.jobs, a.j, Do(s, a).jobs[a.j], Reserved(b));
  }

  /** Only an accepted put claims more. */
  lemma OthersClaimNoMore(s: System, a: Action, b: nat)
    requires Bounded(s) && CanDo(s, a) && !Accepts(s, a, b)
    ensures Claimed(Do(s, a), b) <= Claimed(s, b)
  {
    if a.Spawn? {
      SumPush(s.jobs, a.job, Reserved(b));
    } else if !a.Advance? {
      ReadFits(s, a, b);
    } else {
      var job := s.jobs[a.j];
      if job.PutRead? {
        InsertFits(s, a.j, b);
      } else if Writes(job) {
        WriteBackFits(s, a.j, b);
      } else if job.DeleteFound? {
        DeletionFits(s, a.j, b);
      } else if job.CleanupRun? {
        CleanupFits(s, a.j, b);
      } else if job.DeleteRemoved? && !Present(s, job.bucket) {
        VanishFits(s, a.j, b);
      } else {
        ReadFits(s, a, b);
      }
    }
  }

  /** Nothing is claimed in a bucket that has not been created. */
  lemma NothingClaimed(s: System, b: nat)
    requires Bounded(s) && b >= |s.buckets|
    ensures Claimed(s, b) == 0
  {
    SumZero(s.files, LiveIn(Measure.Bytes, b));
    SumZero(s.history, ReapedIn(Measure.Bytes, b));
    forall i | 0 <= i < |s.jobs|
      ensures Reserved(b)(s.jobs[i]) == 0
    {
      assert JobOk(s, s.jobs[i]);
    }
    SumZero(s.jobs, Reserved(b));
  }

  lemma StepFitsExactly(s: System, a: Action, b: nat)
    requires Bounded(s) && CanDo(s, a) && Fits(s, b)
    ensures Fits(Do(s, a), b) <==> (Accepts(s, a, b) ==> WouldFit(s, a, b))
  {
    StepGrows(s, a);
    if Accepts(s, a, b) {
      AcceptedClaims(s, a, b);
    } else {
      OthersClaimNoMore(s, a, b);
      if b >= |s.buckets| {
        NothingClaimed(s, b);
      }
    }
  }

  // ---------- the exact condition ----------

  ghost predicate AlwaysFits(states: seq<System>, i: nat, b: nat)
    requires i < |states|
  {
    forall t :: 0 <= t <= i ==> Fits(states[t], b)
  }

  ghost predicate ChecksFit(states: seq<System>, actions: seq<Action>, i: nat, b: nat)
    requires i <= |actions| < |states|
  {
    forall t :: 0 <= t < i && Accepts(states[t], actions[t], b) ==> WouldFit(states[t], actions[t], b)
  }

  lemma OneStateMore(states: seq<System>, actions: seq<Action>, i: nat, b: nat)
    requires 0 < i <= |actions| < |states|
    ensures AlwaysFits(states, i, b) <==> AlwaysFits(states, i - 1, b) && Fits(states[i], b)
    ensures ChecksFit(states, actions, i, b)
       <==> ChecksFit(states, actions, i - 1, b)
            && (Accepts(states[i - 1], actions[i - 1], b) ==> WouldFit(states[i - 1], actions[i - 1], b))
  {
  }

  lemma StartFits(s: System, b: nat)
    requires Start(s)
    ensures Fits(s, b)
  {
  }

  lemma AnyStep(states: seq<System>, actions: seq<Action>, i: nat)
    requires Run(states, actions) && i < |actions|
    ensures CanDo(states[i], actions[i]) && states[i + 1] == Do(states[i], actions[i])
  {
  }

  lemma FitsNext(states: seq<System>, actions: seq<Action>, i: nat, b: nat)
    requires Run(states, actions) && 0 < i <= |actions|
    requires AlwaysFits(states, i - 1, b) <==> ChecksFit(states, actions, i - 1, b)
    ensures AlwaysFits(states, i, b) <==> ChecksFit(states, actions, i, b)
  {
    var s, a := states[i - 1], actions[i - 1];
    AnyStep(states, actions, i - 1);
    QuotaHolds(states, actions, i - 1);
    OneStateMore(states, actions, i, b);
    if Fits(s, b) {
      StepFitsExactly(s, a, b);
    }
  }

  /**
   * In every run, with any overlaps, what a bucket keeps or is about to be given stays within its quota if and only if
   * every put the quota check accepted would also have been accepted against what was kept and about to be inserted.
   */
  lemma {:induction false} QuotaKeptExactly(states: seq<System>, actions: seq<Action>, i: nat, b: nat)
    requires Run(states, actions) && i <= |actions|
    ensures AlwaysFits(states, i, b) <==> ChecksFit(states, actions, i, b)
  {
    if i == 0 {
      StartFits(states[0], b);
    } else {
      QuotaKeptExactly(states, actions, i - 1, b);
      FitsNext(states, actions, i, b);
    }
  }

  // ---------- pending inserts ----------

  /** The puts numbered `js` insert their rows, one after the other. */
  function InsertAll(s: System, js: seq<nat>): System
    requires forall i :: 0 <= i < |js| ==> js[i] < |s.jobs|
    ensures |InsertAll(s, js).jobs| == |s.jobs|
  {
    if js == [] then s else AdvanceJob(InsertAll(s, js[..|js| - 1]), js[|js| - 1])
  }

  function Sizes(s: System, js: seq<nat>): nat
    requires forall i :: 0 <= i < |js| ==> js[i] < |s.jobs| && s.jobs[js[i]].PutRead?
  {
    if js == [] then 0 else Sizes(s, js[..|js| - 1]) + s.jobs[js[|js| - 1]].row.size
  }

  predicate Inserting(s: System, js: seq<nat>, b: nat) {
    && (forall i :: 0 <= i < |js| ==> js[i] < |s.jobs| && s.jobs[js[i]].PutRead? && s.jobs[js[i]].bucket == b)
    && forall i, j :: 0 <= i < j < |js| ==> js[i] != js[j]
  }

  lemma OneInsert(s: System, j: nat, b: nat)
    requires Bounded(s) && j < |s.jobs| && s.jobs[j].PutRead? && s.jobs[j].bucket == b
    ensures Bounded(AdvanceJob(s, j)) && Claimed(AdvanceJob(s, j), b) == Claimed(s, b)
    ensures Kept(AdvanceJob(s, j), b) == Kept(s, b) + s.jobs[j].row.size
  {
    assert JobOk(s, s.jobs[j]);
    assert AdvanceJob(s, j) == Do(s, Advance(j));
    StepKeepsBounds(s, Advance(j));
    InsertFits(s, j, b);
    InsertBooks(s, j, Measure.Bytes, b);
    KeptIsBooked(s, b);
    KeptIsBooked(AdvanceJob(s, j), b);
  }

  lemma OneJobInserts(s: System, j: nat)
    requires j < |s.jobs| && s.jobs[j].PutRead?
    ensures AdvanceJob(s, j).jobs == s.jobs[j := PutInserted(s.jobs[j].bucket, s.jobs[j].row.size, s.jobs[j].snapshot)]
  {
  }

  lemma {:induction false} JobAfterInserts(s: System, js: seq<nat>, b: nat, j: nat)
    requires Inserting(s, js, b) && j < |s.jobs|
    ensures if j in js then InsertAll(s, js).jobs[j].PutInserted? else InsertAll(s, js).jobs[j] == s.jobs[j]
  {
    if js != [] {
      var n := |js| - 1;
      assert js == js[..n] + [js[n]] && js[n] !in js[..n];
      JobAfterInserts(s, js[..n], b, j);
      JobAfterInserts(s, js[..n], b, js[n]);
      OneJobInserts(InsertAll(s, js[..n]), js[n]);
    }
  }

  /** However many puts are past the check, inserting their rows adds exactly their sizes to what is kept. */
  lemma {:induction false} InsertsAddUp(s: System, js: seq<nat>, b: nat)
    requires Bounded(s) && Inserting(s, js, b)
    ensures Kept(InsertAll(s, js), b) == Kept(s, b) + Sizes(s, js)
    ensures Bounded(InsertAll(s, js)) && Claimed(InsertAll(s, js), b) == Claimed(s, b)
  {
    if js != [] {
      var n := |js| - 1;
      InsertsAddUp(s, js[..n], b);
      assert js[n] !in js[..n];
      JobAfterInserts(s, js[..n], b, js[n]);
      OneInsert(InsertAll(s, js[..n]), js[n], b);
    }
  }

  /** What is claimed is what is kept once all pending inserts are made. */
  lemma ClaimedIsKeptNext(s: System, js: seq<nat>, b: nat)
    requires Bounded(s) && Inserting(s, js, b)
    requires forall j: nat :: j < |s.jobs| && s.jobs[j].PutRead? && s.jobs[j].bucket == b ==> j in js
    ensures Kept(InsertAll(s, js), b) == Claimed(s, b)
  {
    InsertsAddUp(s, js, b);
    forall j: nat | j < |s.jobs|
      ensures Reserved(b)(InsertAll(s, js).jobs[j]) == 0
    {
      JobAfterInserts(s, js, b, j);
    }
    SumZero(InsertAll(s, js).jobs, Reserved(b));
  }

  // ---------- windows that do not overlap ----------

  /** A put passes the check while no other window is open: what is kept is at most what is recorded. */
  lemma AloneWouldFit(s: System, a: Action, b: nat)
    requires CanDo(s, a) && Accepts(s, a, b) && NothingLost(s)
    requires Accounted(s, Measure.Bytes, b) && Exclusive(Do(s, a))
    ensures WouldFit(s, a, b)
  {
    var s', m := Do(s, a), Measure.Bytes;
    forall i | 0 <= i < |s.jobs|
      ensures PutPending(m, b)(s.jobs[i]) == 0 && DeletePending(m, b)(s.jobs[i]) >= 0
      ensures Reserved(b)(s.jobs[i]) == 0
    {
      assert OpenOn(s'.jobs[a.j], b);
      if i != a.j {
        assert s'.jobs[i] == s.jobs[i];
        assert !OpenOn(s'.jobs[i], b);
      }
    }
    SumZero(s.jobs, PutPending(m, b));
    SumZero(s.jobs, Reserved(b));
    SumNonnegative(s.jobs, DeletePending(m, b));
    LostNothing(s, m, b);
  }

  lemma ExclusiveChecksFit(states: seq<System>, actions: seq<Action>, i: nat, b: nat)
    requires Run(states, actions) && i <= |actions| && NeverOverlap(states, i)
    ensures ChecksFit(states, actions, i, b)
  {
    forall t | 0 <= t < i && Accepts(states[t], actions[t], b)
      ensures WouldFit(states[t], actions[t], b)
    {
      AnyStep(states, actions, t);
      assert NeverOverlap(states, t) && Exclusive(states[t + 1]);
      ExclusiveKeepsExact(states, actions, t);
      NothingUnaccounted(states, actions, t, Measure.Bytes, b);
      AloneWouldFit(states[t], actions[t], b);
    }
  }

  /**
   * Without overlapping windows the quota holds for what a bucket really keeps, live or only cleaned, in every state
   * and whatever requests are in progress.
   */
  lemma ExclusiveKeepsQuota(states: seq<System>, actions: seq<Action>, i: nat, b: nat)
    requires Run(states, actions) && i <= |actions| && b < |states[i].buckets|
    requires NeverOverlap(states, i)
    requires states[i].buckets[b].maxSizeBytes > 0
    ensures
      var s := states[i];
      SumBy(s.files, LiveIn(Measure.Bytes, b)) + SumBy(s.history, ReapedIn(Measure.Bytes, b))
        <= s.buckets[b].maxSizeBytes
  {
    ExclusiveChecksFit(states, actions, i, b);
    QuotaKeptExactly(states, actions, i, b);
    assert Fits(states[i], b);
    SumNonnegative(states[i].jobs, Reserved(b));
  }

  // ---------- overlapping windows ----------

  const EMPTY_ROW := Bucket("logs", Disabled, 1, 0, 0, None)
  const FULL_ROW := Bucket("logs", Disabled, 1, 1, 1, None)
  const ONE_BYTE := FileRow(0, "k", 1, "", 1, 1, 0, None, None)
  const START := PutStart(0, ONE_BYTE)
  const READ := PutRead(0, ONE_BYTE, EMPTY_ROW)
  const INSERTED := PutInserted(0, 1, EMPTY_ROW)
  const SEEN := Inserted(0, 1)

  lemma BothRead(s: System)
    requires s == System([EMPTY_ROW], [], [START, START], [])
    ensures Do(s, Advance(0)) == System([EMPTY_ROW], [], [READ, START], [])
    ensures Do(Do(s, Advance(0)), Advance(1)) == System([EMPTY_ROW], [], [READ, READ], [])
  {
  }

  lemma BothInsert(s: System)
    requires s == System([EMPTY_ROW], [], [READ, READ], [])
    ensures Do(s, Advance(0)) == System([EMPTY_ROW], [ONE_BYTE], [INSERTED, READ], [SEEN])
    ensures Do(Do(s, Advance(0)), Advance(1))
        == System([EMPTY_ROW], [ONE_BYTE, ONE_BYTE], [INSERTED, INSERTED], [SEEN, SEEN])
  {
  }

  lemma FirstWrites(s: System)
    requires s == System([EMPTY_ROW], [ONE_BYTE, ONE_BYTE], [INSERTED, INSERTED], [SEEN, SEEN])
    ensures Do(s, Advance(0))
        == System([FULL_ROW], [ONE_BYTE, ONE_BYTE], [Finished, INSERTED], [SEEN, SEEN, WroteBack(0, 0, 0)])
  {
    assert Written(INSERTED) == FULL_ROW;
  }

  lemma SecondWrites(s: System)
    requires s == System([FULL_ROW], [ONE_BYTE, ONE_BYTE], [Finished, INSERTED], [SEEN, SEEN, WroteBack(0, 0, 0)])
    ensures Do(s, Advance(1))
        == System([FULL_ROW], [ONE_BYTE, ONE_BYTE], [Finished, Finished],
                  [SEEN, SEEN, WroteBack(0, 0, 0), WroteBack(0, 1, 1)])
  {
    assert Written(INSERTED) == FULL_ROW;
  }

  lemma RunStep(states: seq<System>, actions: seq<Action>, a: Action)
      returns (states': seq<System>, actions': seq<Action>)
    requires Run(states, actions) && CanDo(states[|actions|], a)
    ensures actions' == actions + [a] && |states'| == |actions'| + 1
    ensures Run(states', actions') && states'[|actions'|] == Do(states[|actions|], a) && states'[0] == states[0]
  {
    states', actions' := states + [Do(states[|actions|], a)], actions + [a];
  }

  lemma BothArrive() returns (states: seq<System>, actions: seq<Action>)
    ensures Run(states, actions) && states[|actions|] == System([EMPTY_ROW], [], [START, START], [])
  {
    states, actions := [System([EMPTY_ROW], [], [], [])], [];
    states, actions := RunStep(states, actions, Spawn(START));
    states, actions := RunStep(states, actions, Spawn(START));
  }

  /**
   * Two overlapping puts of one byte under a quota of one byte: both pass the check, one write-back is lost,
   * and the bucket ends up recording one byte while holding two.
   */
  lemma OverlappingPuts() returns (states: seq<System>, actions: seq<Action>)
    ensures Run(states, actions)
    ensures
      var s := states[|actions|];
      && s.buckets == [FULL_ROW]
      && (forall i :: 0 <= i < |s.jobs| ==> s.jobs[i] == Finished)
      && SumBy(s.files, LiveIn(Measure.Bytes, 0)) == 2
      && SumBy(s.history, ReapedIn(Measure.Bytes, 0)) == 0
  {
    states, actions := BothArrive();
    BothRead(states[|actions|]);
    states, actions := RunStep(states, actions, Advance(0));
    states, actions := RunStep(states, actions, Advance(1));
    BothInsert(states[|actions|]);
    states, actions := RunStep(states, actions, Advance(0));
    states, actions := RunStep(states, actions, Advance(1));
    FirstWrites(states[|actions|]);
    states, actions := RunStep(states, actions, Advance(0));
    SecondWrites(states[|actions|]);
    states, actions := RunStep(states, actions, Advance(1));
    SumTwo(ONE_BYTE, Measure.Bytes);
    SumZero(states[|actions|].history, ReapedIn(Measure.Bytes, 0));
  }

  lemma SumTwo(file: FileRow, m: Measure)
    ensures SumBy([file, file], LiveIn(m, 0)) == 2 * LiveIn(m, 0)(file)
  {
    SumPush([file], file, LiveIn(m, 0));
    SumPush([], file, LiveIn(m, 0));
    assert [] + [file] == [file] && [file] + [file] == [file, file];
  }
}
