/** Concurrent requests on the store's bucket and file tables, one statement at a time. */
module Interleaving {
  import opened Domain
  import opened Store
  import opened Tallies
  import opened Sums

  /** A request in progress, with what it has read so far. */
  datatype Job =
    | PutStart(bucket: nat, row: FileRow)
    | PutRead(bucket: nat, row: FileRow, snapshot: Bucket)
    | PutInserted(bucket: nat, size: nat, snapshot: Bucket)
    | DeleteStart(bucket: nat, key: string, now: nat)
    | DeleteFound(bucket: nat, file: nat, size: nat, now: nat)
    | DeleteRemoved(bucket: nat, size: nat)
    | DeleteRead(bucket: nat, size: nat, snapshot: Bucket)
    | CleanupStart(now: nat)
    | CleanupRun(ids: seq<nat>, now: nat)
    | VersioningStart(bucket: nat, versioning: Versioning)
    | VersioningRead(bucket: nat, versioning: Versioning, snapshot: Bucket)
    | CreateStart(name: string, max: int)
    | CreateChecked(name: string, max: int)
    | DropStart(bucket: nat, now: nat)
    | DropFound(bucket: nat, now: nat)
    | DropCounted(bucket: nat, now: nat)
    | Finished

  /**
   * What the jobs saw happen, in order; bookkeeping for the statements. `WroteBack` ends a put, a delete or a
   * versioning update and says how much of the change meant for the counters did not reach the bucket row.
   */
  datatype Event =
    | Inserted(bucket: nat, size: nat)
    | DeletedBy(file: nat, bucket: nat, size: nat)
    | ReapedBy(file: nat, bucket: nat, size: nat)
    | WroteBack(bucket: nat, bytesLost: int, objectsLost: int)

  datatype System = System(buckets: seq<Bucket>, files: seq<FileRow>, jobs: seq<Job>, history: seq<Event>)

  // ---------- steps ----------

  datatype Action =
    | Spawn(job: Job)
    | Advance(j: nat)
    | Find(j: nat, file: nat)
    | List(j: nat, ids: seq<nat>)

  predicate Matching(s: System, f: nat, bucket: nat, key: string) {
    f < |s.files| && Matches(s.files[f], bucket, key)
  }

  /** A put arrives with the live row it is going to insert. */
  predicate Initial(job: Job) {
    match job
    case PutStart(bucket, row) => row.bucket == bucket && row.Live()
    case DeleteStart(_, _, _) => true
    case CleanupStart(_) => true
    case VersioningStart(_, _) => true
    case CreateStart(_, _) => true
    case DropStart(_, _) => true
    case _ => false
  }

  /** A lookup may find any live row of the key, as rows can be inserted out of creation order; a listing is one query. */
  ghost predicate CanDo(s: System, a: Action) {
    match a
    case Spawn(job) => Initial(job)
    case Advance(j) =>
      && j < |s.jobs| && !s.jobs[j].Finished? && !s.jobs[j].CleanupStart?
      && (s.jobs[j].DeleteStart? ==> forall f: nat :: !Matching(s, f, s.jobs[j].bucket, s.jobs[j].key))
    case Find(j, f) => j < |s.jobs| && s.jobs[j].DeleteStart? && Matching(s, f, s.jobs[j].bucket, s.jobs[j].key)
    case List(j, ids) =>
      j < |s.jobs| && s.jobs[j].CleanupStart? && ExpiredListing(s.files, s.jobs[j].now, CLEANUP_LIMIT, ids)
  }

  function To(s: System, j: nat, job: Job): System
    requires j < |s.jobs|
  {
    s.(jobs := s.jobs[j := job])
  }

  /** The conditional update of one row: it takes effect only on a live row. */
  function Remove(s: System, f: nat, now: nat, seen: Event): System
    requires f < |s.files|
  {
    s.(files := s.files[f := s.files[f].(deletedAt := Some(now))], history := s.history + [seen])
  }

  /** The update of the whole bucket row from a snapshot changed by `bytes` and `objects`. */
  function WriteBack(s: System, b: nat, row: Bucket, bytes: int, objects: int): System
    requires b < |s.buckets|
  {
    var buckets := UpdatedBuckets(s.buckets, b, row);
    s.(buckets := buckets,
       history := s.history + [WroteBack(b, s.buckets[b].currentSizeBytes + bytes - buckets[b].currentSizeBytes,
                                         s.buckets[b].objectCount + objects - buckets[b].objectCount)])
  }

  /** The row a job writes back. */
  function Written(job: Job): Bucket
    requires job.PutInserted? || job.DeleteRead? || job.VersioningRead?
  {
    match job
    case PutInserted(_, size, b) => b.(currentSizeBytes := b.currentSizeBytes + size, objectCount := b.objectCount + 1)
    case DeleteRead(_, size, b) =>
      b.(currentSizeBytes := ClampedLess(b.currentSizeBytes, size), objectCount := ClampedLess(b.objectCount, 1))
    case VersioningRead(_, versioning, b) => b.(versioning := versioning)
  }

  /** The change a write-back is meant to make. */
  function Meant(m: Measure, job: Job): int {
    match job
    case PutInserted(_, size, _) => Amount(m, size)
    case DeleteRead(_, size, _) => 0 - Amount(m, size)
    case _ => 0
  }

  predicate Writes(job: Job) {
    job.PutInserted? || job.DeleteRead? || job.VersioningRead?
  }

  function AdvanceJob(s: System, j: nat): System
    requires j < |s.jobs|
  {
    var job := s.jobs[j];
    match job
    case PutStart(b, row) =>
      var found := BucketById(s.buckets, b);
      To(s, j, if found.Err? || OverQuota(found.value, row.size) then Finished else PutRead(b, row, found.value))
    case PutRead(b, row, snapshot) =>
      To(s, j, PutInserted(b, row.size, snapshot)).(
        files := s.files + [row], history := s.history + [Inserted(b, row.size)])
    case DeleteStart(_, _, _) => To(s, j, Finished)
    case DeleteFound(b, f, size, now) =>
      if f < |s.files| && s.files[f].Live() then Remove(To(s, j, DeleteRemoved(b, size)), f, now, DeletedBy(f, b, size))
      else To(s, j, Finished)
    case DeleteRemoved(b, size) =>
      var found := BucketById(s.buckets, b);
      if found.Ok? then To(s, j, DeleteRead(b, size, found.value))
      else To(s, j, Finished).(history := s.history + [WroteBack(b, 0 - size, -1)])
    case CleanupRun(ids, now) =>
      if ids == [] then To(s, j, Finished)
      else if ids[0] < |s.files| && s.files[ids[0]].Live() then
        Remove(To(s, j, CleanupRun(ids[1..], now)), ids[0], now,
               ReapedBy(ids[0], s.files[ids[0]].bucket, s.files[ids[0]].size))
      else To(s, j, CleanupRun(ids[1..], now))
    case VersioningStart(b, versioning) =>
      var found := BucketById(s.buckets, b);
      To(s, j, if found.Err? then Finished else VersioningRead(b, versioning, found.value))
    case CreateStart(name, max) =>
      To(s, j, if LiveBucketNamed(s.buckets, name).Some? then Finished else CreateChecked(name, max))
    case CreateChecked(name, max) =>
      To(s, j, Finished).(buckets := s.buckets + [Bucket(name, Disabled, max, 0, 0, None)])
    case DropStart(b, now) => To(s, j, if BucketById(s.buckets, b).Err? then Finished else DropFound(b, now))
    case DropFound(b, now) => To(s, j, if LiveCount(s.files, b) > 0 then Finished else DropCounted(b, now))
    case DropCounted(b, now) =>
      var found := BucketById(s.buckets, b);
      if found.Err? then To(s, j, Finished)
      else To(s, j, Finished).(buckets := s.buckets[b := found.value.(deletedAt := Some(now))])
    case CleanupStart(_) => s
    case Finished => s
    case _ =>
      if job.bucket >= |s.buckets| then To(s, j, Finished)
      else WriteBack(To(s, j, Finished), job.bucket, Written(job), Meant(Measure.Bytes, job), Meant(Objects, job))
  }

  ghost function Do(s: System, a: Action): System
    requires CanDo(s, a)
  {
    match a
    case Spawn(job) => s.(jobs := s.jobs + [job])
    case Advance(j) => AdvanceJob(s, j)
    case Find(j, f) => To(s, j, DeleteFound(s.jobs[j].bucket, f, s.files[f].size, s.jobs[j].now))
    case List(j, ids) => To(s, j, CleanupRun(ids, s.jobs[j].now))
  }

  /** A run from empty buckets, live or deleted, with no files and no requests. */
  ghost predicate Run(states: seq<System>, actions: seq<Action>) {
    && |states| == |actions| + 1
    && Start(states[0])
    && forall i :: 0 <= i < |actions| ==> CanDo(states[i], actions[i]) && states[i + 1] == Do(states[i], actions[i])
  }

  predicate Start(s: System) {
    && s.files == [] && s.jobs == [] && s.history == []
    && forall b :: 0 <= b < |s.buckets| ==> s.buckets[b].currentSizeBytes == 0 && s.buckets[b].objectCount == 0
  }

  // ---------- bounds ----------

  predicate Within(b: Bucket) {
    b.currentSizeBytes >= 0 && b.objectCount >= 0 && (b.maxSizeBytes > 0 ==> b.currentSizeBytes <= b.maxSizeBytes)
  }

  predicate Present(s: System, b: nat) {
    BucketById(s.buckets, b).Ok?
  }

  predicate SnapshotOk(s: System, b: nat, snapshot: Bucket) {
    b < |s.buckets| && snapshot.maxSizeBytes == s.buckets[b].maxSizeBytes && Within(snapshot)
  }

  predicate JobOk(s: System, job: Job) {
    match job
    case PutStart(b, row) => row.bucket == b && row.Live()
    case PutRead(b, row, snapshot) =>
      row.bucket == b && row.Live() && SnapshotOk(s, b, snapshot) && !OverQuota(snapshot, row.size)
    case PutInserted(b, size, snapshot) => SnapshotOk(s, b, snapshot) && !OverQuota(snapshot, size)
    case DeleteFound(b, f, size, _) => f < |s.files| && s.files[f].bucket == b && s.files[f].size == size
    case DeleteRemoved(b, _) => b < |s.buckets|
    case DeleteRead(b, _, snapshot) => SnapshotOk(s, b, snapshot)
    case VersioningRead(b, _, snapshot) => SnapshotOk(s, b, snapshot)
    case _ => true
  }

  /** Rows and events are of buckets in the table. */
  predicate InTable(s: System) {
    && (forall f :: 0 <= f < |s.files| ==> s.files[f].bucket < |s.buckets|)
    && (forall i :: 0 <= i < |s.history| ==> s.history[i].bucket < |s.buckets|)
  }

  predicate RowsWithin(s: System) {
    forall b :: 0 <= b < |s.buckets| ==> Within(s.buckets[b])
  }

  /** Recorded sizes, in the table and in every snapshot, are within bounds. */
  predicate Bounded(s: System) {
    && RowsWithin(s) && InTable(s)
    && (forall i :: 0 <= i < |s.jobs| ==> JobOk(s, s.jobs[i]))
  }

  /** Buckets keep their quota, rows their bucket and size; neither comes back once deleted. */
  predicate Grows(s: System, s': System) {
    && |s'.buckets| >= |s.buckets|
    && (forall b :: 0 <= b < |s.buckets| ==>
          && s'.buckets[b].maxSizeBytes == s.buckets[b].maxSizeBytes
          && (s'.buckets[b].deletedAt.None? ==> s.buckets[b].deletedAt.None?))
    && |s'.files| >= |s.files|
    && forall f :: 0 <= f < |s.files| ==>
         && s'.files[f].bucket == s.files[f].bucket && s'.files[f].size == s.files[f].size
         && (s'.files[f].Live() ==> s.files[f].Live())
  }

  lemma StepGrows(s: System, a: Action)
    requires Bounded(s) && CanDo(s, a)
    ensures Grows(s, Do(s, a))
  {
    if a.Advance? {
      assert JobOk(s, s.jobs[a.j]);
    }
  }

  lemma JobStaysOk(s: System, s': System, job: Job)
    requires JobOk(s, job) && Grows(s, s')
    ensures JobOk(s', job)
  {
  }

  /** A write-back puts a row within bounds in the place of one with the same quota. */
  lemma WritesWithin(s: System, j: nat)
    requires Bounded(s) && j < |s.jobs| && Writes(s.jobs[j])
    ensures Within(Written(s.jobs[j])) && RowsWithin(AdvanceJob(s, j))
  {
    assert JobOk(s, s.jobs[j]);
  }

  lemma NextJobOk(s: System, j: nat)
    requires Bounded(s) && j < |s.jobs|
    ensures JobOk(AdvanceJob(s, j), AdvanceJob(s, j).jobs[j])
  {
    assert JobOk(s, s.jobs[j]);
  }

  lemma StepKeepsRows(s: System, a: Action)
    requires Bounded(s) && CanDo(s, a)
    ensures RowsWithin(Do(s, a)) && InTable(Do(s, a))
  {
    StepGrows(s, a);
    if a.Advance? {
      assert JobOk(s, s.jobs[a.j]);
      if Writes(s.jobs[a.j]) {
        WritesWithin(s, a.j);
      }
    }
  }

  lemma StepKeepsBounds(s: System, a: Action)
    requires Bounded(s) && CanDo(s, a)
    ensures Bounded(Do(s, a))
  {
    var s' := Do(s, a);
    StepGrows(s, a);
    StepKeepsRows(s, a);
    forall i | 0 <= i < |s'.jobs|
      ensures JobOk(s', s'.jobs[i])
    {
      if i < |s.jobs| {
        JobStaysOk(s, s', s.jobs[i]);
        if a.Advance? && i == a.j {
          NextJobOk(s, i);
        }
      }
    }
  }

  /** Under every interleaving the recorded size stays within [0, quota], in the table and in every snapshot. */
  lemma {:induction false} QuotaHolds(states: seq<System>, actions: seq<Action>, i: nat)
    requires Run(states, actions) && i <= |actions|
    ensures Bounded(states[i])
  {
    if i > 0 {
      QuotaHolds(states, actions, i - 1);
      StepKeepsBounds(states[i - 1], actions[i - 1]);
    }
  }

  // ---------- each row is removed once ----------

  function RemovalOf(f: nat): Event -> int {
    (e: Event) => if (e.DeletedBy? || e.ReapedBy?) && e.file == f then 1 else 0
  }

  function Gone(files: seq<FileRow>, f: nat): int {
    if f < |files| && !files[f].Live() then 1 else 0
  }

  /** A live row has been removed by nobody, a dead one by exactly one job. */
  ghost predicate RemovedOnce(s: System) {
    forall f: nat :: SumBy(s.history, RemovalOf(f)) == Gone(s.files, f)
  }

  lemma EventRemovesOnce(s: System, s': System, e: Event)
    requires RemovedOnce(s) && s'.history == s.history + [e]
    requires forall f: nat :: Gone(s'.files, f) == Gone(s.files, f) + RemovalOf(f)(e)
    ensures RemovedOnce(s')
  {
    forall f: nat
      ensures SumBy(s'.history, RemovalOf(f)) == Gone(s'.files, f)
    {
      SumPush(s.history, e, RemovalOf(f));
    }
  }

  lemma InsertionRemovesNothing(s: System, j: nat)
    requires Bounded(s) && j < |s.jobs| && s.jobs[j].PutRead? && RemovedOnce(s)
    ensures RemovedOnce(AdvanceJob(s, j))
  {
    assert JobOk(s, s.jobs[j]);
    EventRemovesOnce(s, AdvanceJob(s, j), Inserted(s.jobs[j].bucket, s.jobs[j].row.size));
  }

  lemma RemovalRemovesOnce(s: System, j: nat, job: Job, f: nat, now: nat, seen: Event)
    requires j < |s.jobs| && RemovedOnce(s) && f < |s.files| && s.files[f].Live()
    requires (seen.DeletedBy? || seen.ReapedBy?) && seen.file == f
    ensures RemovedOnce(Remove(To(s, j, job), f, now, seen))
  {
    EventRemovesOnce(s, Remove(To(s, j, job), f, now, seen), seen);
  }

  lemma WriteBackRemovesNothing(s: System, j: nat)
    requires Bounded(s) && j < |s.jobs| && Writes(s.jobs[j]) && RemovedOnce(s)
    ensures RemovedOnce(AdvanceJob(s, j))
  {
    assert JobOk(s, s.jobs[j]);
    EventRemovesOnce(s, AdvanceJob(s, j), AdvanceJob(s, j).history[|s.history|]);
  }

  lemma DeletionRemovesOnce(s: System, j: nat)
    requires Bounded(s) && j < |s.jobs| && (s.jobs[j].DeleteFound? || s.jobs[j].CleanupRun?) && RemovedOnce(s)
    ensures RemovedOnce(AdvanceJob(s, j))
  {
    assert JobOk(s, s.jobs[j]);
    match s.jobs[j]
    case DeleteFound(b, f, size, now) =>
      if s.files[f].Live() {
        RemovalRemovesOnce(s, j, DeleteRemoved(b, size), f, now, DeletedBy(f, b, size));
      }
    case CleanupRun(ids, now) =>
      if ids != [] && ids[0] < |s.files| && s.files[ids[0]].Live() {
        RemovalRemovesOnce(s, j, CleanupRun(ids[1..], now), ids[0], now,
                           ReapedBy(ids[0], s.files[ids[0]].bucket, s.files[ids[0]].size));
      }
  }

  lemma StepRemovesOnce(s: System, a: Action)
    requires Bounded(s) && CanDo(s, a) && RemovedOnce(s)
    ensures RemovedOnce(Do(s, a))
  {
    if a.Advance? {
      var job := s.jobs[a.j];
      if job.PutRead? {
        InsertionRemovesNothing(s, a.j);
      } else if Writes(job) {
        WriteBackRemovesNothing(s, a.j);
      } else if job.DeleteFound? || job.CleanupRun? {
        DeletionRemovesOnce(s, a.j);
      } else if job.DeleteRemoved? && !Present(s, job.bucket) {
        EventRemovesOnce(s, Do(s, a), WroteBack(job.bucket, 0 - job.size, -1));
      }
    }
  }

  /** Each file row leaves the live state at most once, and exactly one job sees that it did. */
  lemma {:induction false} EachRowRemovedOnce(states: seq<System>, actions: seq<Action>, i: nat)
    requires Run(states, actions) && i <= |actions|
    ensures RemovedOnce(states[i])
  {
    if i > 0 {
      EachRowRemovedOnce(states, actions, i - 1);
      QuotaHolds(states, actions, i - 1);
      StepRemovesOnce(states[i - 1], actions[i - 1]);
    }
  }

  // ---------- what the cleanup job removes ----------

  predicate Due(s: System, f: nat, now: nat) {
    f < |s.files| && s.files[f].expiresAt.Some? && s.files[f].expiresAt.value < now
  }

  predicate ListedDue(s: System, job: Job) {
    job.CleanupRun? ==> forall i :: 0 <= i < |job.ids| ==> Due(s, job.ids[i], job.now)
  }

  predicate ReapedDue(s: System, e: Event) {
    e.ReapedBy? ==> e.file < |s.files| && s.files[e.file].deletedAt.Some? && Due(s, e.file, s.files[e.file].deletedAt.value)
  }

  /** Every listed row was due when listed, and every removed one when removed. */
  ghost predicate AllDue(s: System) {
    && (forall j :: 0 <= j < |s.jobs| ==> ListedDue(s, s.jobs[j]))
    && (forall i :: 0 <= i < |s.history| ==> ReapedDue(s, s.history[i]))
  }

  /** Rows keep their expiry date, and all they say once they are removed. */
  predicate Settles(s: System, s': System) {
    && |s'.files| >= |s.files|
    && forall f :: 0 <= f < |s.files| ==>
         && s'.files[f].expiresAt == s.files[f].expiresAt
         && (!s.files[f].Live() ==> s'.files[f] == s.files[f])
  }

  lemma StepSettles(s: System, a: Action)
    requires CanDo(s, a)
    ensures Settles(s, Do(s, a))
  {
  }

  lemma NextJobListsDue(s: System, a: Action)
    requires CanDo(s, a) && AllDue(s) && !a.Spawn?
    ensures ListedDue(Do(s, a), Do(s, a).jobs[a.j])
  {
    assert ListedDue(s, s.jobs[a.j]);
    StepSettles(s, a);
  }

  lemma NextEventIsDue(s: System, a: Action, i: nat)
    requires CanDo(s, a) && AllDue(s) && i < |Do(s, a).history|
    ensures ReapedDue(Do(s, a), Do(s, a).history[i])
  {
    StepSettles(s, a);
    if i < |s.history| {
      assert ReapedDue(s, s.history[i]) && Do(s, a).history[i] == s.history[i];
    } else if a.Advance? {
      assert ListedDue(s, s.jobs[a.j]);
    }
  }

  lemma JobStillListsDue(s: System, s': System, job: Job)
    requires ListedDue(s, job) && Settles(s, s')
    ensures ListedDue(s', job)
  {
  }

  lemma JobListsDue(s: System, a: Action, j: nat)
    requires CanDo(s, a) && AllDue(s) && j < |Do(s, a).jobs|
    ensures ListedDue(Do(s, a), Do(s, a).jobs[j])
  {
    StepSettles(s, a);
    if !a.Spawn? && j == a.j {
      NextJobListsDue(s, a);
    } else if j < |s.jobs| {
      JobStillListsDue(s, Do(s, a), s.jobs[j]);
    }
  }

  lemma StepStaysDue(s: System, a: Action)
    requires CanDo(s, a) && AllDue(s)
    ensures AllDue(Do(s, a))
  {
    var s' := Do(s, a);
    forall j | 0 <= j < |s'.jobs|
      ensures ListedDue(s', s'.jobs[j])
    {
      JobListsDue(s, a, j);
    }
    forall i | 0 <= i < |s'.history|
      ensures ReapedDue(s', s'.history[i])
    {
      NextEventIsDue(s, a, i);
    }
  }

  /** Under every interleaving the cleanup job removes only rows whose expiry date has gone by. */
  lemma {:induction false} OnlyDueAreReaped(states: seq<System>, actions: seq<Action>, i: nat)
    requires Run(states, actions) && i <= |actions|
    ensures AllDue(states[i])
  {
    if i > 0 {
      OnlyDueAreReaped(states, actions, i - 1);
      StepStaysDue(states[i - 1], actions[i - 1]);
    }
  }

  // ---------- conservation ----------

  function LiveIn(m: Measure, b: nat): FileRow -> int {
    (f: FileRow) => if f.Live() && f.bucket == b then Amount(m, f.size) else 0
  }

  function InsertedIn(m: Measure, b: nat): Event -> int {
    (e: Event) => if e.Inserted? && e.bucket == b then Amount(m, e.size) else 0
  }

  function DeletedIn(m: Measure, b: nat): Event -> int {
    (e: Event) => if e.DeletedBy? && e.bucket == b then Amount(m, e.size) else 0
  }

  function ReapedIn(m: Measure, b: nat): Event -> int {
    (e: Event) => if e.ReapedBy? && e.bucket == b then Amount(m, e.size) else 0
  }

  function LostIn(m: Measure, b: nat): Event -> int {
    (e: Event) => if e.WroteBack? && e.bucket == b then (if m.Bytes? then e.bytesLost else e.objectsLost) else 0
  }

  /** Inserted but not yet counted. */
  function PutPending(m: Measure, b: nat): Job -> int {
    (job: Job) => if job.PutInserted? && job.bucket == b then Amount(m, job.size) else 0
  }

  /** Removed but still counted. */
  function DeletePending(m: Measure, b: nat): Job -> int {
    (job: Job) => if (job.DeleteRemoved? || job.DeleteRead?) && job.bucket == b then Amount(m, job.size) else 0
  }

  /** The five sums over files and events, and the two over jobs. */
  datatype Books = Books(live: int, inserted: int, deleted: int, reaped: int, lost: int, puts: int, deletes: int)

  function BooksOf(s: System, m: Measure, b: nat): Books {
    Books(SumBy(s.files, LiveIn(m, b)), SumBy(s.history, InsertedIn(m, b)), SumBy(s.history, DeletedIn(m, b)),
          SumBy(s.history, ReapedIn(m, b)), SumBy(s.history, LostIn(m, b)),
          SumBy(s.jobs, PutPending(m, b)), SumBy(s.jobs, DeletePending(m, b)))
  }

  /** What was inserted is live, or was removed by a delete, or was removed by the cleanup job. */
  ghost predicate Conserved(s: System, m: Measure, b: nat) {
    var k := BooksOf(s, m, b);
    k.inserted == k.live + k.deleted + k.reaped
  }

  /** The recorded counter, the lost write-backs and the requests in progress account for every live and reaped row. */
  ghost predicate Accounted(s: System, m: Measure, b: nat) {
    var k := BooksOf(s, m, b);
    Counter(s, m, b) + k.lost + k.puts == k.live + k.reaped + k.deletes
  }

  /** The recorded counter; a bucket not created yet counts nothing. */
  function Counter(s: System, m: Measure, b: nat): int {
    if b < |s.buckets| then Recorded(m, s.buckets[b]) else 0
  }

  ghost predicate Balanced(s: System, m: Measure, b: nat) {
    Conserved(s, m, b) && Accounted(s, m, b)
  }

  /** An event is booked under one heading. */
  lemma BookEvent(s: System, e: Event, m: Measure, b: nat)
    ensures
      var k := BooksOf(s, m, b);
      BooksOf(s.(history := s.history + [e]), m, b)
        == k.(inserted := k.inserted + InsertedIn(m, b)(e), deleted := k.deleted + DeletedIn(m, b)(e),
              reaped := k.reaped + ReapedIn(m, b)(e), lost := k.lost + LostIn(m, b)(e))
  {
    SumPush(s.history, e, InsertedIn(m, b));
    SumPush(s.history, e, DeletedIn(m, b));
    SumPush(s.history, e, ReapedIn(m, b));
    SumPush(s.history, e, LostIn(m, b));
  }

  lemma BookJob(s: System, j: nat, job: Job, m: Measure, b: nat)
    requires j < |s.jobs|
    ensures
      var k := BooksOf(s, m, b);
      BooksOf(To(s, j, job), m, b)
        == k.(puts := k.puts - PutPending(m, b)(s.jobs[j]) + PutPending(m, b)(job),
              deletes := k.deletes - DeletePending(m, b)(s.jobs[j]) + DeletePending(m, b)(job))
  {
    SumUpdate(s.jobs, j, job, PutPending(m, b));
    SumUpdate(s.jobs, j, job, DeletePending(m, b));
  }

  lemma BookRow(s: System, row: FileRow, m: Measure, b: nat)
    ensures
      var k := BooksOf(s, m, b);
      BooksOf(s.(files := s.files + [row]), m, b) == k.(live := k.live + LiveIn(m, b)(row))
  {
    SumPush(s.files, row, LiveIn(m, b));
  }

  lemma BookDeath(s: System, f: nat, now: nat, m: Measure, b: nat)
    requires f < |s.files|
    ensures
      var k := BooksOf(s, m, b);
      BooksOf(s.(files := s.files[f := s.files[f].(deletedAt := Some(now))]), m, b)
        == k.(live := k.live - LiveIn(m, b)(s.files[f]))
  {
    SumUpdate(s.files, f, s.files[f].(deletedAt := Some(now)), LiveIn(m, b));
  }

  /** A job moves on without touching tables, its pending amounts unchanged. */
  lemma MoveBalances(s: System, j: nat, job: Job, m: Measure, b: nat)
    requires j < |s.jobs| && Balanced(s, m, b)
    requires PutPending(m, b)(s.jobs[j]) == PutPending(m, b)(job)
    requires DeletePending(m, b)(s.jobs[j]) == DeletePending(m, b)(job)
    ensures Balanced(To(s, j, job), m, b)
  {
    BookJob(s, j, job, m, b);
  }

  /** The amount counts in its own bucket only. */
  function Share(m: Measure, b: nat, bucket: nat, size: nat): nat {
    if bucket == b then Amount(m, size) else 0
  }

  lemma SharesOfInsert(row: FileRow, bucket: nat, snapshot: Bucket, m: Measure, b: nat)
    requires row.bucket == bucket && row.Live()
    ensures
      var added, seen := Share(m, b, bucket, row.size), Inserted(bucket, row.size);
      var inserted := PutInserted(bucket, row.size, snapshot);
      && PutPending(m, b)(inserted) == added && DeletePending(m, b)(inserted) == 0
      && InsertedIn(m, b)(seen) == added && DeletedIn(m, b)(seen) == ReapedIn(m, b)(seen) == LostIn(m, b)(seen) == 0
      && LiveIn(m, b)(row) == added
  {
  }

  lemma InsertBooks(s: System, j: nat, m: Measure, b: nat)
    requires j < |s.jobs| && s.jobs[j].PutRead? && s.jobs[j].row.bucket == s.jobs[j].bucket && s.jobs[j].row.Live()
    ensures
      var k, added := BooksOf(s, m, b), Share(m, b, s.jobs[j].bucket, s.jobs[j].row.size);
      BooksOf(AdvanceJob(s, j), m, b)
        == k.(live := k.live + added, inserted := k.inserted + added, puts := k.puts + added)
  {
    var row, bucket, snapshot := s.jobs[j].row, s.jobs[j].bucket, s.jobs[j].snapshot;
    var moved := To(s, j, PutInserted(bucket, row.size, snapshot));
    var seen := moved.(history := moved.history + [Inserted(bucket, row.size)]);
    assert AdvanceJob(s, j) == seen.(files := seen.files + [row]);
    SharesOfInsert(row, bucket, snapshot, m, b);
    BookJob(s, j, PutInserted(bucket, row.size, snapshot), m, b);
    BookEvent(moved, Inserted(bucket, row.size), m, b);
    BookRow(seen, row, m, b);
  }

  lemma InsertBalances(s: System, j: nat, m: Measure, b: nat)
    requires Bounded(s) && j < |s.jobs| && s.jobs[j].PutRead? && Balanced(s, m, b)
    ensures Balanced(AdvanceJob(s, j), m, b)
  {
    assert JobOk(s, s.jobs[j]);
    InsertBooks(s, j, m, b);
  }

  lemma RemoveBooks(s: System, j: nat, job: Job, f: nat, now: nat, seen: Event, m: Measure, b: nat)
    requires j < |s.jobs| && f < |s.files| && s.files[f].Live()
    requires seen == DeletedBy(f, s.files[f].bucket, s.files[f].size)
        || seen == ReapedBy(f, s.files[f].bucket, s.files[f].size)
    requires PutPending(m, b)(s.jobs[j]) == PutPending(m, b)(job)
    requires DeletePending(m, b)(job) == DeletePending(m, b)(s.jobs[j]) + DeletedIn(m, b)(seen)
    ensures
      var k, gone := BooksOf(s, m, b), Share(m, b, s.files[f].bucket, s.files[f].size);
      BooksOf(Remove(To(s, j, job), f, now, seen), m, b)
        == if seen.DeletedBy? then k.(live := k.live - gone, deleted := k.deleted + gone, deletes := k.deletes + gone)
           else k.(live := k.live - gone, reaped := k.reaped + gone)
  {
    var moved := To(s, j, job);
    BookJob(s, j, job, m, b);
    BookEvent(moved, seen, m, b);
    BookDeath(moved.(history := s.history + [seen]), f, now, m, b);
  }

  lemma DeletionBalances(s: System, j: nat, m: Measure, b: nat)
    requires Bounded(s) && j < |s.jobs| && s.jobs[j].DeleteFound? && Balanced(s, m, b)
    ensures Balanced(AdvanceJob(s, j), m, b)
  {
    var job := s.jobs[j];
    assert JobOk(s, job);
    if s.files[job.file].Live() {
      RemoveBooks(s, j, DeleteRemoved(job.bucket, job.size), job.file, job.now,
                  DeletedBy(job.file, job.bucket, job.size), m, b);
    } else {
      MoveBalances(s, j, Finished, m, b);
    }
  }

  lemma CleanupBalances(s: System, j: nat, m: Measure, b: nat)
    requires j < |s.jobs| && s.jobs[j].CleanupRun? && Balanced(s, m, b)
    ensures Balanced(AdvanceJob(s, j), m, b)
  {
    var ids, now := s.jobs[j].ids, s.jobs[j].now;
    if ids == [] {
      MoveBalances(s, j, Finished, m, b);
    } else if ids[0] < |s.files| && s.files[ids[0]].Live() {
      RemoveBooks(s, j, CleanupRun(ids[1..], now), ids[0], now,
                  ReapedBy(ids[0], s.files[ids[0]].bucket, s.files[ids[0]].size), m, b);
    } else {
      MoveBalances(s, j, CleanupRun(ids[1..], now), m, b);
    }
  }

  /** The event of a write-back records by how much the counter misses the change that was meant. */
  lemma WriteBackEvent(s: System, j: nat, m: Measure, b: nat)
    requires j < |s.jobs| && Writes(s.jobs[j]) && s.jobs[j].bucket < |s.buckets|
    ensures
      var s', bucket := AdvanceJob(s, j), s.jobs[j].bucket;
      && |s'.history| == |s.history| + 1 && s'.history == s.history + [s'.history[|s.history|]]
      && s'.history[|s.history|].WroteBack? && s'.history[|s.history|].bucket == bucket
      && LostIn(m, b)(s'.history[|s.history|])
         == if bucket == b
            then Recorded(m, s.buckets[b]) + Meant(m, s.jobs[j]) - Recorded(m, s'.buckets[b]) else 0
  {
  }

  lemma WriteBackBooks(s: System, j: nat, m: Measure, b: nat)
    requires j < |s.jobs| && Writes(s.jobs[j]) && s.jobs[j].bucket < |s.buckets|
    ensures
      var s', k := AdvanceJob(s, j), BooksOf(s, m, b);
      BooksOf(s', m, b)
        == k.(lost := k.lost + LostIn(m, b)(s'.history[|s.history|]), puts := k.puts - PutPending(m, b)(s.jobs[j]),
              deletes := k.deletes - DeletePending(m, b)(s.jobs[j]))
  {
    var s' := AdvanceJob(s, j);
    WriteBackEvent(s, j, m, b);
    var moved := To(s, j, Finished);
    BookJob(s, j, Finished, m, b);
    BookEvent(moved, s'.history[|s.history|], m, b);
    assert s' == moved.(history := s'.history).(buckets := s'.buckets);
  }

  lemma PendingIsMeant(job: Job, m: Measure, b: nat)
    requires Writes(job)
    ensures PutPending(m, b)(job) - DeletePending(m, b)(job) == if job.bucket == b then Meant(m, job) else 0
  {
  }

  lemma WriteBackBalances(s: System, j: nat, m: Measure, b: nat)
    requires Bounded(s) && j < |s.jobs| && Writes(s.jobs[j]) && Balanced(s, m, b)
    ensures Balanced(AdvanceJob(s, j), m, b)
  {
    assert JobOk(s, s.jobs[j]);
    WriteBackEvent(s, j, m, b);
    WriteBackBooks(s, j, m, b);
    PendingIsMeant(s.jobs[j], m, b);
  }

  lemma ReadBalances(s: System, j: nat, m: Measure, b: nat)
    requires Bounded(s) && j < |s.jobs| && Balanced(s, m, b)
    requires Reads(s, s.jobs[j])
    ensures Balanced(AdvanceJob(s, j), m, b)
  {
    assert JobOk(s, s.jobs[j]);
    MoveBalances(s, j, AdvanceJob(s, j).jobs[j], m, b);
  }

  /** The job's next statement only reads. */
  predicate Reads(s: System, job: Job) {
    || job.PutStart? || job.DeleteStart? || job.VersioningStart? || job.CreateStart? || job.DropStart? || job.DropFound?
    || (job.DeleteRemoved? && Present(s, job.bucket))
  }

  /** Creating or deleting a bucket changes no counter. */
  lemma BucketBalances(s: System, j: nat, m: Measure, b: nat)
    requires j < |s.jobs| && (s.jobs[j].CreateChecked? || s.jobs[j].DropCounted?) && Balanced(s, m, b)
    ensures Balanced(AdvanceJob(s, j), m, b)
  {
    var s' := AdvanceJob(s, j);
    MoveBalances(s, j, Finished, m, b);
    assert BooksOf(s', m, b) == BooksOf(To(s, j, Finished), m, b);
    assert Counter(s', m, b) == Counter(s, m, b);
  }

  lemma VanishBooks(s: System, j: nat, m: Measure, b: nat)
    requires j < |s.jobs| && s.jobs[j].DeleteRemoved? && !Present(s, s.jobs[j].bucket)
    ensures
      var k, gone := BooksOf(s, m, b), Share(m, b, s.jobs[j].bucket, s.jobs[j].size);
      BooksOf(AdvanceJob(s, j), m, b) == k.(lost := k.lost - gone, deletes := k.deletes - gone)
  {
    var job := s.jobs[j];
    var moved, seen := To(s, j, Finished), WroteBack(job.bucket, 0 - job.size, -1);
    assert AdvanceJob(s, j) == moved.(history := moved.history + [seen]);
    BookJob(s, j, Finished, m, b);
    BookEvent(moved, seen, m, b);
  }

  /** A delete whose bucket is gone records nothing. */
  lemma VanishBalances(s: System, j: nat, m: Measure, b: nat)
    requires j < |s.jobs| && s.jobs[j].DeleteRemoved? && !Present(s, s.jobs[j].bucket) && Balanced(s, m, b)
    ensures Balanced(AdvanceJob(s, j), m, b)
  {
    VanishBooks(s, j, m, b);
  }

  lemma AdvanceBalances(s: System, j: nat, m: Measure, b: nat)
    requires Bounded(s) && j < |s.jobs| && Balanced(s, m, b)
    ensures Balanced(AdvanceJob(s, j), m, b)
  {
    var job := s.jobs[j];
    if job.PutRead? {
      InsertBalances(s, j, m, b);
    } else if job.DeleteFound? {
      DeletionBalances(s, j, m, b);
    } else if job.CleanupRun? {
      CleanupBalances(s, j, m, b);
    } else if job.CreateChecked? || job.DropCounted? {
      BucketBalances(s, j, m, b);
    } else if Writes(job) {
      WriteBackBalances(s, j, m, b);
    } else if Reads(s, job) {
      ReadBalances(s, j, m, b);
    } else if job.DeleteRemoved? {
      VanishBalances(s, j, m, b);
    }
  }

  lemma StepBalances(s: System, a: Action, m: Measure, b: nat)
    requires Bounded(s) && CanDo(s, a) && Balanced(s, m, b)
    ensures Balanced(Do(s, a), m, b)
  {
    match a
    case Spawn(job) =>
      SumPush(s.jobs, job, PutPending(m, b));
      SumPush(s.jobs, job, DeletePending(m, b));
    case Advance(j) => AdvanceBalances(s, j, m, b);
    case Find(j, _) => MoveBalances(s, j, Do(s, a).jobs[j], m, b);
    case List(j, _) => MoveBalances(s, j, Do(s, a).jobs[j], m, b);
  }

  /** Conservation and full accounting under every interleaving. */
  lemma {:induction false} NothingUnaccounted(states: seq<System>, actions: seq<Action>, i: nat, m: Measure, b: nat)
    requires Run(states, actions) && i <= |actions|
    ensures Conserved(states[i], m, b) && Accounted(states[i], m, b)
  {
    if i > 0 {
      NothingUnaccounted(states, actions, i - 1, m, b);
      QuotaHolds(states, actions, i - 1);
      StepBalances(states[i - 1], actions[i - 1], m, b);
    }
  }
}
