/** The two views of the tables agree: a sequential operation is its own request's statements with nobody in between. */
module Schedules {
  import opened Bytes
  import opened Domain
  import opened Pipeline
  import opened Store
  import opened Invariants
  import opened Preservation
  import Services
  import Steps = Interleaving

  /** The stepwise tables are the sequential ones. */
  predicate Mirrors(s: State, sys: Steps.System) {
    sys.buckets == s.buckets && sys.files == s.files
  }

  // ---------- sequences of steps ----------

  ghost predicate Reaches(sys: Steps.System, actions: seq<Steps.Action>, sys': Steps.System)
    decreases |actions|
  {
    if actions == [] then sys == sys'
    else Steps.CanDo(sys, actions[0]) && Reaches(Steps.Do(sys, actions[0]), actions[1..], sys')
  }

  predicate Names(a: Steps.Action, j: nat) {
    !a.Spawn? && a.j == j
  }

  /** The request arrives as job number j, and every further step is one of that job. */
  predicate Alone(actions: seq<Steps.Action>, job: Steps.Job, j: nat) {
    && actions != [] && actions[0] == Steps.Spawn(job)
    && forall t :: 1 <= t < |actions| ==> Names(actions[t], j)
  }

  lemma {:induction false} ReachesOn(sys: Steps.System, actions: seq<Steps.Action>, middle: Steps.System,
                                     more: seq<Steps.Action>, last: Steps.System)
    requires Reaches(sys, actions, middle) && Reaches(middle, more, last)
    ensures Reaches(sys, actions + more, last)
    decreases |actions|
  {
    if actions == [] {
      assert actions + more == more;
    } else {
      ReachesOn(Steps.Do(sys, actions[0]), actions[1..], middle, more, last);
      assert (actions + more)[1..] == actions[1..] + more;
    }
  }

  /** One more step of the lone job. */
  lemma Then(sys: Steps.System, actions: seq<Steps.Action>, middle: Steps.System, a: Steps.Action, job: Steps.Job, j: nat)
      returns (actions': seq<Steps.Action>, last: Steps.System)
    requires Reaches(sys, actions, middle) && Alone(actions, job, j) && Steps.CanDo(middle, a) && Names(a, j)
    ensures Reaches(sys, actions', last) && Alone(actions', job, j) && last == Steps.Do(middle, a)
  {
    actions', last := actions + [a], Steps.Do(middle, a);
    assert Reaches(last, [a][1..], last);
    ReachesOn(sys, actions, middle, [a], last);
  }

  lemma Arrives(sys: Steps.System, job: Steps.Job) returns (actions: seq<Steps.Action>, last: Steps.System)
    requires Steps.Initial(job)
    ensures Reaches(sys, actions, last) && Alone(actions, job, |sys.jobs|) && last == sys.(jobs := sys.jobs + [job])
  {
    last := Steps.Do(sys, Steps.Spawn(job));
    assert Reaches(last, [], last);
    assert [Steps.Spawn(job)][1..] == [];
    actions := [Steps.Spawn(job)];
  }

  lemma LastJob(jobs: seq<Steps.Job>, x: Steps.Job, y: Steps.Job)
    ensures (jobs + [x])[|jobs| := y] == jobs + [y]
  {
  }

  // ---------- one operation ----------

  /** The request an accepted operation makes of the bucket and file tables; a rejected one makes none. */
  function Requests(cfg: Config, s: State, op: Op, sha256: Hash): seq<Steps.Job>
    requires cfg.Valid()
  {
    match op
    case Put(bucket, key, raw, ttl, now) => PutRequests(cfg, s, bucket, key, raw, ttl, now, sha256)
    case Delete(bucket, key, now) =>
      if Newest(s.files, bucket, key).None? then [] else [Steps.DeleteStart(bucket, key, now)]
    case Cleanup(now, ids) => [Steps.CleanupStart(now)]
    case CreateBucket(name, maxSizeBytes, now) =>
      if Services.CreateBucketError(s, name).Some? then [] else [Steps.CreateStart(name, maxSizeBytes)]
    case DeleteBucket(bucket, now) =>
      if Services.DeleteBucketError(s, bucket).Some? then [] else [Steps.DropStart(bucket, now)]
    case SetVersioning(bucket, versioning, now) =>
      if BucketById(s.buckets, bucket).Err? then [] else [Steps.VersioningStart(bucket, versioning)]
    case Complete(upload, bucket, key, parts, now) =>
      var joined := Services.JoinedParts(s.disk, upload, parts);
      if joined.None? then [] else PutRequests(cfg, s, bucket, key, joined.value, None, now, sha256)
    case _ => []
  }

  function PutRequests(cfg: Config, s: State, bucket: nat, key: string, raw: Blob, ttl: Option<int>, now: nat,
                       sha256: Hash): seq<Steps.Job>
    requires cfg.Valid()
  {
    if PutError(cfg, s, bucket, raw).Some? then []
    else [Steps.PutStart(bucket, NewFile(cfg, bucket, key, raw, ttl, now, sha256))]
  }

  /** Writing the raised counters back changes the snapshot's row and no other. */
  lemma CountersWritten(buckets: seq<Bucket>, b: nat, job: Steps.Job)
    requires Steps.Writes(job) && BucketById(buckets, b) == Ok(job.snapshot)
    ensures UpdatedBuckets(buckets, b, Steps.Written(job)) == buckets[b := Steps.Written(job)]
  {
  }

  /** A put's three statements on the tables. */
  lemma PutSteps(sys: Steps.System, bucket: nat, row: FileRow, snapshot: Bucket)
      returns (actions: seq<Steps.Action>, last: Steps.System)
    requires row.bucket == bucket && row.Live()
    requires BucketById(sys.buckets, bucket) == Ok(snapshot) && !OverQuota(snapshot, row.size)
    ensures Reaches(sys, actions, last) && Alone(actions, Steps.PutStart(bucket, row), |sys.jobs|)
    ensures last.jobs == sys.jobs + [Steps.Finished] && last.files == sys.files + [row]
    ensures last.buckets == sys.buckets[bucket := snapshot.(
              currentSizeBytes := snapshot.currentSizeBytes + row.size, objectCount := snapshot.objectCount + 1)]
  {
    var j, job := |sys.jobs|, Steps.PutStart(bucket, row);
    var read, inserted := Steps.PutRead(bucket, row, snapshot), Steps.PutInserted(bucket, row.size, snapshot);
    CountersWritten(sys.buckets, bucket, inserted);
    actions, last := Arrives(sys, job);
    actions, last := Then(sys, actions, last, Steps.Advance(j), job, j);
    LastJob(sys.jobs, job, read);
    actions, last := Then(sys, actions, last, Steps.Advance(j), job, j);
    LastJob(sys.jobs, read, inserted);
    actions, last := Then(sys, actions, last, Steps.Advance(j), job, j);
    LastJob(sys.jobs, inserted, Steps.Finished);
  }

  lemma PutAlone(cfg: Config, s: State, sys: Steps.System, bucket: nat, key: string, raw: Blob, ttl: Option<int>,
                 now: nat, sha256: Hash) returns (actions: seq<Steps.Action>, last: Steps.System)
    requires cfg.Valid() && Mirrors(s, sys) && PutError(cfg, s, bucket, raw).None?
    ensures
      var job := Steps.PutStart(bucket, NewFile(cfg, bucket, key, raw, ttl, now, sha256));
      Alone(actions, job, |sys.jobs|) && last.jobs == sys.jobs + [Steps.Finished]
    ensures Reaches(sys, actions, last) && Mirrors(AfterPut(cfg, s, bucket, key, raw, ttl, now, sha256), last)
  {
    actions, last := PutSteps(sys, bucket, NewFile(cfg, bucket, key, raw, ttl, now, sha256), sys.buckets[bucket]);
  }

  lemma DeleteAlone(s: State, sys: Steps.System, bucket: nat, key: string, now: nat)
      returns (actions: seq<Steps.Action>, last: Steps.System)
    requires Mirrors(s, sys) && Newest(s.files, bucket, key).Some? && BucketById(s.buckets, bucket).Ok?
    ensures Alone(actions, Steps.DeleteStart(bucket, key, now), |sys.jobs|) && last.jobs == sys.jobs + [Steps.Finished]
    ensures Reaches(sys, actions, last) && Mirrors(AfterDelete(s, bucket, key, now), last)
  {
    var j, f, job := |sys.jobs|, Newest(s.files, bucket, key).value, Steps.DeleteStart(bucket, key, now);
    var size := s.files[f].size;
    var found, removed := Steps.DeleteFound(bucket, f, size, now), Steps.DeleteRemoved(bucket, size);
    var read := Steps.DeleteRead(bucket, size, sys.buckets[bucket]);
    actions, last := Arrives(sys, job);
    actions, last := Then(sys, actions, last, Steps.Find(j, f), job, j);
    LastJob(sys.jobs, job, found);
    actions, last := Then(sys, actions, last, Steps.Advance(j), job, j);
    LastJob(sys.jobs, found, removed);
    actions, last := Then(sys, actions, last, Steps.Advance(j), job, j);
    LastJob(sys.jobs, removed, read);
    actions, last := Then(sys, actions, last, Steps.Advance(j), job, j);
    LastJob(sys.jobs, read, Steps.Finished);
  }

  lemma VersioningAlone(s: State, sys: Steps.System, bucket: nat, versioning: Versioning, now: nat)
      returns (actions: seq<Steps.Action>, last: Steps.System)
    requires Mirrors(s, sys) && BucketById(s.buckets, bucket).Ok?
    ensures Alone(actions, Steps.VersioningStart(bucket, versioning), |sys.jobs|)
    ensures last.jobs == sys.jobs + [Steps.Finished]
    ensures Reaches(sys, actions, last) && Mirrors(AfterVersioning(s, bucket, versioning, now), last)
  {
    var j, job := |sys.jobs|, Steps.VersioningStart(bucket, versioning);
    var read := Steps.VersioningRead(bucket, versioning, sys.buckets[bucket]);
    actions, last := Arrives(sys, job);
    actions, last := Then(sys, actions, last, Steps.Advance(j), job, j);
    LastJob(sys.jobs, job, read);
    actions, last := Then(sys, actions, last, Steps.Advance(j), job, j);
    LastJob(sys.jobs, read, Steps.Finished);
  }

  lemma CreateAlone(s: State, sys: Steps.System, name: string, max: int, now: nat)
      returns (actions: seq<Steps.Action>, last: Steps.System)
    requires Mirrors(s, sys) && Services.CreateBucketError(s, name).None?
    ensures Alone(actions, Steps.CreateStart(name, max), |sys.jobs|) && last.jobs == sys.jobs + [Steps.Finished]
    ensures Reaches(sys, actions, last) && Mirrors(AfterCreateBucket(s, name, max, now), last)
  {
    var j, job, checked := |sys.jobs|, Steps.CreateStart(name, max), Steps.CreateChecked(name, max);
    actions, last := Arrives(sys, job);
    actions, last := Then(sys, actions, last, Steps.Advance(j), job, j);
    LastJob(sys.jobs, job, checked);
    actions, last := Then(sys, actions, last, Steps.Advance(j), job, j);
    LastJob(sys.jobs, checked, Steps.Finished);
  }

  lemma DropAlone(s: State, sys: Steps.System, bucket: nat, now: nat)
      returns (actions: seq<Steps.Action>, last: Steps.System)
    requires Mirrors(s, sys) && Services.DeleteBucketError(s, bucket).None?
    ensures Alone(actions, Steps.DropStart(bucket, now), |sys.jobs|) && last.jobs == sys.jobs + [Steps.Finished]
    ensures Reaches(sys, actions, last) && Mirrors(AfterDeleteBucket(s, bucket, now), last)
  {
    var j, job := |sys.jobs|, Steps.DropStart(bucket, now);
    var found, counted := Steps.DropFound(bucket, now), Steps.DropCounted(bucket, now);
    actions, last := Arrives(sys, job);
    actions, last := Then(sys, actions, last, Steps.Advance(j), job, j);
    LastJob(sys.jobs, job, found);
    actions, last := Then(sys, actions, last, Steps.Advance(j), job, j);
    LastJob(sys.jobs, found, counted);
    actions, last := Then(sys, actions, last, Steps.Advance(j), job, j);
    LastJob(sys.jobs, counted, Steps.Finished);
  }

  lemma MarkOneMore(files: seq<FileRow>, ids: seq<nat>, now: nat)
    requires ids != [] && forall i :: 0 <= i < |ids| ==> ids[i] < |files|
    ensures MarkDeleted(files[ids[0] := files[ids[0]].(deletedAt := Some(now))], ids[1..], now)
        == MarkDeleted(files, ids, now)
  {
    assert forall f :: f in ids <==> f == ids[0] || f in ids[1..];
  }

  /** The cleanup loop, one row at a time. */
  lemma {:induction false} SweepAlone(sys: Steps.System, j: nat, ids: seq<nat>, now: nat)
      returns (actions: seq<Steps.Action>, last: Steps.System)
    requires j < |sys.jobs| && sys.jobs[j] == Steps.CleanupRun(ids, now)
    requires forall i :: 0 <= i < |ids| ==> ids[i] < |sys.files| && sys.files[ids[i]].Live()
    requires forall i, i' :: 0 <= i < i' < |ids| ==> ids[i] != ids[i']
    ensures Reaches(sys, actions, last) && forall t :: 0 <= t < |actions| ==> Names(actions[t], j)
    ensures last.buckets == sys.buckets && last.files == MarkDeleted(sys.files, ids, now)
    ensures last.jobs == sys.jobs[j := Steps.Finished]
    decreases |ids|
  {
    var next := Steps.Do(sys, Steps.Advance(j));
    var rest;
    if ids == [] {
      rest, last := [], next;
      assert MarkDeleted(sys.files, [], now) == sys.files;
    } else {
      MarkOneMore(sys.files, ids, now);
      rest, last := SweepAlone(next, j, ids[1..], now);
    }
    actions := [Steps.Advance(j)] + rest;
    assert actions[1..] == rest;
  }

  lemma CleanupAlone(s: State, sys: Steps.System, now: nat, ids: seq<nat>)
      returns (actions: seq<Steps.Action>, last: Steps.System)
    requires Mirrors(s, sys) && ExpiredListing(s.files, now, CLEANUP_LIMIT, ids)
    ensures Alone(actions, Steps.CleanupStart(now), |sys.jobs|) && last.jobs == sys.jobs + [Steps.Finished]
    ensures Reaches(sys, actions, last) && Mirrors(AfterCleanup(s, now, ids), last)
  {
    var j, job, run := |sys.jobs|, Steps.CleanupStart(now), Steps.CleanupRun(ids, now);
    var begun, middle := Arrives(sys, job);
    begun, middle := Then(sys, begun, middle, Steps.List(j, ids), job, j);
    LastJob(sys.jobs, job, run);
    var more;
    more, last := SweepAlone(middle, j, ids, now);
    LastJob(sys.jobs, run, Steps.Finished);
    ReachesOn(sys, begun, middle, more, last);
    actions := begun + more;
  }

  /** From `sys` to `sys'` exactly the operation's request ran, alone and to its end; for a rejected one nothing did. */
  ghost predicate Serves(cfg: Config, s: State, op: Op, sha256: Hash, sys: Steps.System, actions: seq<Steps.Action>,
                         sys': Steps.System)
    requires cfg.Valid()
  {
    var requests := Requests(cfg, s, op, sha256);
    && Reaches(sys, actions, sys')
    && if requests == [] then actions == []
       else Alone(actions, requests[0], |sys.jobs|) && sys'.jobs == sys.jobs + [Steps.Finished]
  }

  lemma PutServed(cfg: Config, s: State, sys: Steps.System, op: Op, sha256: Hash)
      returns (actions: seq<Steps.Action>, last: Steps.System)
    requires cfg.Valid() && Allowed(s, op) && op.Put? && Inv(cfg, s, sha256) && Mirrors(s, sys)
    ensures Serves(cfg, s, op, sha256, sys, actions, last) && Mirrors(Apply(cfg, s, op, sha256), last)
  {
    actions, last := [], sys;
    if PutError(cfg, s, op.bucket, op.raw).None? {
      actions, last := PutAlone(cfg, s, sys, op.bucket, op.key, op.raw, op.ttl, op.now, sha256);
    }
  }

  lemma CompletionServed(cfg: Config, s: State, sys: Steps.System, op: Op, sha256: Hash)
      returns (actions: seq<Steps.Action>, last: Steps.System)
    requires cfg.Valid() && Allowed(s, op) && op.Complete? && Inv(cfg, s, sha256) && Mirrors(s, sys)
    ensures Serves(cfg, s, op, sha256, sys, actions, last) && Mirrors(Apply(cfg, s, op, sha256), last)
  {
    actions, last := [], sys;
    var joined := Services.JoinedParts(s.disk, op.upload, op.parts);
    if joined.Some? && PutError(cfg, s, op.bucket, joined.value).None? {
      actions, last := PutAlone(cfg, s, sys, op.bucket, op.key, joined.value, None, op.now, sha256);
    }
  }

  lemma DeleteServed(cfg: Config, s: State, sys: Steps.System, op: Op, sha256: Hash)
      returns (actions: seq<Steps.Action>, last: Steps.System)
    requires cfg.Valid() && Allowed(s, op) && op.Delete? && Inv(cfg, s, sha256) && Mirrors(s, sys)
    ensures Serves(cfg, s, op, sha256, sys, actions, last) && Mirrors(Apply(cfg, s, op, sha256), last)
  {
    actions, last := [], sys;
    if Newest(s.files, op.bucket, op.key).Some? {
      actions, last := DeleteAlone(s, sys, op.bucket, op.key, op.now);
    }
  }

  lemma CleanupServed(cfg: Config, s: State, sys: Steps.System, op: Op, sha256: Hash)
      returns (actions: seq<Steps.Action>, last: Steps.System)
    requires cfg.Valid() && Allowed(s, op) && op.Cleanup? && Inv(cfg, s, sha256) && Mirrors(s, sys)
    ensures Serves(cfg, s, op, sha256, sys, actions, last) && Mirrors(Apply(cfg, s, op, sha256), last)
  {
    actions, last := CleanupAlone(s, sys, op.now, op.ids);
  }

  lemma VersioningServed(cfg: Config, s: State, sys: Steps.System, op: Op, sha256: Hash)
      returns (actions: seq<Steps.Action>, last: Steps.System)
    requires cfg.Valid() && Allowed(s, op) && op.SetVersioning? && Inv(cfg, s, sha256) && Mirrors(s, sys)
    ensures Serves(cfg, s, op, sha256, sys, actions, last) && Mirrors(Apply(cfg, s, op, sha256), last)
  {
    actions, last := [], sys;
    if BucketById(s.buckets, op.bucket).Ok? {
      actions, last := VersioningAlone(s, sys, op.bucket, op.versioning, op.now);
    }
  }

  lemma BucketOpServed(cfg: Config, s: State, sys: Steps.System, op: Op, sha256: Hash)
      returns (actions: seq<Steps.Action>, last: Steps.System)
    requires cfg.Valid() && Allowed(s, op) && (op.CreateBucket? || op.DeleteBucket?) && Mirrors(s, sys)
    ensures Serves(cfg, s, op, sha256, sys, actions, last) && Mirrors(Apply(cfg, s, op, sha256), last)
  {
    actions, last := [], sys;
    if op.CreateBucket? && Services.CreateBucketError(s, op.name).None? {
      actions, last := CreateAlone(s, sys, op.name, op.maxSizeBytes, op.now);
    } else if op.DeleteBucket? && Services.DeleteBucketError(s, op.bucket).None? {
      actions, last := DropAlone(s, sys, op.bucket, op.now);
    }
  }

  /** What an operation does to the tables is what its own request does, statement by statement, running alone. */
  lemma OperationIsASchedule(cfg: Config, s: State, sys: Steps.System, op: Op, sha256: Hash)
      returns (actions: seq<Steps.Action>, last: Steps.System)
    requires cfg.Valid() && Allowed(s, op) && Inv(cfg, s, sha256) && Mirrors(s, sys)
    ensures Serves(cfg, s, op, sha256, sys, actions, last) && Mirrors(Apply(cfg, s, op, sha256), last)
  {
    if op.Put? {
      actions, last := PutServed(cfg, s, sys, op, sha256);
    } else if op.Complete? {
      actions, last := CompletionServed(cfg, s, sys, op, sha256);
    } else if op.Delete? {
      actions, last := DeleteServed(cfg, s, sys, op, sha256);
    } else if op.Cleanup? {
      actions, last := CleanupServed(cfg, s, sys, op, sha256);
    } else if op.SetVersioning? {
      actions, last := VersioningServed(cfg, s, sys, op, sha256);
    } else if op.CreateBucket? || op.DeleteBucket? {
      actions, last := BucketOpServed(cfg, s, sys, op, sha256);
    } else {
      actions, last := [], sys;
    }
  }

  // ---------- whole runs ----------

  /** The t-th operation of a run takes the t-th system to the next. */
  ghost predicate ServedAt(cfg: Config, states: seq<State>, ops: seq<Op>, sha256: Hash, systems: seq<Steps.System>,
                           blocks: seq<seq<Steps.Action>>, t: nat)
    requires cfg.Valid() && t < |ops| < |states| && t < |blocks| < |systems|
  {
    Serves(cfg, states[t], ops[t], sha256, systems[t], blocks[t], systems[t + 1])
  }

  /**
   * Every sequential run is a run of the stepwise system without interleaving: its operations' requests are served one
   * after the other, each alone and to its end.
   */
  lemma {:induction false} RunIsASchedule(cfg: Config, states: seq<State>, ops: seq<Op>, sha256: Hash, n: nat)
      returns (systems: seq<Steps.System>, blocks: seq<seq<Steps.Action>>)
    requires cfg.Valid() && Run(cfg, states, ops, sha256) && n <= |ops|
    ensures |systems| == n + 1 && |blocks| == n && systems[0] == Steps.System([], [], [], [])
    ensures forall t: nat :: t <= n ==> Mirrors(states[t], systems[t])
    ensures forall t: nat :: t < n ==> ServedAt(cfg, states, ops, sha256, systems, blocks, t)
  {
    if n == 0 {
      systems, blocks := [Steps.System([], [], [], [])], [];
    } else {
      var before, done := RunIsASchedule(cfg, states, ops, sha256, n - 1);
      RunKeepsInv(cfg, states, ops, sha256, n - 1);
      var block, last := OperationIsASchedule(cfg, states[n - 1], before[n - 1], ops[n - 1], sha256);
      systems, blocks := before + [last], done + [block];
      forall t: nat | t < n
        ensures ServedAt(cfg, states, ops, sha256, systems, blocks, t)
      {
        if t < n - 1 {
          assert ServedAt(cfg, states, ops, sha256, before, done, t);
        }
      }
    }
  }
}
