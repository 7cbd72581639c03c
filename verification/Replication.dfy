/** The replica fan-out: one goroutine per store and chunk, a bounded error channel, and a wait for all. */
module Replication {
  import opened Bytes
  import opened Domain

  datatype Task = Task(store: nat, path: Path, data: Blob)

  // ---------- the goroutines that are started ----------

  function StoreTasks(store: nat, file: nat, rows: seq<FileChunk>, data: seq<Blob>, n: nat): seq<Task>
    requires n <= |rows|
  {
    if n == 0 then []
    else StoreTasks(store, file, rows, data, n - 1)
         + (if n - 1 < |data| then [Task(store, ReplicaPath(file, rows[n - 1].chunkIndex), data[n - 1])] else [])
  }

  function AllTasks(replicas: nat, file: nat, rows: seq<FileChunk>, data: seq<Blob>): seq<Task> {
    if replicas == 0 then []
    else AllTasks(replicas - 1, file, rows, data) + StoreTasks(replicas - 1, file, rows, data, |rows|)
  }

  /** How many stores get a copy: none unless both the factor and the store count exceed one. */
  function Replicas(factor: int, stores: nat): nat {
    if factor <= 1 || stores <= 1 then 0 else Min(factor, stores)
  }

  method StartTasks(factor: int, stores: nat, file: nat, rows: seq<FileChunk>, data: seq<Blob>)
      returns (tasks: seq<Task>, capacity: nat)
    ensures tasks == AllTasks(Replicas(factor, stores), file, rows, data)
    ensures capacity == Replicas(factor, stores) * |rows|
    ensures factor <= 1 || stores <= 1 ==> tasks == [] && capacity == 0
    ensures factor >= 2 && stores >= 2 ==>
        forall task :: task in tasks <==> Aims(factor, stores, file, rows, data, task)
    ensures factor >= 2 && stores >= 2 ==>
        && |tasks| == (if factor <= stores then factor else stores) * Min(|rows|, |data|)
        && capacity == (if factor <= stores then factor else stores) * |rows|
  {
    if factor <= 1 || stores <= 1 {
      return [], 0;
    }
    var replicas := factor;
    if replicas > stores {
      replicas := stores;
    }
    capacity := replicas * |rows|;
    tasks := [];
    for r := 0 to replicas
      invariant tasks == AllTasks(r, file, rows, data)
    {
      var store := r % stores;
      SmallModulus(r, stores);
      ghost var before := tasks;
      for i := 0 to |rows|
        invariant tasks == before + StoreTasks(r, file, rows, data, i)
      {
        if i >= |data| {
          continue;
        }
        tasks := tasks + [Task(store, ReplicaPath(file, rows[i].chunkIndex), data[i])];
      }
    }
    AllTasksAim(replicas, file, rows, data);
    AllTasksCount(replicas, file, rows, data);
  }

  /** The task takes one of the chunks with data to one of the first `factor` stores. */
  ghost predicate Aims(factor: int, stores: nat, file: nat, rows: seq<FileChunk>, data: seq<Blob>, task: Task) {
    && task.store < factor && task.store < stores
    && exists i :: 0 <= i < |rows| && i < |data| && task.path == ReplicaPath(file, rows[i].chunkIndex) && task.data == data[i]
  }

  lemma {:induction false} AllTasksAim(replicas: nat, file: nat, rows: seq<FileChunk>, data: seq<Blob>)
    ensures forall task :: task in AllTasks(replicas, file, rows, data) <==> Aims(replicas, replicas, file, rows, data, task)
  {
    if replicas > 0 {
      var r := replicas - 1;
      AllTasksAim(r, file, rows, data);
      StoreTasksShape(r, file, rows, data, |rows|);
      forall task
        ensures task in StoreTasks(r, file, rows, data, |rows|)
           <==> task.store == r && Aims(replicas, replicas, file, rows, data, task)
      {
        if task.store == r && Aims(replicas, replicas, file, rows, data, task) {
          var i :| 0 <= i < |rows| && i < |data| && task.path == ReplicaPath(file, rows[i].chunkIndex)
                   && task.data == data[i];
          assert StoreTasks(r, file, rows, data, |rows|)[i] == task;
        }
      }
    }
  }

  lemma {:induction false} AllTasksCount(replicas: nat, file: nat, rows: seq<FileChunk>, data: seq<Blob>)
    ensures |AllTasks(replicas, file, rows, data)| == replicas * Min(|rows|, |data|)
  {
    if replicas > 0 {
      AllTasksCount(replicas - 1, file, rows, data);
      StoreTasksShape(replicas - 1, file, rows, data, |rows|);
      OneStoreMore(replicas - 1, Min(|rows|, |data|));
    }
  }

  lemma SmallModulus(r: nat, n: nat)
    requires r < n
    ensures r % n == r
  {
  }

  lemma {:induction false} StoreTasksShape(store: nat, file: nat, rows: seq<FileChunk>, data: seq<Blob>, n: nat)
    requires n <= |rows|
    ensures |StoreTasks(store, file, rows, data, n)| == Min(n, |data|)
    ensures forall i :: 0 <= i < Min(n, |data|) ==>
      StoreTasks(store, file, rows, data, n)[i] == Task(store, ReplicaPath(file, rows[i].chunkIndex), data[i])
  {
    if n > 0 {
      StoreTasksShape(store, file, rows, data, n - 1);
    }
  }

  predicate DistinctTargets(tasks: seq<Task>) {
    forall s, t :: 0 <= s < t < |tasks| ==> tasks[s].store != tasks[t].store || tasks[s].path != tasks[t].path
  }

  /** Targets on a new store meet none of the earlier ones. */
  lemma DistinctOnNextStore(before: seq<Task>, more: seq<Task>, store: nat)
    requires DistinctTargets(before) && DistinctTargets(more)
    requires forall t :: 0 <= t < |before| ==> before[t].store < store
    requires forall t :: 0 <= t < |more| ==> more[t].store == store
    ensures DistinctTargets(before + more)
    ensures forall t :: 0 <= t < |before + more| ==> (before + more)[t].store < store + 1
  {
  }

  lemma OneStoreMore(replicas: nat, n: nat)
    ensures (replicas + 1) * n == replicas * n + n
  {
  }

  /** Distinct chunk numbers give pairwise distinct targets, never more of them than the channel holds. */
  lemma {:induction false} TargetsAreDistinct(replicas: nat, file: nat, rows: seq<FileChunk>, data: seq<Blob>)
    requires forall i, j :: 0 <= i < j < |rows| ==> rows[i].chunkIndex != rows[j].chunkIndex
    ensures DistinctTargets(AllTasks(replicas, file, rows, data))
    ensures forall t :: 0 <= t < |AllTasks(replicas, file, rows, data)| ==>
      AllTasks(replicas, file, rows, data)[t].store < replicas
    ensures |AllTasks(replicas, file, rows, data)| <= replicas * |rows|
  {
    if replicas > 0 {
      TargetsAreDistinct(replicas - 1, file, rows, data);
      StoreTasksShape(replicas - 1, file, rows, data, |rows|);
      DistinctOnNextStore(AllTasks(replicas - 1, file, rows, data), StoreTasks(replicas - 1, file, rows, data, |rows|),
                          replicas - 1);
      OneStoreMore(replicas - 1, |rows|);
    }
  }

  // ---------- the fan-out as a transition system ----------

  datatype Progress = Running | Failing | Done

  /** `ok[t]` says whether the write of goroutine t succeeds. */
  datatype Setup = Setup(tasks: seq<Task>, capacity: nat, ok: seq<bool>)

  datatype Fan = Fan(stores: seq<map<Path, Blob>>, progress: seq<Progress>, channel: seq<nat>)

  predicate WellFormed(c: Setup, stores: nat) {
    && |c.ok| == |c.tasks| <= c.capacity
    && DistinctTargets(c.tasks)
    && forall t :: 0 <= t < |c.tasks| ==> c.tasks[t].store < stores
  }

  /** What `StartTasks` returns is a well-formed fan-out, whichever writes succeed. */
  lemma StartedIsWellFormed(factor: int, stores: nat, file: nat, rows: seq<FileChunk>, data: seq<Blob>, ok: seq<bool>)
    requires forall i, j :: 0 <= i < j < |rows| ==> rows[i].chunkIndex != rows[j].chunkIndex
    requires |ok| == |AllTasks(Replicas(factor, stores), file, rows, data)|
    ensures
      var tasks, capacity := AllTasks(Replicas(factor, stores), file, rows, data), Replicas(factor, stores) * |rows|;
      WellFormed(Setup(tasks, capacity, ok), stores)
  {
    TargetsAreDistinct(Replicas(factor, stores), file, rows, data);
  }

  predicate CanStep(c: Setup, s: Fan, t: nat)
    requires |s.progress| == |c.tasks|
  {
    t < |c.tasks| && (s.progress[t].Running? || (s.progress[t].Failing? && |s.channel| < c.capacity))
  }

  function Step(c: Setup, s: Fan, t: nat): Fan
    requires WellFormed(c, |s.stores|) && |s.progress| == |c.tasks| && CanStep(c, s, t)
  {
    var task := c.tasks[t];
    if s.progress[t].Failing? then s.(channel := s.channel + [t], progress := s.progress[t := Done])
    else if c.ok[t] then
      s.(stores := s.stores[task.store := s.stores[task.store][task.path := task.data]],
         progress := s.progress[t := Done])
    else s.(progress := s.progress[t := Failing])
  }

  /** A schedule is the order in which goroutines make their moves. */
  ghost predicate Schedule(c: Setup, states: seq<Fan>, moves: seq<nat>) {
    && |states| == |moves| + 1
    && |states[0].progress| == |c.tasks| && states[0].channel == []
    && (forall t :: 0 <= t < |c.tasks| ==> states[0].progress[t].Running?)
    && WellFormed(c, |states[0].stores|)
    && forall i :: 0 <= i < |moves| ==>
         && |states[i].progress| == |c.tasks| && |states[i].stores| == |states[0].stores|
         && CanStep(c, states[i], moves[i]) && states[i + 1] == Step(c, states[i], moves[i])
  }

  predicate Finished(s: Fan) {
    forall t :: 0 <= t < |s.progress| ==> s.progress[t].Done?
  }

  /** The error returned: the first one received, if any. */
  function Outcome(s: Fan): Option<nat> {
    if s.channel == [] then None else Some(s.channel[0])
  }

  // ---------- invariant ----------

  /** What a location must hold: the data of the finished successful write aimed at it, or what it held at first. */
  ghost predicate LocationOk(c: Setup, first: seq<map<Path, Blob>>, s: Fan, r: nat, p: Path)
    requires |first| == |s.stores| && |s.progress| == |c.tasks| == |c.ok| && r < |first|
  {
    && (forall t :: 0 <= t < |c.tasks| && s.progress[t].Done? && c.ok[t] && c.tasks[t].store == r && c.tasks[t].path == p ==>
          p in s.stores[r] && s.stores[r][p] == c.tasks[t].data)
    && ((forall t :: 0 <= t < |c.tasks| && s.progress[t].Done? && c.ok[t] && c.tasks[t].store == r ==> c.tasks[t].path != p) ==>
          (p in s.stores[r] <==> p in first[r]) && (p in first[r] ==> s.stores[r][p] == first[r][p]))
  }

  ghost predicate FanOk(c: Setup, first: seq<map<Path, Blob>>, s: Fan) {
    && |s.stores| == |first| && |s.progress| == |c.tasks| == |c.ok|
    && (forall t :: t in s.channel <==> 0 <= t < |c.tasks| && s.progress[t].Done? && !c.ok[t])
    && (forall i, j :: 0 <= i < j < |s.channel| ==> s.channel[i] != s.channel[j])
    && (forall t :: 0 <= t < |c.tasks| && s.progress[t].Failing? ==> !c.ok[t])
    && (forall r: nat, p: Path :: r < |first| ==> LocationOk(c, first, s, r, p))
  }

  lemma LocationStep(c: Setup, first: seq<map<Path, Blob>>, s: Fan, t: nat, r: nat, p: Path)
    requires WellFormed(c, |s.stores|) && |s.stores| == |first| && |s.progress| == |c.tasks| && CanStep(c, s, t)
    requires r < |first| && LocationOk(c, first, s, r, p) && (s.progress[t].Failing? ==> !c.ok[t])
    ensures LocationOk(c, first, Step(c, s, t), r, p)
  {
    var s' := Step(c, s, t);
    var task := c.tasks[t];
    if s.progress[t].Running? && c.ok[t] && task.store == r && task.path == p {
      assert forall u :: 0 <= u < |c.tasks| && c.tasks[u].store == r && c.tasks[u].path == p ==> u == t;
      assert s'.progress[t].Done?;
    } else {
      assert forall u :: 0 <= u < |c.tasks| && c.ok[u] && c.tasks[u].store == r && c.tasks[u].path == p ==>
          (s'.progress[u].Done? <==> s.progress[u].Done?);
      assert p in s'.stores[r] <==> p in s.stores[r];
      assert p in s.stores[r] ==> s'.stores[r][p] == s.stores[r][p];
    }
  }

  lemma StepKeepsFanOk(c: Setup, first: seq<map<Path, Blob>>, s: Fan, t: nat)
    requires WellFormed(c, |s.stores|) && FanOk(c, first, s) && CanStep(c, s, t)
    ensures FanOk(c, first, Step(c, s, t))
  {
    forall r: nat, p: Path | r < |first|
      ensures LocationOk(c, first, Step(c, s, t), r, p)
    {
      LocationStep(c, first, s, t, r, p);
    }
  }

  lemma StartIsOk(c: Setup, states: seq<Fan>, moves: seq<nat>)
    requires Schedule(c, states, moves)
    ensures FanOk(c, states[0].stores, states[0])
  {
  }

  lemma {:induction false} ScheduleKeepsOk(c: Setup, states: seq<Fan>, moves: seq<nat>, i: nat)
    requires Schedule(c, states, moves) && i <= |moves|
    ensures FanOk(c, states[0].stores, states[i])
  {
    if i == 0 {
      StartIsOk(c, states, moves);
    } else {
      ScheduleKeepsOk(c, states, moves, i - 1);
      StepKeepsFanOk(c, states[0].stores, states[i - 1], moves[i - 1]);
    }
  }

  // ---------- results ----------

  lemma {:induction false} ShortWithoutRepeats(xs: seq<nat>, n: nat)
    requires forall i :: 0 <= i < |xs| ==> xs[i] < n
    requires forall i, j :: 0 <= i < j < |xs| ==> xs[i] != xs[j]
    ensures |xs| <= n
  {
    if |xs| > 0 {
      assert 0 <= xs[0] < n;
    }
    if n > 0 && n - 1 in xs {
      var k :| 0 <= k < |xs| && xs[k] == n - 1;
      var rest := xs[..k] + xs[k + 1..];
      ShortWithoutRepeats(rest, n - 1);
    } else if n > 0 {
      ShortWithoutRepeats(xs, n - 1);
    }
  }

  /** A goroutine with an error to report always finds room in the channel. */
  lemma NoSendBlocks(c: Setup, states: seq<Fan>, moves: seq<nat>, i: nat, t: nat)
    requires Schedule(c, states, moves) && i <= |moves| && t < |c.tasks| == |states[i].progress|
    requires !states[i].progress[t].Done?
    ensures |states[i].channel| < c.capacity
    ensures CanStep(c, states[i], t)
  {
    ScheduleKeepsOk(c, states, moves, i);
    var s := states[i];
    var n := |c.tasks|;
    var extended := s.channel + [t];
    forall k | 0 <= k < |extended|
      ensures extended[k] < n
    {
      if k < |s.channel| {
        assert s.channel[k] in s.channel;
      }
    }
    forall k | 0 <= k < |s.channel|
      ensures s.channel[k] != t
    {
      assert s.channel[k] in s.channel;
    }
    ShortWithoutRepeats(extended, n);
  }

  /** Moves still to come: two for a goroutine that has not written, one for a pending send. */
  function Pending(progress: seq<Progress>): nat {
    if progress == [] then 0
    else Pending(progress[..|progress| - 1])
         + (match progress[|progress| - 1] case Running => 2 case Failing => 1 case Done => 0)
  }

  lemma {:induction false} PendingDrops(before: seq<Progress>, t: nat, now: Progress)
    requires t < |before| && !before[t].Done? && (now.Done? || (before[t].Running? && now.Failing?))
    ensures Pending(before[t := now]) < Pending(before)
  {
    var n := |before| - 1;
    var after := before[t := now];
    if t < n {
      assert after[..n] == before[..n][t := now];
      PendingDrops(before[..n], t, now);
    } else {
      assert after[..n] == before[..n];
    }
  }

  lemma {:induction false} PendingAtMost(progress: seq<Progress>)
    ensures Pending(progress) <= 2 * |progress|
  {
    if progress != [] {
      PendingAtMost(progress[..|progress| - 1]);
    }
  }

  lemma {:induction false} MovesUseUpPending(c: Setup, states: seq<Fan>, moves: seq<nat>, i: nat)
    requires Schedule(c, states, moves) && i <= |moves|
    ensures |states[i].progress| == |c.tasks|
    ensures i + Pending(states[i].progress) <= 2 * |c.tasks|
  {
    if i == 0 {
      PendingAtMost(states[0].progress);
    } else {
      MovesUseUpPending(c, states, moves, i - 1);
      var s, t := states[i - 1], moves[i - 1];
      assert CanStep(c, s, t) && states[i] == Step(c, s, t);
      PendingDrops(s.progress, t, states[i].progress[t]);
      assert states[i].progress == s.progress[t := states[i].progress[t]];
    }
  }

  /** The wait returns: no schedule is longer than two moves a goroutine, and one that cannot go on has finished. */
  lemma WaitReturns(c: Setup, states: seq<Fan>, moves: seq<nat>)
    requires Schedule(c, states, moves)
    ensures |moves| <= 2 * |c.tasks| && |states[|moves|].progress| == |c.tasks|
    ensures (forall t: nat :: !CanStep(c, states[|moves|], t)) ==> Finished(states[|moves|])
  {
    MovesUseUpPending(c, states, moves, |moves|);
    var s := states[|moves|];
    forall t | 0 <= t < |s.progress| && !s.progress[t].Done?
      ensures CanStep(c, s, t)
    {
      NoSendBlocks(c, states, moves, |moves|, t);
    }
  }

  /** Once all goroutines are done, no error is returned if and only if every write succeeded. */
  lemma NilExactlyWhenAllSucceed(c: Setup, states: seq<Fan>, moves: seq<nat>, i: nat)
    requires Schedule(c, states, moves) && i <= |moves| && Finished(states[i])
    ensures Outcome(states[i]) == None <==> forall t :: 0 <= t < |c.ok| ==> c.ok[t]
    ensures Outcome(states[i]).Some? ==>
      Outcome(states[i]).value < |c.ok| && !c.ok[Outcome(states[i]).value]
  {
    ScheduleKeepsOk(c, states, moves, i);
    var s := states[i];
    if s.channel != [] {
      assert s.channel[0] in s.channel;
    } else {
      assert forall t :: 0 <= t < |c.ok| ==> (t in s.channel <==> !c.ok[t]);
    }
  }

  /** The error returned is the first one sent: later ones do not change it. */
  lemma {:induction false} FirstErrorStays(c: Setup, states: seq<Fan>, moves: seq<nat>, i: nat, j: nat)
    requires Schedule(c, states, moves) && i <= j <= |moves| && states[i].channel != []
    ensures Outcome(states[j]) == Some(states[i].channel[0])
    ensures states[i].channel <= states[j].channel
  {
    if i < j {
      FirstErrorStays(c, states, moves, i, j - 1);
    }
  }

  /** Every complete schedule with the same write outcomes leaves the same stores. */
  lemma FinalStoresAgree(c: Setup, states: seq<Fan>, moves: seq<nat>, states': seq<Fan>, moves': seq<nat>)
    requires Schedule(c, states, moves) && Schedule(c, states', moves')
    requires states[0].stores == states'[0].stores
    requires Finished(states[|moves|]) && Finished(states'[|moves'|])
    ensures states[|moves|].stores == states'[|moves'|].stores
  {
    ScheduleKeepsOk(c, states, moves, |moves|);
    ScheduleKeepsOk(c, states', moves', |moves'|);
    var first, s, s' := states[0].stores, states[|moves|], states'[|moves'|];
    forall r: nat | r < |first|
      ensures s.stores[r] == s'.stores[r]
    {
      forall p: Path
        ensures p in s.stores[r] <==> p in s'.stores[r]
        ensures p in s.stores[r] ==> s.stores[r][p] == s'.stores[r][p]
      {
        assert LocationOk(c, first, s, r, p) && LocationOk(c, first, s', r, p);
        SameLocation(c, first, s, s', r, p);
      }
      assert s.stores[r].Keys == s'.stores[r].Keys;
    }
  }

  /** A nil result means that each of the first `factor` stores holds every chunk that came with data. */
  lemma NilMeansReplicated(factor: int, file: nat, rows: seq<FileChunk>, data: seq<Blob>, c: Setup,
                           states: seq<Fan>, moves: seq<nat>, r: nat, i: nat)
    requires forall k, l :: 0 <= k < l < |rows| ==> rows[k].chunkIndex != rows[l].chunkIndex
    requires Schedule(c, states, moves) && Finished(states[|moves|]) && Outcome(states[|moves|]) == None
    requires c.tasks == AllTasks(Replicas(factor, |states[0].stores|), file, rows, data)
    requires factor >= 2 && |states[0].stores| >= 2
    requires r < factor && r < |states[0].stores| && i < |rows| && i < |data|
    ensures |states[|moves|].stores| == |states[0].stores|
    ensures ReplicaPath(file, rows[i].chunkIndex) in states[|moves|].stores[r]
    ensures states[|moves|].stores[r][ReplicaPath(file, rows[i].chunkIndex)] == data[i]
  {
    var p := ReplicaPath(file, rows[i].chunkIndex);
    var t := TaskPosition(Replicas(factor, |states[0].stores|), file, rows, data, r, i);
    ScheduleKeepsOk(c, states, moves, |moves|);
    NilExactlyWhenAllSucceed(c, states, moves, |moves|);
    assert LocationOk(c, states[0].stores, states[|moves|], r, p);
    assert c.ok[t] && states[|moves|].progress[t].Done?;
  }

  /** Where in the list the goroutine for store r and chunk i stands. */
  lemma {:induction false} TaskPosition(replicas: nat, file: nat, rows: seq<FileChunk>, data: seq<Blob>, r: nat, i: nat)
      returns (t: nat)
    requires r < replicas && i < |rows| && i < |data|
    ensures t < |AllTasks(replicas, file, rows, data)|
    ensures AllTasks(replicas, file, rows, data)[t] == Task(r, ReplicaPath(file, rows[i].chunkIndex), data[i])
  {
    if r < replicas - 1 {
      t := TaskPosition(replicas - 1, file, rows, data, r, i);
    } else {
      StoreTasksShape(r, file, rows, data, |rows|);
      t := |AllTasks(replicas - 1, file, rows, data)| + i;
    }
  }

  /** What no goroutine aims at stays as it was: a failed or absent write leaves its location untouched. */
  lemma OthersUntouched(c: Setup, states: seq<Fan>, moves: seq<nat>, i: nat, r: nat, p: Path)
    requires Schedule(c, states, moves) && i <= |moves| && r < |states[0].stores|
    requires forall t :: 0 <= t < |c.tasks| && c.ok[t] && c.tasks[t].store == r ==> c.tasks[t].path != p
    ensures |states[i].stores| == |states[0].stores|
    ensures p in states[i].stores[r] <==> p in states[0].stores[r]
    ensures p in states[0].stores[r] ==> states[i].stores[r][p] == states[0].stores[r][p]
  {
    ScheduleKeepsOk(c, states, moves, i);
    assert LocationOk(c, states[0].stores, states[i], r, p);
  }

  /** Stores from `factor` on are untouched, and all stores are when the factor or the store count is at most one. */
  lemma OtherStoresUntouched(factor: int, file: nat, rows: seq<FileChunk>, data: seq<Blob>, c: Setup,
                             states: seq<Fan>, moves: seq<nat>, i: nat, r: nat)
    requires Schedule(c, states, moves) && i <= |moves| && r < |states[0].stores|
    requires c.tasks == AllTasks(Replicas(factor, |states[0].stores|), file, rows, data)
    requires r >= factor || factor <= 1 || |states[0].stores| <= 1
    ensures |states[i].stores| == |states[0].stores| && states[i].stores[r] == states[0].stores[r]
  {
    AllTasksAim(Replicas(factor, |states[0].stores|), file, rows, data);
    forall t | 0 <= t < |c.tasks|
      ensures c.tasks[t].store != r
    {
      assert c.tasks[t] in c.tasks;
    }
    ScheduleKeepsOk(c, states, moves, i);
    forall p: Path
      ensures p in states[i].stores[r] <==> p in states[0].stores[r]
      ensures p in states[0].stores[r] ==> states[i].stores[r][p] == states[0].stores[r][p]
    {
      OthersUntouched(c, states, moves, i, r, p);
    }
    assert states[i].stores[r].Keys == states[0].stores[r].Keys;
  }

  lemma SameLocation(c: Setup, first: seq<map<Path, Blob>>, s: Fan, s': Fan, r: nat, p: Path)
    requires |first| == |s.stores| == |s'.stores| && |s.progress| == |s'.progress| == |c.tasks| == |c.ok| && r < |first|
    requires Finished(s) && Finished(s') && LocationOk(c, first, s, r, p) && LocationOk(c, first, s', r, p)
    ensures p in s.stores[r] <==> p in s'.stores[r]
    ensures p in s.stores[r] ==> s.stores[r][p] == s'.stores[r][p]
  {
    if t :| 0 <= t < |c.tasks| && c.ok[t] && c.tasks[t].store == r && c.tasks[t].path == p {
      assert s.progress[t].Done? && s'.progress[t].Done?;
    }
  }
}
