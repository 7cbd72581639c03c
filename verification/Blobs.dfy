/** The disk beside the tables: a put stores its blobs before its row, a delete erases them before marking the row. */
module Blobs {
  import opened Domain
  import opened Store
  import opened Interleaving
  import opened Quota

  /** What a job has done to blobs and chunk rows; kept when it is finished. */
  datatype Track =
    | Idle
    | Storing(written: nat)
    | Recording(file: nat, recorded: nat)
    | Erasing(file: nat, listed: Option<nat>, erased: nat)

  /** A path contains an identifier made afresh by each put: the number of its job. */
  datatype BlobId = BlobId(put: nat, chunk: nat)

  /** `owners` says of each row which put inserted it. */
  datatype Full = Full(tables: System, tracks: seq<Track>, owners: seq<nat>, disk: set<BlobId>)

  // ---------- steps ----------

  /** A statement on the tables of buckets and files, or a job's next statement on blobs or chunk rows. */
  datatype Move = Table(action: Action) | Touch(j: nat)

  /** How many chunk rows of the file have been recorded. */
  function RecordedOf(s: Full, f: nat): nat {
    if f < |s.owners| && s.owners[f] < |s.tracks| && s.tracks[s.owners[f]].Recording?
    then s.tracks[s.owners[f]].recorded else 0
  }

  /** A row is inserted after all blobs, counted after all chunk rows, and marked after all listed blobs were erased. */
  predicate Ready(s: Full, j: nat)
    requires j < |s.tables.jobs| == |s.tracks|
  {
    match s.tables.jobs[j]
    case PutRead(_, row, _) => s.tracks[j] == Storing(row.chunkCount)
    case PutInserted(_, _, _) =>
      var track := s.tracks[j];
      track.Recording? && track.file < |s.tables.files| && track.recorded == s.tables.files[track.file].chunkCount
    case DeleteFound(_, _, _, _) => s.tracks[j].Erasing? && s.tracks[j].listed == Some(s.tracks[j].erased)
    case _ => true
  }

  predicate CanTouch(s: Full, j: nat) {
    && j < |s.tables.jobs| == |s.tracks|
    && match s.tracks[j]
       case Storing(written) => s.tables.jobs[j].PutRead? && written < s.tables.jobs[j].row.chunkCount
       case Recording(f, recorded) =>
         s.tables.jobs[j].PutInserted? && f < |s.tables.files| && recorded < s.tables.files[f].chunkCount
       case Erasing(f, None, _) => s.tables.jobs[j].DeleteFound?
       case Erasing(f, Some(listed), erased) => s.tables.jobs[j].DeleteFound? && f < |s.owners| && erased < listed
       case Idle => false
  }

  ghost predicate CanMove(s: Full, move: Move) {
    match move
    case Table(a) =>
      CanDo(s.tables, a) && |s.tables.jobs| == |s.tracks| && (a.Advance? ==> Ready(s, a.j))
    case Touch(j) => CanTouch(s, j)
  }

  function TouchDone(s: Full, j: nat): Full
    requires CanTouch(s, j)
  {
    match s.tracks[j]
    case Storing(written) => s.(tracks := s.tracks[j := Storing(written + 1)], disk := s.disk + {BlobId(j, written)})
    case Recording(f, recorded) => s.(tracks := s.tracks[j := Recording(f, recorded + 1)])
    case Erasing(f, None, erased) => s.(tracks := s.tracks[j := Erasing(f, Some(RecordedOf(s, f)), erased)])
    case Erasing(f, Some(listed), erased) =>
      s.(tracks := s.tracks[j := Erasing(f, Some(listed), erased + 1)], disk := s.disk - {BlobId(s.owners[f], erased)})
  }

  ghost function TableDone(s: Full, a: Action): Full
    requires CanMove(s, Table(a))
  {
    var tables := Do(s.tables, a);
    match a
    case Spawn(job) => s.(tables := tables, tracks := s.tracks + [if job.PutStart? then Storing(0) else Idle])
    case Advance(j) =>
      if s.tables.jobs[j].PutRead?
      then s.(tables := tables, tracks := s.tracks[j := Recording(|s.tables.files|, 0)], owners := s.owners + [j])
      else s.(tables := tables)
    case Find(j, f) => s.(tables := tables, tracks := s.tracks[j := Erasing(f, None, 0)])
    case List(_, _) => s.(tables := tables)
  }

  ghost function Moved(s: Full, move: Move): Full
    requires CanMove(s, move)
  {
    match move
    case Table(a) => TableDone(s, a)
    case Touch(j) => TouchDone(s, j)
  }

  ghost predicate FullRun(states: seq<Full>, moves: seq<Move>) {
    && |states| == |moves| + 1
    && Start(states[0].tables) && states[0].tracks == [] && states[0].owners == [] && states[0].disk == {}
    && forall i :: 0 <= i < |moves| ==> CanMove(states[i], moves[i]) && states[i + 1] == Moved(states[i], moves[i])
  }

  lemma AnyMove(states: seq<Full>, moves: seq<Move>, i: nat)
    requires FullRun(states, moves) && i < |moves|
    ensures CanMove(states[i], moves[i]) && states[i + 1] == Moved(states[i], moves[i])
  {
  }

  // ---------- how far each job has come ----------

  predicate TrackOk(s: Full, i: nat)
    requires i < |s.tables.jobs| == |s.tracks| && |s.owners| == |s.tables.files|
  {
    var job, files := s.tables.jobs[i], s.tables.files;
    match s.tracks[i]
    case Idle => !job.PutStart? && !job.PutRead? && !job.PutInserted? && !job.DeleteFound?
    case Storing(written) =>
      || (job.PutRead? && written <= job.row.chunkCount)
      || ((job.PutStart? || job.Finished?) && written == 0)
    case Recording(f, recorded) =>
      && f < |files| && s.owners[f] == i && recorded <= files[f].chunkCount
      && (job.PutInserted? || (job.Finished? && recorded == files[f].chunkCount))
    case Erasing(f, listed, erased) =>
      && f < |files| && (if listed.Some? then erased <= listed.value <= RecordedOf(s, f) else erased == 0)
      && if job.DeleteFound? then job.file == f
         else (job.DeleteRemoved? || job.DeleteRead? || job.Finished?) && listed == Some(erased) && !files[f].Live()
  }

  /** Each row's put is recording its chunk rows, or has recorded them all. */
  predicate OwnerOk(s: Full, f: nat)
    requires f < |s.owners|
  {
    s.owners[f] < |s.tracks| && s.tracks[s.owners[f]].Recording? && s.tracks[s.owners[f]].file == f
  }

  predicate Tidy(s: Full) {
    && |s.tables.jobs| == |s.tracks| && |s.owners| == |s.tables.files|
    && (forall f :: 0 <= f < |s.owners| ==> OwnerOk(s, f))
    && (forall i :: 0 <= i < |s.tracks| ==> TrackOk(s, i))
  }

  /** Rows keep their chunk count, chunk rows are only added, and rows do not come back. */
  predicate Onwards(s: Full, s': Full) {
    && |s.tables.files| <= |s'.tables.files|
    && (forall f :: 0 <= f < |s.tables.files| ==>
          && s'.tables.files[f].chunkCount == s.tables.files[f].chunkCount
          && (s'.tables.files[f].Live() ==> s.tables.files[f].Live()))
    && |s.owners| <= |s'.owners| && s'.owners[..|s.owners|] == s.owners
    && forall f: nat :: f < |s.owners| ==> RecordedOf(s, f) <= RecordedOf(s', f)
  }

  lemma TouchGoesOn(s: Full, j: nat)
    requires Tidy(s) && CanTouch(s, j)
    ensures Onwards(s, TouchDone(s, j)) && |TouchDone(s, j).owners| == |TouchDone(s, j).tables.files|
    ensures forall f :: 0 <= f < |s.owners| ==> OwnerOk(TouchDone(s, j), f)
  {
    var s' := TouchDone(s, j);
    assert TrackOk(s, j);
    forall f: nat | f < |s.owners|
      ensures RecordedOf(s, f) <= RecordedOf(s', f) && OwnerOk(s', f)
    {
      assert OwnerOk(s, f);
    }
  }

  lemma TableGoesOn(s: Full, a: Action)
    requires Tidy(s) && CanMove(s, Table(a))
    ensures Onwards(s, TableDone(s, a))
  {
    var s' := TableDone(s, a);
    forall f: nat | f < |s.owners|
      ensures RecordedOf(s, f) <= RecordedOf(s', f)
    {
      assert OwnerOk(s, f) && TrackOk(s, s.owners[f]);
    }
  }

  lemma TableKeepsOwners(s: Full, a: Action)
    requires Tidy(s) && CanMove(s, Table(a))
    ensures |TableDone(s, a).owners| == |TableDone(s, a).tables.files|
    ensures forall f :: 0 <= f < |TableDone(s, a).owners| ==> OwnerOk(TableDone(s, a), f)
  {
    var s' := TableDone(s, a);
    forall f: nat | f < |s'.owners|
      ensures OwnerOk(s', f)
    {
      if f < |s.owners| {
        assert OwnerOk(s, f) && TrackOk(s, s.owners[f]);
      }
    }
  }

  lemma OtherTrackOk(s: Full, s': Full, i: nat)
    requires Tidy(s) && Onwards(s, s') && i < |s.tracks|
    requires i < |s'.tracks| == |s'.tables.jobs| && |s'.owners| == |s'.tables.files|
    requires s'.tracks[i] == s.tracks[i] && s'.tables.jobs[i] == s.tables.jobs[i]
    ensures TrackOk(s', i)
  {
    assert TrackOk(s, i);
    if s.tracks[i].Recording? {
      assert s'.owners[..|s.owners|][s.tracks[i].file] == s.owners[s.tracks[i].file];
    }
  }

  lemma TouchedTrackOk(s: Full, j: nat)
    requires Tidy(s) && CanTouch(s, j)
    ensures TrackOk(TouchDone(s, j), j)
  {
    assert TrackOk(s, j);
    TouchGoesOn(s, j);
  }

  lemma AdvancedTrackOk(s: Full, j: nat)
    requires Tidy(s) && CanMove(s, Table(Advance(j)))
    ensures |TableDone(s, Advance(j)).owners| == |TableDone(s, Advance(j)).tables.files|
    ensures TrackOk(TableDone(s, Advance(j)), j)
  {
    assert TrackOk(s, j);
    TableKeepsOwners(s, Advance(j));
    TableGoesOn(s, Advance(j));
  }

  lemma IdleTrackOk(s: Full, a: Action, i: nat)
    requires Tidy(s) && CanMove(s, Table(a)) && !a.Advance?
    requires i < |TableDone(s, a).tracks| && (a.Spawn? ==> i == |s.tracks|) && (!a.Spawn? ==> i == a.j)
    ensures |TableDone(s, a).tracks| == |TableDone(s, a).tables.jobs|
    ensures |TableDone(s, a).owners| == |TableDone(s, a).tables.files|
    ensures TrackOk(TableDone(s, a), i)
  {
    if i < |s.tracks| {
      assert TrackOk(s, i);
    }
  }

  lemma TrackStaysOk(s: Full, move: Move, i: nat)
    requires Tidy(s) && CanMove(s, move) && i < |Moved(s, move).tracks| == |Moved(s, move).tables.jobs|
    requires Onwards(s, Moved(s, move)) && |Moved(s, move).owners| == |Moved(s, move).tables.files|
    ensures TrackOk(Moved(s, move), i)
  {
    if move.Touch? && i == move.j {
      TouchedTrackOk(s, i);
    } else if move.Table? && move.action.Advance? && i == move.action.j {
      AdvancedTrackOk(s, i);
    } else if move.Table? && (if move.action.Spawn? then i == |s.tracks| else i == move.action.j) {
      IdleTrackOk(s, move.action, i);
    } else {
      OtherTrackOk(s, Moved(s, move), i);
    }
  }

  lemma MoveStaysTidy(s: Full, move: Move)
    requires Tidy(s) && CanMove(s, move)
    ensures Tidy(Moved(s, move)) && Onwards(s, Moved(s, move))
  {
    match move {
      case Touch(j) => TouchGoesOn(s, j);
      case Table(a) => TableGoesOn(s, a); TableKeepsOwners(s, a);
    }
    forall i | 0 <= i < |Moved(s, move).tracks|
      ensures TrackOk(Moved(s, move), i)
    {
      TrackStaysOk(s, move, i);
    }
  }

  // ---------- what is on disk ----------

  /** Some delete of the file, in progress or done, has erased this chunk. */
  ghost predicate ErasedPast(s: Full, f: nat, t: nat) {
    exists i: nat :: Erased(s, i, f, t)
  }

  predicate Erased(s: Full, i: nat, f: nat, t: nat) {
    i < |s.tracks| && s.tracks[i].Erasing? && s.tracks[i].file == f && t < s.tracks[i].erased
  }

  ghost predicate Stored(s: Full, i: nat, t: nat) {
    && i < |s.tracks|
    && match s.tracks[i]
       case Storing(written) => t < written
       case Recording(f, _) => f < |s.tables.files| && t < s.tables.files[f].chunkCount && !ErasedPast(s, f, t)
       case _ => false
  }

  /** The disk holds exactly what puts have stored and deletes have not erased. */
  ghost predicate DiskExact(s: Full) {
    forall i: nat, t: nat :: BlobId(i, t) in s.disk <==> Stored(s, i, t)
  }

  lemma SameErased(s: Full, s': Full, f: nat, t: nat)
    requires forall i: nat :: Erased(s, i, f, t) <==> Erased(s', i, f, t)
    ensures ErasedPast(s, f, t) <==> ErasedPast(s', f, t)
  {
  }

  lemma StoreKeepsDisk(s: Full, j: nat)
    requires Tidy(s) && DiskExact(s) && CanTouch(s, j) && !(s.tracks[j].Erasing? && s.tracks[j].listed.Some?)
    ensures DiskExact(TouchDone(s, j))
  {
    var s' := TouchDone(s, j);
    forall i: nat, t: nat
      ensures BlobId(i, t) in s'.disk <==> Stored(s', i, t)
    {
      assert BlobId(i, t) in s.disk <==> Stored(s, i, t);
      if i < |s.tracks| && s.tracks[i].Recording? {
        SameErased(s, s', s.tracks[i].file, t);
      }
    }
  }

  /** One more chunk is erased, of this file only. */
  lemma EraseErases(s: Full, j: nat, f: nat, t: nat)
    requires CanTouch(s, j) && s.tracks[j].Erasing? && s.tracks[j].listed.Some?
    ensures ErasedPast(TouchDone(s, j), f, t)
       <==> ErasedPast(s, f, t) || (f == s.tracks[j].file && t == s.tracks[j].erased)
  {
    var s' := TouchDone(s, j);
    forall i: nat
      ensures Erased(s', i, f, t)
         <==> Erased(s, i, f, t) || (i == j && f == s.tracks[j].file && t == s.tracks[j].erased)
    {
    }
    if f == s.tracks[j].file && t == s.tracks[j].erased {
      assert Erased(s', j, f, t);
    }
  }

  lemma EraseKeepsDisk(s: Full, j: nat)
    requires Tidy(s) && DiskExact(s) && CanTouch(s, j) && s.tracks[j].Erasing? && s.tracks[j].listed.Some?
    ensures DiskExact(TouchDone(s, j))
  {
    var s' := TouchDone(s, j);
    assert TrackOk(s, j) && OwnerOk(s, s.tracks[j].file);
    forall i: nat, t: nat
      ensures BlobId(i, t) in s'.disk <==> Stored(s', i, t)
    {
      assert BlobId(i, t) in s.disk <==> Stored(s, i, t);
      if i < |s.tracks| && s.tracks[i].Recording? {
        assert TrackOk(s, i);
        EraseErases(s, j, s.tracks[i].file, t);
      }
    }
  }

  lemma TableErasesNothing(s: Full, a: Action, f: nat, t: nat)
    requires Tidy(s) && CanMove(s, Table(a))
    ensures ErasedPast(TableDone(s, a), f, t) <==> ErasedPast(s, f, t)
  {
    var s' := TableDone(s, a);
    forall i: nat
      ensures Erased(s, i, f, t) <==> Erased(s', i, f, t)
    {
      if i < |s.tracks| {
        assert TrackOk(s, i);
      }
    }
    SameErased(s, s', f, t);
  }

  lemma NothingErasedYet(s: Full, t: nat)
    requires Tidy(s)
    ensures !ErasedPast(s, |s.tables.files|, t)
  {
    forall i: nat
      ensures !Erased(s, i, |s.tables.files|, t)
    {
      if i < |s.tracks| {
        assert TrackOk(s, i);
      }
    }
  }

  lemma TableKeepsStored(s: Full, a: Action, i: nat, t: nat)
    requires Tidy(s) && CanMove(s, Table(a))
    ensures Stored(TableDone(s, a), i, t) <==> Stored(s, i, t)
  {
    var s' := TableDone(s, a);
    TableGoesOn(s, a);
    if i < |s.tracks| {
      assert TrackOk(s, i);
      if s.tracks[i].Recording? {
        TableErasesNothing(s, a, s.tracks[i].file, t);
      } else if s'.tracks[i].Recording? {
        NothingErasedYet(s, t);
        TableErasesNothing(s, a, |s.tables.files|, t);
      }
    }
  }

  lemma MoveKeepsDisk(s: Full, move: Move)
    requires Tidy(s) && DiskExact(s) && CanMove(s, move)
    ensures DiskExact(Moved(s, move))
  {
    match move
    case Touch(j) =>
      if s.tracks[j].Erasing? && s.tracks[j].listed.Some? {
        EraseKeepsDisk(s, j);
      } else {
        StoreKeepsDisk(s, j);
      }
    case Table(a) =>
      forall i: nat, t: nat
        ensures BlobId(i, t) in TableDone(s, a).disk <==> Stored(TableDone(s, a), i, t)
      {
        TableKeepsStored(s, a, i, t);
      }
  }

  /** Under every interleaving the disk holds exactly what puts have stored and deletes have not erased. */
  lemma {:induction false} DiskStaysExact(states: seq<Full>, moves: seq<Move>, i: nat)
    requires FullRun(states, moves) && i <= |moves|
    ensures Tidy(states[i]) && DiskExact(states[i])
  {
    if i > 0 {
      DiskStaysExact(states, moves, i - 1);
      AnyMove(states, moves, i - 1);
      MoveStaysTidy(states[i - 1], moves[i - 1]);
      MoveKeepsDisk(states[i - 1], moves[i - 1]);
    }
  }

  // ---------- what a read may miss ----------

  function BlobOf(s: Full, f: nat, t: nat): BlobId
    requires f < |s.owners|
  {
    BlobId(s.owners[f], t)
  }

  /** A delete in progress that has found the file. */
  predicate Deleting(s: Full, j: nat, f: nat) {
    j < |s.tables.jobs| == |s.tracks| && s.tables.jobs[j].DeleteFound? && s.tracks[j].Erasing? && s.tracks[j].file == f
  }

  /** A live row misses exactly the chunks that a delete in progress has erased. */
  lemma LiveMissesExactly(states: seq<Full>, moves: seq<Move>, i: nat, f: nat, t: nat)
    requires FullRun(states, moves) && i <= |moves|
    requires f < |states[i].tables.files| == |states[i].owners| && t < states[i].tables.files[f].chunkCount
    requires states[i].tables.files[f].Live()
    ensures
      var s := states[i];
      BlobOf(s, f, t) !in s.disk <==> exists j: nat :: Deleting(s, j, f) && t < s.tracks[j].erased
  {
    var s := states[i];
    DiskStaysExact(states, moves, i);
    assert OwnerOk(s, f) && TrackOk(s, s.owners[f]);
    assert BlobOf(s, f, t) !in s.disk <==> ErasedPast(s, f, t);
    forall j: nat
      ensures Erased(s, j, f, t) <==> Deleting(s, j, f) && t < s.tracks[j].erased
    {
      if j < |s.tracks| {
        assert TrackOk(s, j);
      }
    }
  }

  /** All chunk rows are recorded and all their blobs on disk. */
  predicate Whole(s: Full, f: nat)
    requires f < |s.tables.files| == |s.owners|
  {
    && RecordedOf(s, f) == s.tables.files[f].chunkCount
    && forall t: nat :: t < s.tables.files[f].chunkCount ==> BlobOf(s, f, t) in s.disk
  }

  /**
   * A live object can be read whole if and only if its put has recorded its chunk rows and no delete in progress has
   * erased a blob of it.
   */
  lemma WholeExactly(states: seq<Full>, moves: seq<Move>, i: nat, f: nat)
    requires FullRun(states, moves) && i <= |moves| && f < |states[i].tables.files| == |states[i].owners|
    requires states[i].tables.files[f].Live()
    ensures
      var s := states[i];
      && (Whole(s, f)
          <==> && RecordedOf(s, f) == s.tables.files[f].chunkCount
               && forall j: nat :: Deleting(s, j, f) ==> s.tracks[j].erased == 0)
  {
    var s := states[i];
    DiskStaysExact(states, moves, i);
    assert OwnerOk(s, f) && TrackOk(s, s.owners[f]);
    forall t: nat | t < s.tables.files[f].chunkCount
      ensures BlobOf(s, f, t) in s.disk <==> forall j: nat :: Deleting(s, j, f) ==> s.tracks[j].erased <= t
    {
      LiveMissesExactly(states, moves, i, f, t);
    }
    forall j: nat | Deleting(s, j, f) && s.tracks[j].erased > 0
      ensures !Whole(s, f)
    {
      assert TrackOk(s, j);
      assert BlobOf(s, f, 0) !in s.disk;
    }
  }

  /** An object nobody is putting or deleting can be read whole. */
  lemma UndisturbedIsWhole(states: seq<Full>, moves: seq<Move>, i: nat, f: nat)
    requires FullRun(states, moves) && i <= |moves| && f < |states[i].tables.files| == |states[i].owners|
    requires states[i].tables.files[f].Live() && states[i].owners[f] < |states[i].tables.jobs|
    requires !states[i].tables.jobs[states[i].owners[f]].PutInserted?
    requires forall j: nat :: !Deleting(states[i], j, f)
    ensures Whole(states[i], f)
  {
    var s := states[i];
    DiskStaysExact(states, moves, i);
    assert OwnerOk(s, f) && TrackOk(s, s.owners[f]);
    WholeExactly(states, moves, i, f);
  }

  // ---------- what is left behind ----------

  /** Nothing is left of a file if and only if one delete has erased all of it. */
  lemma NothingLeftExactly(states: seq<Full>, moves: seq<Move>, i: nat, f: nat)
    requires FullRun(states, moves) && i <= |moves| && f < |states[i].tables.files| == |states[i].owners|
    requires states[i].tables.files[f].chunkCount > 0
    ensures
      var s, n := states[i], states[i].tables.files[f].chunkCount;
      (forall t: nat :: BlobOf(s, f, t) !in s.disk)
        <==> exists j: nat :: j < |s.tracks| && s.tracks[j] == Erasing(f, Some(n), n)
  {
    var s, n := states[i], states[i].tables.files[f].chunkCount;
    DiskStaysExact(states, moves, i);
    assert OwnerOk(s, f) && TrackOk(s, s.owners[f]);
    forall t: nat
      ensures BlobOf(s, f, t) in s.disk <==> t < n && !ErasedPast(s, f, t)
    {
    }
    if forall t: nat :: BlobOf(s, f, t) !in s.disk {
      assert BlobOf(s, f, n - 1) !in s.disk;
      var j: nat :| Erased(s, j, f, n - 1);
      assert TrackOk(s, j);
      assert s.tracks[j] == Erasing(f, Some(n), n);
    }
    if j: nat :| j < |s.tracks| && s.tracks[j] == Erasing(f, Some(n), n) {
      forall t: nat
        ensures BlobOf(s, f, t) !in s.disk
      {
        assert t < n ==> Erased(s, j, f, t);
      }
    }
  }

  /** The file's row is gone, no delete is working on it, and a blob of it is on disk. */
  ghost predicate Leftover(s: Full, f: nat, t: nat) {
    && f < |s.owners| == |s.tables.files| && !s.tables.files[f].Live() && BlobOf(s, f, t) in s.disk
    && forall j: nat :: !Deleting(s, j, f)
  }

  lemma BlobStays(s: Full, move: Move, f: nat, t: nat)
    requires Tidy(s) && CanMove(s, move) && Leftover(s, f, t)
    ensures BlobOf(s, f, t) in Moved(s, move).disk
  {
    if move.Touch? && s.tracks[move.j].Erasing? {
      assert TrackOk(s, move.j) && !Deleting(s, move.j, f);
      assert OwnerOk(s, f) && OwnerOk(s, s.tracks[move.j].file);
    }
  }

  lemma NobodyDeletes(s: Full, move: Move, f: nat, t: nat, j: nat)
    requires Tidy(s) && CanMove(s, move) && Leftover(s, f, t)
    ensures !Deleting(Moved(s, move), j, f)
  {
    assert !Deleting(s, j, f);
    if j < |s.tracks| {
      assert TrackOk(s, j);
    }
  }

  lemma LeftoverStays(s: Full, move: Move, f: nat, t: nat)
    requires Tidy(s) && CanMove(s, move) && Leftover(s, f, t)
    ensures Leftover(Moved(s, move), f, t)
  {
    var s' := Moved(s, move);
    MoveStaysTidy(s, move);
    assert s'.owners[..|s.owners|][f] == s.owners[f];
    BlobStays(s, move, f, t);
    forall j: nat
      ensures !Deleting(s', j, f)
    {
      NobodyDeletes(s, move, f, t, j);
    }
  }

  lemma LeftoverNext(states: seq<Full>, moves: seq<Move>, i: nat, f: nat, t: nat)
    requires FullRun(states, moves) && i < |moves| && Leftover(states[i], f, t)
    ensures Leftover(states[i + 1], f, t)
  {
    var s, move := states[i], moves[i];
    DiskStaysExact(states, moves, i);
    AnyMove(states, moves, i);
    LeftoverStays(s, move, f, t);
  }

  /** What is left once a file's row is gone, and no delete is working on it, stays on disk for good. */
  lemma {:induction false} LeftForGood(states: seq<Full>, moves: seq<Move>, i: nat, k: nat, f: nat, t: nat)
    requires FullRun(states, moves) && i <= k <= |moves| && Leftover(states[i], f, t)
    ensures Leftover(states[k], f, t)
  {
    if i < k {
      LeftForGood(states, moves, i, k - 1, f, t);
      LeftoverNext(states, moves, k - 1, f, t);
    }
  }

  /** A put has stored its one blob and inserted its row. */
  lemma OneStored() returns (states: seq<Full>, moves: seq<Move>)
    ensures FullRun(states, moves)
    ensures states[|moves|]
        == Full(System([EMPTY_ROW], [ONE_BYTE], [INSERTED], [SEEN]), [Recording(0, 0)], [0], {BlobId(0, 0)})
  {
    states, moves := [Full(System([EMPTY_ROW], [], [], []), [], [], {})], [];
    states, moves := FullStep(states, moves, Table(Spawn(START)));
    states, moves := FullStep(states, moves, Table(Advance(0)));
    assert states[|moves|] == Full(System([EMPTY_ROW], [], [READ], []), [Storing(0)], [], {});
    states, moves := FullStep(states, moves, Touch(0));
    assert states[|moves|] == Full(System([EMPTY_ROW], [], [READ], []), [Storing(1)], [], {BlobId(0, 0)});
    states, moves := FullStep(states, moves, Table(Advance(0)));
  }

  /** A run in which a delete lists a file's chunk rows before its put has recorded them, and leaves its blob behind. */
  lemma BlobLeftBehind() returns (states: seq<Full>, moves: seq<Move>)
    ensures FullRun(states, moves) && Leftover(states[|moves|], 0, 0)
  {
    states, moves := OneStored();
    var disk, owners := {BlobId(0, 0)}, [0];
    states, moves := FullStep(states, moves, Table(Spawn(DeleteStart(0, "k", 1))));
    var arrived := System([EMPTY_ROW], [ONE_BYTE], [INSERTED, DeleteStart(0, "k", 1)], [SEEN]);
    assert states[|moves|] == Full(arrived, [Recording(0, 0), Idle], owners, disk);
    states, moves := FullStep(states, moves, Table(Find(1, 0)));
    var found := System([EMPTY_ROW], [ONE_BYTE], [INSERTED, DeleteFound(0, 0, 1, 1)], [SEEN]);
    assert states[|moves|] == Full(found, [Recording(0, 0), Erasing(0, None, 0)], owners, disk);
    states, moves := FullStep(states, moves, Touch(1));
    assert states[|moves|] == Full(found, [Recording(0, 0), Erasing(0, Some(0), 0)], owners, disk);
    states, moves := FullStep(states, moves, Table(Advance(1)));
  }

  // ---------- the tables behave as they did ----------

  /** Without the blobs, a run is a run of the tables alone: what holds of all of those holds here. */
  lemma {:induction false} TablesRun(states: seq<Full>, moves: seq<Move>, i: nat)
      returns (tables: seq<System>, actions: seq<Action>)
    requires FullRun(states, moves) && i <= |moves|
    ensures Run(tables, actions) && tables[|actions|] == states[i].tables
  {
    if i == 0 {
      tables, actions := [states[0].tables], [];
    } else {
      tables, actions := TablesRun(states, moves, i - 1);
      AnyMove(states, moves, i - 1);
      if moves[i - 1].Table? {
        tables, actions := RunStep(tables, actions, moves[i - 1].action);
      }
    }
  }

  lemma FullStep(states: seq<Full>, moves: seq<Move>, move: Move) returns (states': seq<Full>, moves': seq<Move>)
    requires FullRun(states, moves) && CanMove(states[|moves|], move)
    ensures FullRun(states', moves') && states'[|moves'|] == Moved(states[|moves|], move)
  {
    states', moves' := states + [Moved(states[|moves|], move)], moves + [move];
  }

  /** How many statements on blobs and chunk rows the job has before its next statement on the tables. */
  function Pending(s: Full, j: nat): nat
    requires Tidy(s) && j < |s.tracks|
  {
    assert TrackOk(s, j);
    match s.tracks[j]
    case Storing(written) => if s.tables.jobs[j].PutRead? then s.tables.jobs[j].row.chunkCount - written else 0
    case Recording(f, recorded) => s.tables.files[f].chunkCount - recorded
    case Erasing(f, None, _) => RecordedOf(s, f) + 1
    case Erasing(f, Some(listed), erased) => listed - erased
    case Idle => 0
  }

  /** A job not ready for its next statement on the tables can get on with its blobs and chunk rows, and gets closer. */
  lemma TouchComesCloser(s: Full, j: nat)
    requires Tidy(s) && j < |s.tracks| && !Ready(s, j)
    ensures CanTouch(s, j) && Tidy(TouchDone(s, j)) && Pending(TouchDone(s, j), j) < Pending(s, j)
  {
    assert TrackOk(s, j);
    if s.tracks[j].Erasing? {
      assert OwnerOk(s, s.tracks[j].file);
    }
    MoveStaysTidy(s, Touch(j));
  }

  lemma {:induction false} CatchUp(states: seq<Full>, moves: seq<Move>, j: nat)
      returns (states': seq<Full>, moves': seq<Move>)
    requires FullRun(states, moves) && Tidy(states[|moves|]) && j < |states[|moves|].tracks|
    ensures FullRun(states', moves') && states'[|moves'|].tables == states[|moves|].tables
    ensures Tidy(states'[|moves'|]) && j < |states'[|moves'|].tracks| && Ready(states'[|moves'|], j)
    decreases Pending(states[|moves|], j)
  {
    states', moves' := states, moves;
    if !Ready(states[|moves|], j) {
      TouchComesCloser(states[|moves|], j);
      states', moves' := FullStep(states, moves, Touch(j));
      states', moves' := CatchUp(states', moves', j);
    }
  }

  /** Every run of the tables is what some run with blobs does to them. */
  lemma {:induction false} EveryRunHasBlobs(tables: seq<System>, actions: seq<Action>, i: nat)
      returns (states: seq<Full>, moves: seq<Move>)
    requires Run(tables, actions) && i <= |actions|
    ensures FullRun(states, moves) && states[|moves|].tables == tables[i]
  {
    if i == 0 {
      states, moves := [Full(tables[0], [], [], {})], [];
    } else {
      states, moves := EveryRunHasBlobs(tables, actions, i - 1);
      AnyStep(tables, actions, i - 1);
      DiskStaysExact(states, moves, |moves|);
      if actions[i - 1].Advance? {
        states, moves := CatchUp(states, moves, actions[i - 1].j);
      }
      states, moves := FullStep(states, moves, Table(actions[i - 1]));
    }
  }
}
