/** Uploads in parts, anywhere in a run, put together again. */
module Multipart {
  import opened Bytes
  import opened Domain
  import opened Chunking
  import opened Pipeline
  import opened Store
  import opened Invariants
  import opened Preservation
  import opened Views
  import opened Services

  /** The last bytes uploaded for a part number of an upload. */
  function LastUpload(ops: seq<Op>, upload: nat, number: int): Option<Blob> {
    if ops == [] then None
    else
      var n := |ops| - 1;
      if ops[n].UploadPart? && ops[n].upload == upload && ops[n].number == number then Some(ops[n].data)
      else LastUpload(ops[..n], upload, number)
  }

  /** The last upload of part number t+1 was piece t, for every piece. */
  predicate Uploaded(ops: seq<Op>, upload: nat, pieces: seq<Blob>) {
    forall t :: 0 <= t < |pieces| ==> LastUpload(ops, upload, t + 1) == Some(pieces[t])
  }

  predicate HasPart(disk: map<Path, Blob>, upload: nat, number: int, d: Blob) {
    PartPath(upload, number) in disk && disk[PartPath(upload, number)] == d
  }

  predicate SamePart(disk: map<Path, Blob>, disk': map<Path, Blob>, p: Path) {
    (p in disk' <==> p in disk) && (p in disk ==> disk'[p] == disk[p])
  }

  lemma PutKeepsParts(cfg: Config, s: State, bucket: nat, key: string, raw: Blob, ttl: Option<int>, now: nat, sha256: Hash,
                      p: Path)
    requires cfg.Valid() && PutError(cfg, s, bucket, raw).None? && p.PartPath?
    ensures SamePart(s.disk, AfterPut(cfg, s, bucket, key, raw, ttl, now, sha256).disk, p)
  {
    PutDisk(cfg, s.disk, bucket, |s.files|, raw, sha256);
  }

  lemma DeleteKeepsParts(cfg: Config, s: State, bucket: nat, key: string, now: nat, sha256: Hash, p: Path)
    requires cfg.Valid() && Inv(cfg, s, sha256) && Newest(s.files, bucket, key).Some? && p.PartPath?
    ensures SamePart(s.disk, AfterDelete(s, bucket, key, now).disk, p)
  {
    WrittenPaths(cfg, s, Newest(s.files, bucket, key).value, sha256);
  }

  lemma StepKeepsParts(cfg: Config, s: State, op: Op, sha256: Hash, upload: nat, number: int)
    requires cfg.Valid() && Allowed(s, op) && Inv(cfg, s, sha256)
    ensures
      var p, s' := PartPath(upload, number), Apply(cfg, s, op, sha256);
      if op.UploadPart? && op.upload == upload && op.number == number then p in s'.disk && s'.disk[p] == op.data
      else SamePart(s.disk, s'.disk, p)
  {
    var p := PartPath(upload, number);
    match op
    case Put(bucket, key, raw, ttl, now) =>
      if PutError(cfg, s, bucket, raw).None? {
        PutKeepsParts(cfg, s, bucket, key, raw, ttl, now, sha256, p);
      }
    case Complete(u, bucket, key, parts, now) =>
      var joined := JoinedParts(s.disk, u, parts);
      if joined.Some? && PutError(cfg, s, bucket, joined.value).None? {
        PutKeepsParts(cfg, s, bucket, key, joined.value, None, now, sha256, p);
      }
    case Delete(bucket, key, now) =>
      if Newest(s.files, bucket, key).Some? {
        DeleteKeepsParts(cfg, s, bucket, key, now, sha256, p);
      }
    case _ =>
  }

  /** In every run a part's bytes on disk are those of its last upload, whatever happened in between. */
  lemma {:induction false} PartIsLastUpload(cfg: Config, states: seq<State>, ops: seq<Op>, sha256: Hash, i: nat,
                                            upload: nat, number: int)
    requires cfg.Valid() && Run(cfg, states, ops, sha256) && i <= |ops|
    ensures
      var p := PartPath(upload, number);
      LastUpload(ops[..i], upload, number) == if p in states[i].disk then Some(states[i].disk[p]) else None
  {
    if i > 0 {
      PartIsLastUpload(cfg, states, ops, sha256, i - 1, upload, number);
      RunKeepsInv(cfg, states, ops, sha256, i - 1);
      StepKeepsParts(cfg, states[i - 1], ops[i - 1], sha256, upload, number);
      assert ops[..i][..i - 1] == ops[..i - 1];
    }
  }

  lemma {:induction false} JoinedIsConcat(disk: map<Path, Blob>, upload: nat, parts: seq<FilePart>, pieces: seq<Blob>)
    requires |parts| == |pieces|
    requires forall t :: 0 <= t < |parts| ==> HasPart(disk, upload, parts[t].partNumber, pieces[t])
    ensures JoinedParts(disk, upload, parts) == Some(Concat(pieces))
  {
    if parts != [] {
      var n := |parts| - 1;
      JoinedIsConcat(disk, upload, parts[..n], pieces[..n]);
    }
  }

  lemma JoinedParts1ToM(disk: map<Path, Blob>, upload: nat, pieces: seq<Blob>, sha256: Hash)
    requires forall t :: 0 <= t < |pieces| ==> HasPart(disk, upload, t + 1, pieces[t])
    ensures JoinedParts(disk, upload, PartsOf(pieces, sha256)) == Some(Concat(pieces))
  {
    var parts := PartsOf(pieces, sha256);
    forall t | 0 <= t < |parts|
      ensures HasPart(disk, upload, parts[t].partNumber, pieces[t])
    {
      assert parts[t].partNumber == t + 1;
    }
    JoinedIsConcat(disk, upload, parts, pieces);
  }

  lemma HasLastUpload(cfg: Config, states: seq<State>, ops: seq<Op>, sha256: Hash, i: nat, upload: nat,
                      pieces: seq<Blob>, t: nat)
    requires cfg.Valid() && Run(cfg, states, ops, sha256) && i <= |ops|
    requires t < |pieces| && LastUpload(ops[..i], upload, t + 1) == Some(pieces[t])
    ensures HasPart(states[i].disk, upload, t + 1, pieces[t])
  {
    PartIsLastUpload(cfg, states, ops, sha256, i, upload, t + 1);
  }

  /**
   * If at some point of a run the last upload of every part number of the split was that part, then completing
   * with the parts in order joins exactly the original data: any upload order, repeats and interleaving.
   */
  lemma CompletingGivesBackTheData(cfg: Config, states: seq<State>, ops: seq<Op>, sha256: Hash, i: nat, upload: nat,
                                   data: Blob, partSize: nat)
    requires cfg.Valid() && Run(cfg, states, ops, sha256) && i <= |ops| && partSize > 0
    requires Uploaded(ops[..i], upload, Pieces(data, partSize))
    ensures JoinedParts(states[i].disk, upload, PartsOf(Pieces(data, partSize), sha256)) == Some(data)
  {
    var disk, pieces := states[i].disk, Pieces(data, partSize);
    forall t: nat | t < |pieces|
      ensures HasPart(disk, upload, t + 1, pieces[t])
    {
      HasLastUpload(cfg, states, ops, sha256, i, upload, pieces, t);
    }
    JoinedParts1ToM(disk, upload, pieces, sha256);
    PiecesJoin(data, partSize);
  }

  lemma CompleteApplies(cfg: Config, s: State, upload: nat, bucket: nat, key: string, parts: seq<FilePart>, data: Blob,
                        now: nat, sha256: Hash)
    requires cfg.Valid() && now > s.clock && JoinedParts(s.disk, upload, parts) == Some(data)
    requires PutError(cfg, s, bucket, data).None?
    ensures Apply(cfg, s, Complete(upload, bucket, key, parts, now), sha256)
        == AfterPut(cfg, s, bucket, key, data, None, now, sha256)
  {
  }

  /** A completed upload that is accepted is then read back as a plain put of the data would be. */
  lemma CompletedUploadReadsBack(cfg: Config, states: seq<State>, ops: seq<Op>, sha256: Hash, i: nat, upload: nat,
                                 data: Blob, partSize: nat, bucket: nat, key: string, now: nat, later: nat)
    requires cfg.Valid() && Run(cfg, states, ops, sha256) && i <= |ops| && partSize > 0
    requires Uploaded(ops[..i], upload, Pieces(data, partSize))
    requires now > states[i].clock && data != [] && PutError(cfg, states[i], bucket, data).None?
    ensures
      var complete := Complete(upload, bucket, key, PartsOf(Pieces(data, partSize), sha256), now);
      GetResult(cfg, Apply(cfg, states[i], complete, sha256), bucket, key, None, later)
        == Ok((|states[i].files|, Retrieved(cfg, data)))
  {
    var s := states[i];
    CompletingGivesBackTheData(cfg, states, ops, sha256, i, upload, data, partSize);
    RunKeepsInv(cfg, states, ops, sha256, i);
    CompleteApplies(cfg, s, upload, bucket, key, PartsOf(Pieces(data, partSize), sha256), data, now, sha256);
    PutThenGet(cfg, s, bucket, key, data, None, now, later, sha256);
  }
}
