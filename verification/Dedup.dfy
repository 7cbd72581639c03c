/** Chunk deduplication against a caller-supplied table of known checksums. */
module Dedup {
  import opened Bytes
  import opened Domain

  function TrueKeys(entries: map<Digest, bool>): set<Digest> {
    set d | d in entries && entries[d]
  }

  /** `after` is `before` with the checksums marked as known and nothing else changed. */
  ghost predicate Marked(before: map<Digest, bool>, after: map<Digest, bool>, checksums: set<Digest>) {
    && (forall d :: d in checksums ==> d in after && after[d])
    && (forall d :: d !in checksums ==> (d in after <==> d in before))
    && (forall d :: d in before && d !in checksums ==> d in after && after[d] == before[d])
  }

  /** The caller's table; a checksum is known when it maps to true. */
  class ChecksumTable {
    var entries: map<Digest, bool>

    constructor ()
      ensures entries == map[]
    {
      entries := map[];
    }
  }

  /** A nil table reads like an empty one. */
  function Entries(table: ChecksumTable?): map<Digest, bool>
    reads table
  {
    if table == null then map[] else table.entries
  }

  predicate Knows(entries: map<Digest, bool>, checksum: Digest) {
    checksum in entries && entries[checksum]
  }

  function Digests(chunks: seq<Blob>, sha256: Hash): set<Digest> {
    set i | 0 <= i < |chunks| :: sha256(chunks[i])
  }

  /** The chunks whose checksum is neither known nor that of an earlier chunk. */
  function Fresh(chunks: seq<Blob>, sha256: Hash, known: set<Digest>): seq<Blob> {
    if chunks == [] then []
    else
      var n := |chunks| - 1;
      var rest := Fresh(chunks[..n], sha256, known);
      if sha256(chunks[n]) in known + Digests(chunks[..n], sha256) then rest else rest + [chunks[n]]
  }

  /** Kept chunks are numbered densely, in order. */
  function DedupRows(kept: seq<Blob>, sha256: Hash): seq<FileChunk> {
    seq(|kept|, t requires 0 <= t < |kept| =>
      FileChunk(t, |kept[t]|, sha256(kept[t]), ChecksumPath(sha256(kept[t])), false))
  }

  lemma DigestsNext(chunks: seq<Blob>, sha256: Hash, i: nat)
    requires i < |chunks|
    ensures Digests(chunks[..i + 1], sha256) == Digests(chunks[..i], sha256) + {sha256(chunks[i])}
  {
    var a, b := chunks[..i], chunks[..i + 1];
    assert forall t :: 0 <= t < |a| ==> a[t] == b[t];
    assert b[i] == chunks[i];
  }

  /** A nil table is replaced by a new one on the first write. */
  method Record(table: ChecksumTable?, checksum: Digest) returns (updated: ChecksumTable)
    modifies table
    ensures Entries(updated) == old(Entries(table))[checksum := true]
    ensures if table != null then updated == table else fresh(updated)
  {
    if table == null {
      updated := new ChecksumTable();
    } else {
      updated := table;
    }
    updated.entries := updated.entries[checksum := true];
  }

  /** The loop's state after the chunks `seen`. */
  ghost predicate Deduped(seen: seq<Blob>, sha256: Hash, before: map<Digest, bool>, rows: seq<FileChunk>, data: seq<Blob>,
                          after: map<Digest, bool>, skipped: int)
  {
    && data == Fresh(seen, sha256, TrueKeys(before))
    && rows == DedupRows(data, sha256)
    && skipped == |seen| - |data|
    && Marked(before, after, Digests(seen, sha256))
  }

  /** What this call added is known. */
  ghost predicate Noted(added: map<Digest, bool>, after: map<Digest, bool>) {
    forall d :: Knows(added, d) ==> Knows(after, d)
  }

  method Dedup(chunks: seq<Blob>, existing: ChecksumTable?, sha256: Hash)
      returns (rows: seq<FileChunk>, data: seq<Blob>, updated: ChecksumTable?, skipped: nat)
    modifies existing
    ensures data == Fresh(chunks, sha256, old(TrueKeys(Entries(existing))))
    ensures rows == DedupRows(data, sha256)
    ensures |rows| == |data| && forall t :: 0 <= t < |rows| ==>
        rows[t] == FileChunk(t, |data[t]|, sha256(data[t]), ChecksumPath(sha256(data[t])), false)
    ensures skipped == |chunks| - |data|
    ensures Marked(old(Entries(existing)), Entries(updated), Digests(chunks, sha256))
    ensures if existing != null then updated == existing
            else if data == [] then updated == null else updated != null && fresh(updated)
  {
    ghost var entries := Entries(existing);
    rows, data, updated, skipped := [], [], existing, 0;
    var added: map<Digest, bool> := map[];
    for i := 0 to |chunks|
      invariant Deduped(chunks[..i], sha256, entries, rows, data, Entries(updated), skipped)
      invariant existing != null ==> updated == existing
      invariant existing == null && data != [] ==> updated != null && fresh(updated)
      invariant existing == null && data == [] ==> updated == null
      invariant Noted(added, Entries(updated))
    {
      var checksum := sha256(chunks[i]);
      if Knows(Entries(updated), checksum) || Knows(added, checksum) {
        SkipNext(chunks, sha256, i, entries, rows, data, Entries(updated), skipped);
        skipped := skipped + 1;
        continue;
      }
      KeepNext(chunks, sha256, i, entries, rows, data, Entries(updated), skipped);
      NotedNext(added, Entries(updated), checksum);
      added := added[checksum := true];
      updated := Record(updated, checksum);
      rows := rows + [FileChunk(|rows|, |chunks[i]|, checksum, ChecksumPath(checksum), false)];
      data := data + [chunks[i]];
    }
    assert chunks[..|chunks|] == chunks;
  }

  lemma NotedNext(added: map<Digest, bool>, after: map<Digest, bool>, d: Digest)
    requires Noted(added, after)
    ensures Noted(added[d := true], after[d := true])
  {
    var added', after' := added[d := true], after[d := true];
    forall e
      ensures Knows(added', e) ==> Knows(after', e)
    {
      assert e != d ==> (Knows(added', e) <==> Knows(added, e)) && (Knows(after', e) <==> Knows(after, e));
    }
  }

  lemma SkipNext(chunks: seq<Blob>, sha256: Hash, i: nat, before: map<Digest, bool>, rows: seq<FileChunk>,
                 data: seq<Blob>, after: map<Digest, bool>, skipped: int)
    requires i < |chunks| && Deduped(chunks[..i], sha256, before, rows, data, after, skipped)
    requires Knows(after, sha256(chunks[i]))
    ensures Deduped(chunks[..i + 1], sha256, before, rows, data, after, skipped + 1)
  {
    DigestsNext(chunks, sha256, i);
    FreshNext(chunks, sha256, TrueKeys(before), i);
    MarkedNext(before, after, Digests(chunks[..i], sha256), sha256(chunks[i]));
  }

  lemma KeepNext(chunks: seq<Blob>, sha256: Hash, i: nat, before: map<Digest, bool>, rows: seq<FileChunk>,
                 data: seq<Blob>, after: map<Digest, bool>, skipped: int)
    requires i < |chunks| && Deduped(chunks[..i], sha256, before, rows, data, after, skipped)
    requires !Knows(after, sha256(chunks[i]))
    ensures
      var checksum := sha256(chunks[i]);
      var row := FileChunk(|rows|, |chunks[i]|, checksum, ChecksumPath(checksum), false);
      Deduped(chunks[..i + 1], sha256, before, rows + [row], data + [chunks[i]], after[checksum := true], skipped)
  {
    DigestsNext(chunks, sha256, i);
    FreshNext(chunks, sha256, TrueKeys(before), i);
    MarkedNext(before, after, Digests(chunks[..i], sha256), sha256(chunks[i]));
  }

  lemma MarkedNext(before: map<Digest, bool>, after: map<Digest, bool>, checksums: set<Digest>, d: Digest)
    requires Marked(before, after, checksums)
    ensures Knows(after, d) <==> d in TrueKeys(before) + checksums
    ensures Marked(before, after[d := true], checksums + {d})
    ensures Knows(after, d) ==> after[d := true] == after
  {
  }

  lemma FreshNext(chunks: seq<Blob>, sha256: Hash, known: set<Digest>, i: nat)
    requires i < |chunks|
    ensures Fresh(chunks[..i + 1], sha256, known)
        == Fresh(chunks[..i], sha256, known)
           + (if sha256(chunks[i]) in known + Digests(chunks[..i], sha256) then [] else [chunks[i]])
  {
    assert chunks[..i + 1][..i] == chunks[..i];
  }

  /** After deduplication the known checksums are the old ones and those of the input. */
  lemma MarkedKnown(before: map<Digest, bool>, after: map<Digest, bool>, checksums: set<Digest>)
    requires Marked(before, after, checksums)
    ensures TrueKeys(after) == TrueKeys(before) + checksums
  {
  }

  lemma DigestsPush(chunks: seq<Blob>, d: Blob, sha256: Hash)
    ensures Digests(chunks + [d], sha256) == Digests(chunks, sha256) + {sha256(d)}
  {
    var b := chunks + [d];
    assert b[..|chunks| + 1] == b && b[..|chunks|] == chunks;
    DigestsNext(b, sha256, |chunks|);
  }

  lemma DigestsAppend(xs: seq<Blob>, ys: seq<Blob>, sha256: Hash)
    ensures Digests(xs + ys, sha256) == Digests(xs, sha256) + Digests(ys, sha256)
  {
    var zs := xs + ys;
    forall d
      ensures d in Digests(zs, sha256) <==> d in Digests(xs, sha256) || d in Digests(ys, sha256)
    {
      if d in Digests(xs, sha256) {
        var i :| 0 <= i < |xs| && sha256(xs[i]) == d;
        assert sha256(zs[i]) == d;
      }
      if d in Digests(ys, sha256) {
        var i :| 0 <= i < |ys| && sha256(ys[i]) == d;
        assert sha256(zs[|xs| + i]) == d;
      }
    }
  }

  /** Chunk `i` is the first with its checksum, and the checksum was not known before. */
  ghost predicate First(chunks: seq<Blob>, sha256: Hash, known: set<Digest>, i: nat)
    requires i < |chunks|
  {
    sha256(chunks[i]) !in known && forall j :: 0 <= j < i ==> sha256(chunks[j]) != sha256(chunks[i])
  }

  lemma FirstIsFresh(chunks: seq<Blob>, sha256: Hash, known: set<Digest>, i: nat)
    requires i < |chunks|
    ensures First(chunks, sha256, known, i) <==> sha256(chunks[i]) !in known + Digests(chunks[..i], sha256)
  {
    var before := chunks[..i];
    if sha256(chunks[i]) in Digests(before, sha256) {
      var j :| 0 <= j < |before| && sha256(before[j]) == sha256(chunks[i]);
      assert sha256(chunks[j]) == sha256(chunks[i]);
    }
    forall j | 0 <= j < i && sha256(chunks[j]) == sha256(chunks[i])
      ensures sha256(chunks[i]) in Digests(before, sha256)
    {
      assert before[j] == chunks[j];
    }
  }

  predicate Rising(at: seq<nat>, n: nat) {
    && (forall s, t :: 0 <= s < t < |at| ==> at[s] < at[t])
    && forall t :: 0 <= t < |at| ==> at[t] < n
  }

  /** `at` says, in ascending order, where the kept chunks stand: exactly at the first occurrences below `n`. */
  ghost predicate StandAt(chunks: seq<Blob>, sha256: Hash, known: set<Digest>, n: nat, kept: seq<Blob>, at: seq<nat>)
    requires n <= |chunks|
  {
    && Rising(at, n) && |at| == |kept|
    && (forall t :: 0 <= t < |at| ==> kept[t] == chunks[at[t]] && First(chunks, sha256, known, at[t]))
    && forall i: nat :: i < n && First(chunks, sha256, known, i) ==> i in at
  }

  lemma StandNext(chunks: seq<Blob>, sha256: Hash, known: set<Digest>, n: nat, kept: seq<Blob>, at: seq<nat>)
    requires n < |chunks| && StandAt(chunks, sha256, known, n, kept, at)
    ensures First(chunks, sha256, known, n) ==> StandAt(chunks, sha256, known, n + 1, kept + [chunks[n]], at + [n])
    ensures !First(chunks, sha256, known, n) ==> StandAt(chunks, sha256, known, n + 1, kept, at)
  {
    var more := at + [n];
    assert more[|at|] == n;
    forall i: nat | i < n && First(chunks, sha256, known, i)
      ensures i in more
    {
      assert i in at;
    }
  }

  lemma {:induction false} FreshStandAt(chunks: seq<Blob>, sha256: Hash, known: set<Digest>, n: nat) returns (at: seq<nat>)
    requires n <= |chunks|
    ensures StandAt(chunks, sha256, known, n, Fresh(chunks[..n], sha256, known), at)
  {
    if n == 0 {
      at := [];
    } else {
      at := FreshStandAt(chunks, sha256, known, n - 1);
      StandNext(chunks, sha256, known, n - 1, Fresh(chunks[..n - 1], sha256, known), at);
      FreshNext(chunks, sha256, known, n - 1);
      FirstIsFresh(chunks, sha256, known, n - 1);
      if First(chunks, sha256, known, n - 1) {
        at := at + [n - 1];
      }
    }
  }

  /** The kept chunks are the first occurrences of new checksums, each of them once and in the order of the input. */
  lemma FreshIsFirstOccurrence(chunks: seq<Blob>, sha256: Hash, known: set<Digest>) returns (at: seq<nat>)
    ensures |at| == |Fresh(chunks, sha256, known)|
    ensures forall t :: 0 <= t < |at| ==> at[t] < |chunks| && Fresh(chunks, sha256, known)[t] == chunks[at[t]]
    ensures forall s, t :: 0 <= s < t < |at| ==> at[s] < at[t]
    ensures forall i: nat :: i < |chunks| ==> (i in at <==> First(chunks, sha256, known, i))
  {
    at := FreshStandAt(chunks, sha256, known, |chunks|);
    assert chunks[..|chunks|] == chunks;
  }

  /** The kept checksums are exactly the new ones, each kept once. */
  lemma {:induction false} FreshDigests(chunks: seq<Blob>, sha256: Hash, known: set<Digest>)
    ensures Digests(Fresh(chunks, sha256, known), sha256) == Digests(chunks, sha256) - known
    ensures |Fresh(chunks, sha256, known)| == |Digests(chunks, sha256) - known|
  {
    if chunks != [] {
      var n := |chunks| - 1;
      FreshDigests(chunks[..n], sha256, known);
      NewDigests(Digests(chunks[..n], sha256), known, sha256(chunks[n]));
      DigestsPush(Fresh(chunks[..n], sha256, known), chunks[n], sha256);
      DigestsNext(chunks, sha256, n);
      assert chunks[..n + 1] == chunks;
    }
  }

  lemma NewDigests(before: set<Digest>, known: set<Digest>, d: Digest)
    ensures d in known + before ==> (before + {d}) - known == before - known
    ensures d !in known + before ==>
      (before + {d}) - known == (before - known) + {d} && |(before + {d}) - known| == |before - known| + 1
  {
    if d !in known + before {
      assert (before + {d}) - known == (before - known) + {d};
    }
  }

  /** Deduplicating in two rounds on the updated table is deduplicating the concatenation. */
  lemma {:induction false} FreshAppend(xs: seq<Blob>, ys: seq<Blob>, sha256: Hash, known: set<Digest>)
    ensures Fresh(xs + ys, sha256, known)
        == Fresh(xs, sha256, known) + Fresh(ys, sha256, known + Digests(xs, sha256))
  {
    if ys == [] {
      assert xs + ys == xs;
    } else {
      var n := |ys| - 1;
      FreshAppend(xs, ys[..n], sha256, known);
      DigestsAppend(xs, ys[..n], sha256);
      FreshAppendLast(xs, ys[..n], ys[n], sha256, known);
      AppendLast(xs, ys);
    }
  }

  lemma AppendLast(xs: seq<Blob>, ys: seq<Blob>)
    requires ys != []
    ensures
      var n := |ys| - 1;
      ys == ys[..n] + [ys[n]] && xs + ys == (xs + ys[..n]) + [ys[n]]
  {
  }

  lemma FreshLast(zs: seq<Blob>, z: Blob, sha256: Hash, known: set<Digest>)
    ensures Fresh(zs + [z], sha256, known)
        == Fresh(zs, sha256, known) + (if sha256(z) in known + Digests(zs, sha256) then [] else [z])
  {
    assert (zs + [z])[..|zs|] == zs;
  }

  lemma FreshAppendLast(xs: seq<Blob>, ys: seq<Blob>, z: Blob, sha256: Hash, known: set<Digest>)
    requires Fresh(xs + ys, sha256, known)
        == Fresh(xs, sha256, known) + Fresh(ys, sha256, known + Digests(xs, sha256))
    requires Digests(xs + ys, sha256) == Digests(xs, sha256) + Digests(ys, sha256)
    ensures Fresh((xs + ys) + [z], sha256, known)
        == Fresh(xs, sha256, known) + Fresh(ys + [z], sha256, known + Digests(xs, sha256))
  {
    FreshLast(xs + ys, z, sha256, known);
    FreshLast(ys, z, sha256, known + Digests(xs, sha256));
  }

  /** A second pass over chunks already recorded keeps nothing. */
  lemma {:induction false} SecondPassKeepsNothing(chunks: seq<Blob>, sha256: Hash, known: set<Digest>)
    requires Digests(chunks, sha256) <= known
    ensures Fresh(chunks, sha256, known) == []
  {
    if chunks != [] {
      var n := |chunks| - 1;
      DigestsNext(chunks, sha256, n);
      assert chunks[..n + 1] == chunks;
      SecondPassKeepsNothing(chunks[..n], sha256, known);
    }
  }

  /** Every input chunk has a kept chunk of the same checksum unless that checksum was known before. */
  lemma Retrievable(chunks: seq<Blob>, sha256: Hash, known: set<Digest>, i: nat)
    requires i < |chunks| && sha256(chunks[i]) !in known
    requires forall x, y :: sha256(x) == sha256(y) ==> x == y
    ensures chunks[i] in Fresh(chunks, sha256, known)
  {
    FreshDigests(chunks, sha256, known);
    var kept := Fresh(chunks, sha256, known);
    assert sha256(chunks[i]) in Digests(chunks, sha256) - known;
    var t :| 0 <= t < |kept| && sha256(kept[t]) == sha256(chunks[i]);
    assert kept[t] == chunks[i];
  }
}
