/** What happens over several steps of the cycle pull, reconcile, push (plugin/src/sync/pull.ts, reconcile.ts,
    engine.ts): a retry after a pull, a retry after a scan, and a creation that was scanned twice. */
module PushCycle {
  import opened Basics
  import opened CommitStore
  import opened Stage
  import opened Publishing
  import P = Protocol
  import PR = PushRecords
  import R = Reconcile
  import S = SelectEntries
  import Paths

  // ----- a retry after a pull

  /** Equal up to the commit that the completed objects' records are stamped with. */
  ghost predicate Agree(a: PR.Records, b: PR.Records, completed: set<Id>) {
    && a.Keys == b.Keys
    && forall id :: id in a && id in b ==>
         if id in completed then a[id].(lastCommitId := None) == b[id].(lastCommitId := None) else a[id] == b[id]
  }

  lemma StampedAgreeExactly(a: PR.Records, b: PR.Records, completed: set<Id>, commitId: Id)
    ensures Stamped(a, completed, commitId) == Stamped(b, completed, commitId) <==> Agree(a, b, completed)
  {
    var x, y := Stamped(a, completed, commitId), Stamped(b, completed, commitId);
    if x == y {
      assert a.Keys == x.Keys == y.Keys == b.Keys;
      forall id | id in a ensures if id in completed then a[id].(lastCommitId := None) == b[id].(lastCommitId := None)
                                  else a[id] == b[id]
      {
        assert x[id] == y[id];
        StampHidesOnlyTheCommit(a[id], b[id], commitId);
      }
    }
    if Agree(a, b, completed) {
      forall id | id in a ensures x[id] == y[id] { StampHidesOnlyTheCommit(a[id], b[id], commitId); }
    }
  }

  lemma StampHidesOnlyTheCommit(a: PR.SyncRecord, b: PR.SyncRecord, commitId: Id)
    ensures a.(lastCommitId := Some(commitId)) == b.(lastCommitId := Some(commitId)) <==>
            a.(lastCommitId := None) == b.(lastCommitId := None)
  {}

  /** A device with a prepared commit pulls and then retries.  What the pull recorded survives, stamped, exactly when
      the prepared records agree with it, and the clock goes back exactly when the pull had moved it past the
      commit's; an object that only the pull recorded is gone. */
  method PullThenRetry(engine: SyncEngine, server: Storage, known: set<Id>, heads: set<Id>, clock: nat,
                       pulled: PR.Records,
                       delivery: Delivery, around: seq<PR.Surroundings>, input: CommitInput, ghost s: P.System)
    returns (r: Result<Option<Id>, PushError>)
    requires engine.Represents(s, server) && engine.Valid() && Filed(pulled) && engine.prepared.Some? && heads != {}
    requires P.Enabled(s, P.Pull(engine.deviceId, known, heads))
    requires clock == P.Next(s, P.Pull(engine.deviceId, known, heads)).clients[engine.deviceId].lamport
    requires |around| == |engine.pending|
    modifies engine`deviceSequence, engine`lamport, engine`known, engine`heads, engine`prepared, engine`pending,
             engine`records,
             engine`pulled, engine.staging, server`commits, server`edges, server`heads
    ensures engine.Valid()
    ensures r.Err? ==> engine.records == pulled && engine.prepared == old(engine.prepared)
    ensures r.Ok? ==>
              var p, completed := old(engine.prepared.value),
                  CompletedObjects(old(engine.pending), old(engine.prepared.value.operationIds));
              && (engine.records == Stamped(pulled, completed, p.commit.commitId) <==>
                  Agree(p.records, pulled, completed))
              && (engine.lamport < clock <==> clock > p.commit.body.logicalTimestamp)
              && (forall id :: id in engine.records <==> id in p.records)
  {
    engine.RecordPull(known, heads, clock, pulled, server, s);
    ghost var p, before := engine.prepared.value, engine.pending;
    ghost var steps;
    r, steps := engine.Push(server, delivery, around, input, P.Next(s, P.Pull(engine.deviceId, known, heads)));
    StampedAgreeExactly(p.records, pulled, CompletedObjects(before, p.operationIds), p.commit.commitId);
  }

  // ----- a retry after a scan

  /** What `push` stages for an operation. */
  predicate KeyOf(key: Key, operationId: Id) {
    key == PathKey(operationId) || key == ContentKey(operationId)
  }

  /** With no prepared commit, the ciphertexts staged for a pending operation are sent by the push after the next scan
      exactly when its object no longer differs, and no forgotten key shares them: whatever the scan still calls for is
      encrypted anew. */
  lemma ScannedIsEncryptedAnew(records: R.Records, files: R.Files, pending: seq<R.Operation>, scanned: seq<R.Operation>,
                               result: seq<R.Operation>, deletions: bool, before: set<Id>, now: set<Id>,
                                   op: R.Operation,
                               c: Ciphertexts, key: Key, ciphertext: Bytes)
    requires R.Diff(records, files, scanned, deletions) && R.Merged(pending, scanned, result)
    requires R.NewlyNumbered(scanned, before, now) && R.NumberedBefore(pending, before) && op in pending
    requires forall x, y :: x in scanned && x.kind.Create? && y in pending ==> x.objectId != y.objectId
    requires KeyOf(key, op.operationId) && Fixed(c, key, ciphertext)
    ensures Fixed(Clean(c, R.Numbers(result), {}), key, ciphertext) <==>
              !R.StillDiffers(records, files, deletions, op.objectId)
                  && Alone(c, KeysOfOperations(R.Numbers(result)), key)
  {
    R.NumberSurvivesExactly(records, files, pending, scanned, result, deletions, before, now, op);
    SurvivesCleanupExactly(c, R.Numbers(result), {}, key, ciphertext);
    assert {} + KeysOfOperations(R.Numbers(result)) == KeysOfOperations(R.Numbers(result));
  }

  /** A modification whose push failed and whose file is scanned again: its staged content is never sent. */
  lemma RescannedModificationIsEncryptedAnew(record: R.Record, hash: Id, op: R.Operation, again: R.Operation,
                                             result: seq<R.Operation>, c: Ciphertexts, created: Bytes)
    requires record.hash != hash && op.operationId != again.operationId
    requires op == R.RevisedOperation(op.operationId, R.Modify, record, record.path, hash)
    requires again == R.RevisedOperation(again.operationId, R.Modify, record, record.path, hash)
    requires R.Merged([op], [again], result) && ContentKey(again.operationId) !in c.staged
    ensures R.Diff(map[record.path := record], map[record.path := hash], [again], true) && result == [again]
    ensures var cleaned := Clean(c, R.Numbers(result), {});
            && ContentKey(op.operationId) !in cleaned.staged
            && Current(cleaned, ContentKey(again.operationId), created) == created
  {
    forall i | 0 <= i < |result| ensures result[i] == again { assert result[i] in result; }
    OnlyOne(again, result);
  }

  /** A merged list has one operation for each object. */
  lemma OnlyOne(op: R.Operation, result: seq<R.Operation>)
    requires op in result && forall i :: 0 <= i < |result| ==> result[i] == op
    requires forall i, j :: 0 <= i < j < |result| ==> result[i].objectId < result[j].objectId
    ensures result == [op]
  {
    assert |result| >= 2 ==> result[0].objectId < result[1].objectId;
  }

  // ----- a creation scanned twice

  function AsRecord(r: PR.SyncRecord): R.Record {
    R.Record(r.objectId, r.path, r.revision, r.hash, r.tombstone)
  }

  /** A new file whose first publication loses its request and which is scanned again meanwhile. */
  ghost predicate ScannedTwice(path: R.Path, hash: Id, first: R.Operation, second: R.Operation) {
    && first == R.CreateOperation(first.operationId, first.objectId, path, hash)
    && second == R.CreateOperation(second.operationId, second.objectId, path, hash)
    && first.objectId != second.objectId && first.operationId != second.operationId
  }

  lemma OnlySecondRemains(path: R.Path, hash: Id, first: R.Operation, second: R.Operation, result: seq<R.Operation>)
    requires ScannedTwice(path, hash, first, second) && R.Merged([first], [second], result)
    ensures first in result && Remaining(result, {first.operationId}) == [second]
  {
    R.RescannedCreationIsDoubled(path, hash, first, second, result);
    forall i | 0 <= i < |result| ensures result[i] == first || result[i] == second { assert result[i] in result; }
    OneOfEach(first, second, result);
    var done := {first.operationId};
    assert Remaining([], done) == [];
    assert [second][1..] == [] && [first, second][1..] == [second] && [second, first][1..] == [first]
        && [first][1..] == [];
    assert Remaining([second], done) == [second] && Remaining([first], done) == [];
  }

  lemma OneOfEach(a: R.Operation, b: R.Operation, result: seq<R.Operation>)
    requires a in result && b in result && a != b && forall i :: 0 <= i < |result| ==> result[i] == a || result[i] == b
    requires forall i, j :: 0 <= i < j < |result| ==> result[i].objectId < result[j].objectId
    ensures result == [a, b] || result == [b, a]
  {
    var i :| 0 <= i < |result| && result[i] == a;
    var j :| 0 <= j < |result| && result[j] == b;
    assert Distinct(result);
    assert ToSet(result) == {a, b};
    DistinctLength(result);
    assert |{a, b}| == 2 && i != j;
  }

  lemma StaysAlone(second: R.Operation, result: seq<R.Operation>)
    requires R.Merged([second], [], result)
    ensures result == [second]
  {
    forall i | 0 <= i < |result| ensures result[i] == second { assert result[i] in result; }
    assert R.HasObject(result, second.objectId);
    OnlyOne(second, result);
  }

  lemma RecordedFileIsNoDifference(record: R.Record, hash: Id)
    requires record.hash == hash
    ensures R.Diff(map[record.path := record], map[record.path := hash], [], true)
  {
    assert forall p: R.Path, f: R.Path :: !R.RenamePair(map[record.path := record], map[record.path := hash], p, f);
  }

  /** Both objects are alive at the one path. */
  ghost predicate BothLive(records: PR.Records, path: R.Path, a: Id, b: Id) {
    && a != b && a in records && b in records
    && records[a].path == records[b].path == path && !records[a].tombstone && !records[b].tombstone
  }

  /** The first creation is prepared and its request is lost; the file is scanned again; the retry is accepted; the scan
      then finds no difference but keeps the second creation; and its push publishes both objects at one path. */
  lemma DoubledCreationIsPublished(path: R.Path, hash: Id, first: R.Operation, second: R.Operation,
                                   prepared: PR.Records, merged: seq<R.Operation>, commitId: Id,
                                       rescanned: seq<R.Operation>,
                                   published: PR.Records)
    requires ScannedTwice(path, hash, first, second)
    requires PreparedUpTo([first], map[], prepared, 1)
    requires R.Merged([first], [second], merged)
    requires R.Merged(Remaining(merged, {first.operationId}), [], rescanned)
    requires var records := Stamped(prepared, CompletedObjects(merged, {first.operationId}), commitId);
             PreparedUpTo(rescanned, records, published, |rescanned|)
    ensures var records := Stamped(prepared, CompletedObjects(merged, {first.operationId}), commitId);
            && first.objectId in records
            && R.Diff(map[path := AsRecord(records[first.objectId])], map[path := hash], [], true)
    ensures rescanned == [second] && BothLive(published, path, first.objectId, second.objectId)
  {
    var records := Stamped(prepared, CompletedObjects(merged, {first.operationId}), commitId);
    OnlySecondRemains(path, hash, first, second, merged);
    StaysAlone(second, rescanned);
    assert PreparedAt([first], prepared, 0);
    RecordedFileIsNoDifference(AsRecord(records[first.objectId]), hash);
    assert PreparedAt(rescanned, published, 0);
    assert !Touched(rescanned, 1, first.objectId) by {
      forall i: nat | i < 1 ensures !Concerns(rescanned, i, first.objectId) {}
    }
    assert SameRecord(records, published, first.objectId);
  }

  /** The paths a pull selects from a single head that holds these records. */
  function Selected(ids: seq<Id>, records: PR.Records): (choices: seq<(string, bool)>)
    requires forall id :: id in ids ==> id in records
    ensures |choices| == |ids|
  {
    seq(|ids|, i requires 0 <= i < |ids| => (records[ids[i]].path.text, records[ids[i]].tombstone))
  }

  lemma {:induction false} LiveTwice(choices: seq<(string, bool)>, i: nat, j: nat)
    requires i < j < |choices| && choices[i] == choices[j] && !choices[i].1
    ensures exists a: nat, b: nat ::
              a < b < |S.LivePaths(choices)| && S.LivePaths(choices)[a] == S.LivePaths(choices)[b]
    decreases |choices|
  {
    var n := |choices| - 1;
    var init := choices[..n];
    if j < n {
      LiveTwice(init, i, j);
      var a: nat, b: nat :| a < b < |S.LivePaths(init)| && S.LivePaths(init)[a] == S.LivePaths(init)[b];
      assert S.LivePaths(choices)[a] == S.LivePaths(choices)[b];
    } else {
      var a := LiveAt(init, i);
      assert S.LivePaths(choices)[a] == S.LivePaths(choices)[|S.LivePaths(init)|];
    }
  }

  lemma {:induction false} LiveAt(choices: seq<(string, bool)>, i: nat) returns (a: nat)
    requires i < |choices| && !choices[i].1
    ensures a < |S.LivePaths(choices)| && S.LivePaths(choices)[a] == choices[i].0
    decreases |choices|
  {
    var n := |choices| - 1;
    if i < n { a := LiveAt(choices[..n], i); } else { a := |S.LivePaths(choices[..n])|; }
  }

  /** Every later pull of such a head is refused, whatever the collision key is. */
  lemma DoubledCreationBlocksPulls(records: PR.Records, path: R.Path, a: Id, b: Id, ids: seq<Id>,
                                   collisionKey: string -> string)
    requires BothLive(records, path, a, b) && Lists(ids, records.Keys)
    requires forall id :: id in ids ==> id in records
    ensures Paths.SomeConflict(S.LivePaths(Selected(ids, records)), collisionKey)
  {
    assert a in ToSet(ids) && b in ToSet(ids);
    var i: nat :| i < |ids| && ids[i] == a;
    var j: nat :| j < |ids| && ids[j] == b;
    LiveTwice(Selected(ids, records), if i < j then i else j, if i < j then j else i);
    var live := S.LivePaths(Selected(ids, records));
    var x: nat, y: nat :| x < y < |live| && live[x] == live[y];
    assert Paths.PortablePathsConflict(live[x], live[y], collisionKey);
  }
}
