/** `SyncEngine.push` and `publishPrepared` (plugin/src/sync/engine.ts): every outcome, lost messages and
    refusals included, is a run of the publication protocol. */
module Publishing {
  import opened Basics
  import opened CommitStore
  import opened CommitRuns
  import opened Stage
  import P = Protocol
  import PR = PushRecords
  import R = Reconcile
  import C = CommitRecord
  import M = Manifest
  import L = EncodingLimits
  import opened BlobStore

  /** What happens to one call over the network. */
  datatype Delivery = RequestLost | ReplyLost | Delivered

  datatype PushError = Unanswered | Refused(error: StorageError) | Preparation(cause: PR.PrepareError)

  datatype PreparedCommit = PreparedCommit(
    commit: SignedCommit,
    operationIds: set<Id>,
    records: PR.Records,
    stagedKeys: set<Key>)

  /** The records after publication: those of completed objects carry the commit. */
  function Stamped(records: PR.Records, objects: set<Id>, commitId: Id): PR.Records {
    map id | id in records :: if id in objects then records[id].(lastCommitId := Some(commitId)) else records[id]
  }

  /** The records are the prepared ones, with the commit on those whose pending operation it completed. */
  ghost predicate CarriesCommit(records: PR.Records, p: PreparedCommit, pending: seq<R.Operation>) {
    && records.Keys == p.records.Keys
    && forall id :: id in records ==>
         records[id] == p.records[id].(lastCommitId :=
           if exists op :: op in pending && op.operationId in p.operationIds && op.objectId == id
           then Some(p.commit.commitId) else p.records[id].lastCommitId)
  }

  lemma StampedCarriesCommit(p: PreparedCommit, pending: seq<R.Operation>)
    ensures CarriesCommit(Stamped(p.records, CompletedObjects(pending, p.operationIds), p.commit.commitId), p, pending)
  {}

  function Remaining(pending: seq<R.Operation>, completed: set<Id>): seq<R.Operation> {
    if pending == [] then []
    else
      var rest := Remaining(pending[1..], completed);
      if pending[0].operationId in completed then rest else [pending[0]] + rest
  }

  lemma {:induction false} RemainingMembers(pending: seq<R.Operation>, completed: set<Id>)
    ensures forall op :: op in Remaining(pending, completed) <==> op in pending && op.operationId !in completed
  {
    if pending != [] { RemainingMembers(pending[1..], completed); }
  }

  function CompletedObjects(pending: seq<R.Operation>, completed: set<Id>): set<Id> {
    set op | op in pending && op.operationId in completed :: op.objectId
  }

  lemma ExecuteSnoc(s: P.System, steps: seq<P.Step>, a: P.Step)
    requires P.Enabled(P.Execute(s, steps), a)
    ensures P.Execute(s, steps + [a]) == P.Next(P.Execute(s, steps), a)
  {}

  /** The request reaches the server, whatever becomes of the reply. */
  lemma AfterDeliver(s: P.System, d: Id, p: SignedCommit)
    requires d in s.clients && s.clients[d].prepared == Some(p) && p.deviceId == d
    ensures var t, out := P.Execute(s, [P.Send(d), P.Deliver(p)]), Accept(s.db, s.vault, d, p);
            && t.db == out.db && t.vault == s.vault && t.clients == s.clients[d := s.clients[d].(pulled := false)]
            && (out.reply.Ok? ==> P.Reply(d, p, out.reply.value) in t.replies)
  {
    ExecuteSnoc(s, [P.Send(d)], P.Deliver(p));
    assert [P.Send(d)] + [P.Deliver(p)] == [P.Send(d), P.Deliver(p)];
  }

  lemma AfterAcknowledge(s: P.System, d: Id, p: SignedCommit, accepted: set<Id>)
    requires d in s.clients && s.clients[d].prepared == Some(p) && p.deviceId == d
    ensures var out := Accept(s.db, s.vault, d, p);
            var t := P.Execute(s, [P.Send(d), P.Deliver(p), P.Acknowledge(P.Reply(d, p, accepted))]);
            out.reply == Ok(accepted) ==>
              && t.db == out.db && t.vault == s.vault
              && t.clients == s.clients[d := P.Client(p.deviceSequence, p.body.logicalTimestamp,
                                                      s.clients[d].known + {p.commitId}, accepted, None, false)]
  {
    AfterDeliver(s, d, p);
    var reply := P.Reply(d, p, accepted);
    if Accept(s.db, s.vault, d, p).reply == Ok(accepted) {
      ExecuteSnoc(s, [P.Send(d), P.Deliver(p)], P.Acknowledge(reply));
    }
    assert [P.Send(d), P.Deliver(p)] + [P.Acknowledge(reply)] == [P.Send(d), P.Deliver(p), P.Acknowledge(reply)];
  }

  /** A run may be continued from where its beginning ends. */
  lemma {:induction false} ExecuteConcat(s: P.System, a: seq<P.Step>, b: seq<P.Step>)
    ensures P.Execute(s, a + b) == P.Execute(P.Execute(s, a), b)
    decreases |b|
  {
    if b == [] {
      assert a + b == a;
    } else {
      ExecuteConcat(s, a, b[..|b| - 1]);
      assert (a + b)[..|a + b| - 1] == a + b[..|b| - 1];
    }
  }

  /** The records that preparing some operations may start from and lead to. */
  ghost predicate Filed(records: PR.Records) {
    PR.AllPublishable(records)
  }

  function Objects(pending: seq<R.Operation>): set<Id> {
    set op | op in pending :: op.objectId
  }

  /** Pending operations as the reconciler leaves them: one for each object, sorted, each following its base. */
  ghost predicate WellPending(pending: seq<R.Operation>) {
    && (forall i :: 0 <= i < |pending| ==> PR.WellBased(pending[i]))
    && (forall i, j :: 0 <= i < j < |pending| ==> pending[i].objectId < pending[j].objectId)
  }

  /** The record of operation `i` is the one it was prepared into. */
  ghost predicate PreparedAt(pending: seq<R.Operation>, records: PR.Records, i: nat)
    requires i < |pending|
  {
    var change := pending[i];
    && change.objectId in records
    && records[change.objectId].tombstone == change.kind.Delete? && records[change.objectId].revision == change.revision
    && records[change.objectId].path == change.path
    && (!change.kind.Delete? ==> change.hash == Some(records[change.objectId].hash))
  }

  /** Each operation can be prepared from the record its object has. */
  ghost predicate AllPreparable(pending: seq<R.Operation>, records: PR.Records, around: seq<PR.Surroundings>)
    requires |around| == |pending|
  {
    forall i :: 0 <= i < |pending| ==> PreparableAt(pending, records, around, i)
  }

  ghost predicate PreparableAt(pending: seq<R.Operation>, records: PR.Records, around: seq<PR.Surroundings>, i: nat)
    requires |around| == |pending| && i < |pending|
  {
    var existing := if pending[i].objectId in records then Some(records[pending[i].objectId]) else None;
    PR.Preparable(pending[i], existing, around[i])
  }

  /** No earlier operation has touched the record. */
  lemma NotYetTouched(pending: seq<R.Operation>, before: PR.Records, records: PR.Records, i: nat)
    requires i < |pending| && WellPending(pending) && PreparedUpTo(pending, before, records, i)
    ensures SameRecord(before, records, pending[i].objectId)
  {}

  ghost predicate Concerns(pending: seq<R.Operation>, i: nat, id: Id) {
    i < |pending| && pending[i].objectId == id
  }

  ghost predicate Touched(pending: seq<R.Operation>, n: nat, id: Id) {
    exists i: nat :: i < n && Concerns(pending, i, id)
  }

  ghost predicate SameRecord(before: PR.Records, records: PR.Records, id: Id) {
    (id in records <==> id in before) && (id in records ==> records[id] == before[id])
  }

  /** The first `n` operations have their new records; other records are as before. */
  ghost predicate PreparedUpTo(pending: seq<R.Operation>, before: PR.Records, records: PR.Records, n: nat)
    requires n <= |pending|
  {
    && (forall i: nat :: i < n ==> PreparedAt(pending, records, i))
    && (forall id: Id {:trigger SameRecord(before, records, id)} :: !Touched(pending, n, id) ==>
        SameRecord(before, records, id))
  }

  lemma PreparedNext(pending: seq<R.Operation>, before: PR.Records, records: PR.Records, n: nat, next: PR.SyncRecord)
    requires n < |pending| && WellPending(pending) && PreparedUpTo(pending, before, records, n)
    requires next.objectId == pending[n].objectId
    requires next.tombstone == pending[n].kind.Delete? && next.revision == pending[n].revision
    requires next.path == pending[n].path
    requires !pending[n].kind.Delete? ==> pending[n].hash == Some(next.hash)
    ensures PreparedUpTo(pending, before, records[next.objectId := next], n + 1)
  {
    var after := records[next.objectId := next];
    forall i: nat | i < n ensures PreparedAt(pending, after, i) {
      assert PreparedAt(pending, records, i);
    }
    forall id: Id | !Touched(pending, n + 1, id) ensures SameRecord(before, after, id) {
      assert Concerns(pending, n, next.objectId);
      assert SameRecord(before, records, id);
    }
  }

  /** Once every operation has its record, the push's body can be written. */
  lemma AllArePrepared(pending: seq<R.Operation>, before: PR.Records, records: PR.Records)
    requires WellPending(pending) && Filed(records) && PreparedUpTo(pending, before, records, |pending|)
    ensures PR.AllPrepared(pending, records)
  {
    forall i | 0 <= i < |pending|
      ensures pending[i].objectId in records && records[pending[i].objectId].tombstone == pending[i].kind.Delete?
    {
      assert PreparedAt(pending, records, i);
    }
  }

  lemma KeysAfter(pending: seq<R.Operation>, before: PR.Records, records: PR.Records)
    requires PreparedUpTo(pending, before, records, |pending|)
    ensures records.Keys == before.Keys + Objects(pending)
  {
    forall id | id in Objects(pending) ensures id in records {
      var op :| op in pending && op.objectId == id;
      var i :| 0 <= i < |pending| && pending[i] == op;
      assert PreparedAt(pending, records, i);
    }
    forall id | id in before && id !in Objects(pending) ensures id in records {
      forall i: nat | i < |pending| ensures !Concerns(pending, i, id) { assert pending[i] in pending; }
      assert SameRecord(before, records, id);
    }
    forall id | id in records && id !in Objects(pending) ensures id in before {
      forall i: nat | i < |pending| ensures !Concerns(pending, i, id) { assert pending[i] in pending; }
      assert SameRecord(before, records, id);
    }
  }

  /** The protocol step that a saved prepared commit is. */
  lemma AfterPrepare(s: P.System, d: Id, commit: SignedCommit, step: P.Step)
    requires d in s.clients && s.clients[d].pulled && s.clients[d].prepared.None?
    requires |s.clients[d].heads| <= C.MAX_COMMIT_PARENTS
    requires Lists(commit.parents, s.clients[d].heads) && P.CollisionFree(s, commit)
    requires step == P.Prepare(d, commit.parents, commit.body.payload, commit.commitId, commit.signature)
    requires commit == P.PreparedCommit(s, step)
    ensures P.Enabled(s, step) && P.Execute(s, [step]) == P.Next(s, step)
    ensures P.Next(s, step) == s.(clients := s.clients[d := s.clients[d].(prepared := Some(commit), pulled := false)])
  {}

  class SyncEngine {
    const deviceId: Id
    const staging: Staging
    const codec: PR.Codec
    var deviceSequence: nat
    var lamport: nat
    var known: set<Id>
    var heads: set<Id>
    var prepared: Option<PreparedCommit>
    var pending: seq<R.Operation>
    var records: PR.Records
    /** The cycle has pulled and not pushed since; volatile. */
    ghost var pulled: bool

    constructor (deviceId: Id, staging: Staging, codec: PR.Codec)
      ensures this.deviceId == deviceId && this.staging == staging && this.codec == codec
      ensures View() == P.NewClient && pending == [] && records == map[]
    {
      this.deviceId, this.staging, this.codec := deviceId, staging, codec;
      deviceSequence, lamport, known, heads, prepared, pulled := 0, 0, {}, {}, None, false;
      pending, records := [], map[];
    }

    /** The part of the durable state the protocol sees. */
    ghost function View(): P.Client
      reads this
    {
      P.Client(deviceSequence, lamport, known, heads, if prepared.Some? then Some(prepared.value.commit) else None,
               pulled)
    }

    /** The engine and the server are the device and the tables of a protocol state. */
    ghost predicate Represents(s: P.System, server: Storage)
      reads this, server
    {
      && s.vault == server.vaultId && s.db == server.Tables()
      && deviceId in s.clients && s.clients[deviceId] == View()
    }

    /** What the engine keeps true between calls. */
    ghost predicate Valid()
      reads this, staging
    {
      && Keyed(staging.cache) && Filed(records) && WellPending(pending)
      && (prepared.Some? ==> prepared.value.commit.deviceId == deviceId && Filed(prepared.value.records))
    }

    /** Identifiers are written in their order, and the cipher appends a tag. */
    ghost predicate Encodable()
      reads this
    {
      && C.AppendsTag(codec.core.cipher) && PR.KeepsOrder(codec.spelling, records.Keys + Objects(pending))
      && PR.CommitsKeepOrder(codec.spelling, heads)
    }

    /** The records with those of pending operations, the heads and the operations keep the limits of one commit. */
    ghost predicate Fits()
      reads this
    {
      && |records.Keys + Objects(pending)| <= M.MAX_MANIFEST_ENTRIES
      && PR.PushFits(pending, lamport + 1, deviceSequence + 1, |heads|)
    }

    /** When a new commit can be prepared. */
    ghost predicate CanPrepare(around: seq<PR.Surroundings>, input: CommitInput)
      requires |around| == |pending|
      reads this
    {
      AllPreparable(pending, records, around) && input.manifestSent && Fits()
    }

    /** The staged keys a push must keep: the prepared commit's and those of pending operations. */
    ghost function KeptKeys(): set<Key>
      reads this
    {
      (if prepared.Some? then prepared.value.stagedKeys else {})
        + (set op | op in pending :: PathKey(op.operationId)) + (set op | op in pending :: ContentKey(op.operationId))
    }

    /** The staged ciphertexts after the cleanup a push begins with. */
    function Cleaned(): Ciphertexts
      reads this, staging
    {
      Clean(staging.View(), R.Numbers(pending), if prepared.Some? then prepared.value.stagedKeys else {})
    }

    /** The state update of a finished pull. */
    method RecordPull(known: set<Id>, heads: set<Id>, clock: nat, records: PR.Records, server: Storage,
                      ghost s: P.System)
      requires Represents(s, server) && Valid() && Filed(records)
      requires P.Enabled(s, P.Pull(deviceId, known, heads))
      requires clock == P.Next(s, P.Pull(deviceId, known, heads)).clients[deviceId].lamport
      modifies this`known, this`heads, this`lamport, this`records, this`pulled
      ensures Represents(P.Next(s, P.Pull(deviceId, known, heads)), server) && Valid()
      ensures this.records == if heads == {} then old(this.records) else records
    {
      this.known, this.heads, pulled := known, heads, true;
      if heads != {} { lamport, this.records := clock, records; }
    }

    /** The acceptance of the prepared commit `p` has been recorded; `before` was pending. */
    ghost predicate Recorded(p: PreparedCommit, before: seq<R.Operation>)
      reads this
    {
      && prepared.None? && pending == Remaining(before, p.operationIds)
      && deviceSequence == p.commit.deviceSequence && lamport == p.commit.body.logicalTimestamp
      && records == Stamped(p.records, CompletedObjects(before, p.operationIds), p.commit.commitId)
      && CarriesCommit(records, p, before)
    }

    /** The state update once the acceptance has arrived. */
    method RecordAcceptance(p: PreparedCommit, acceptedHeads: set<Id>)
      requires prepared == Some(p)
      modifies this`deviceSequence, this`lamport, this`known, this`heads, this`prepared, this`pending, this`records,
               staging
      ensures View() ==
          P.Client(p.commit.deviceSequence, p.commit.body.logicalTimestamp, old(known) + {p.commit.commitId},
                                 acceptedHeads, None, pulled)
      ensures Recorded(p, old(pending))
      ensures staging.View() == Remove(old(staging.View()), p.stagedKeys)
    {
      StampedCarriesCommit(p, pending);
      records := Stamped(p.records, CompletedObjects(pending, p.operationIds), p.commit.commitId);
      pending := Remaining(pending, p.operationIds);
      deviceSequence, lamport := p.commit.deviceSequence, p.commit.body.logicalTimestamp;
      known, heads := known + {p.commit.commitId}, acceptedHeads;
      prepared := None;
      staging.CleanupStagedKeys(p.stagedKeys);
    }

    /** `publishPrepared`: the outcome is the protocol run `steps`.  Until an acceptance is received the prepared
        commit and everything else in the durable state stay as they are. */
    method PublishPrepared(server: Storage, delivery: Delivery, ghost s: P.System)
      returns (r: Result<Id, PushError>, ghost steps: seq<P.Step>)
      requires Represents(s, server) && prepared.Some? && prepared.value.commit.deviceId == deviceId
      modifies this`deviceSequence, this`lamport, this`known, this`heads, this`prepared, this`pending, this`records,
               this`pulled, staging, server`commits, server`edges, server`heads
      ensures Represents(P.Execute(s, steps), server)
      ensures PublicationRun(deviceId, old(prepared.value.commit), steps) && !(r.Err? && r.error.Preparation?)
      ensures r.Ok? <==> Arrives(s, delivery, old(prepared.value.commit))
      ensures r.Err? ==> prepared == old(prepared) && pending == old(pending) && records == old(records)
                           && staging.View() == old(staging.View())
      ensures r.Ok? ==>
                var p := old(prepared.value);
                && Recorded(p, old(pending))
                && staging.View() == Remove(old(staging.View()), p.stagedKeys)
    {
      var p := prepared.value;
      pulled := false;
      steps := [P.Send(deviceId)];
      if delivery == RequestLost { return Err(Unanswered), steps; }
      var accepted := server.AcceptCommit(deviceId, p.commit);
      steps := [P.Send(deviceId), P.Deliver(p.commit)];
      AfterDeliver(s, deviceId, p.commit);
      if delivery == ReplyLost { return Err(Unanswered), steps; }
      if accepted.Err? { return Err(Refused(accepted.error)), steps; }
      steps := [P.Send(deviceId), P.Deliver(p.commit),
                P.Acknowledge(P.Reply(deviceId, p.commit, ToSet(accepted.value)))];
      AfterAcknowledge(s, deviceId, p.commit, ToSet(accepted.value));
      RecordAcceptance(p, ToSet(accepted.value));
      r := Ok(p.commit.commitId);
    }

    /** The loop over the pending operations. */
    method PrepareOperations(around: seq<PR.Surroundings>) returns (r: Result<PR.Records, PR.PrepareError>)
      requires Keyed(staging.cache) && Filed(records) && WellPending(pending) && |around| == |pending|
      modifies staging
      ensures Keyed(staging.cache) && Retains(old(staging.View()), staging.View())
      ensures staging.staged.Keys <= old(staging.staged.Keys) + StagedKeys(R.Numbers(pending))
      ensures r.Ok? ==>
                && Filed(r.value) && PreparedUpTo(pending, records, r.value, |pending|)
                && PR.AllPrepared(pending, r.value) && r.value.Keys == records.Keys + Objects(pending)
      ensures r.Ok? <==> AllPreparable(pending, records, around)
    {
      var next: PR.Records := records;
      for i := 0 to |pending|
        invariant Keyed(staging.cache) && Retains(old(staging.View()), staging.View())
        invariant staging.staged.Keys <= old(staging.staged.Keys) + StagedKeys(R.Numbers(pending))
        invariant Filed(next) && PreparedUpTo(pending, records, next, i)
        invariant forall k :: 0 <= k < i ==> PreparableAt(pending, records, around, k)
      {
        var op := pending[i];
        ghost var before := staging.View();
        var existing := if op.objectId in next then Some(next[op.objectId]) else None;
        KeysOfOperation(pending, i);
        NotYetTouched(pending, records, next, i);
        var prepared := PR.PrepareOperation(staging, op, existing, around[i]);
        RetainsTransitively(old(staging.View()), before, staging.View());
        assert prepared.Ok? <==> PreparableAt(pending, records, around, i);
        if prepared.Err? { return Err(prepared.error); }
        PreparedNext(pending, records, next, i, prepared.value);
        next := next[op.objectId := prepared.value];
      }
      AllArePrepared(pending, records, next);
      KeysAfter(pending, records, next);
      r := Ok(next);
    }

    /** What the next commit will be. */
    ghost function NextCommit(vault: Id, parents: seq<Id>, input: CommitInput): SignedCommit
      reads this
    {
      SignedCommit(input.commitId, vault, parents, deviceId, deviceSequence + 1, Body(lamport + 1, input.payload),
                   input.signature)
    }

    /** The identifier the core computes collides with no other commit's. */
    ghost predicate NoCollision(s: P.System, input: CommitInput)
      reads this
    {
      forall parents :: Lists(parents, heads) ==> P.CollisionFree(s, NextCommit(s.vault, parents, input))
    }

    /** The manifest of the prepared records, staged and uploaded, and the signed commit that refers to it: created
        exactly when the upload succeeds and the push keeps its limits. */
    method CreateCommit(next: PR.Records, parents: seq<Id>, input: CommitInput)
      returns (r: Result<Bytes, PR.PrepareError>)
      requires Keyed(staging.cache) && Filed(next) && PR.AllPrepared(pending, next) && Encodable()
      requires next.Keys == records.Keys + Objects(pending) && Lists(parents, heads)
      modifies staging
      ensures Keyed(staging.cache) && Retains(old(staging.View()), staging.View())
      ensures staging.staged.Keys <= old(staging.staged.Keys) + StagedKeys(R.Numbers(pending))
      ensures r.Ok? <==> input.manifestSent && Fits()
    {
      DistinctLength(parents);
      r := PR.CreateCommit(staging, codec, pending, next, ManifestKey(R.Numbers(pending)), input.manifest,
                           input.manifestSent, lamport + 1, deviceSequence + 1, parents, input.random);
    }

    /** Prepares the pending operations and saves the prepared commit: exactly when every operation can be prepared, the
        manifest is uploaded and the limits hold, among them that at most 16 heads become parents.  A failure leaves
        the rest of the state alone. */
    method Prepare(vault: Id, around: seq<PR.Surroundings>, input: CommitInput)
      returns (r: Result<PreparedCommit, PushError>)
      requires prepared.None? && Keyed(staging.cache) && Filed(records) && WellPending(pending) && |around| == |pending|
      requires Encodable()
      modifies this`prepared, this`pulled, staging
      ensures Keyed(staging.cache) && Retains(old(staging.View()), staging.View())
      ensures staging.staged.Keys <= old(staging.staged.Keys) + StagedKeys(R.Numbers(pending))
      ensures r.Ok? <==> old(CanPrepare(around, input))
      ensures r.Err? ==> r.error.Preparation? && prepared.None? && pulled == old(pulled)
      ensures r.Ok? ==>
                && prepared == Some(r.value) && !pulled && Names(r.value, pending)
                && Filed(r.value.records) && PreparedUpTo(pending, records, r.value.records, |pending|)
                && Lists(r.value.commit.parents, heads)
                && r.value.commit == old(NextCommit(vault, r.value.commit.parents, input))
    {
      var result := PrepareOperations(around);
      if result.Err? { return Err(Preparation(result.error)); }
      ghost var before := staging.View();
      r := PrepareFrom(vault, result.value, input);
      RetainsTransitively(old(staging.View()), before, staging.View());
    }

    method PrepareFrom(vault: Id, next: PR.Records, input: CommitInput) returns (r: Result<PreparedCommit, PushError>)
      requires prepared.None? && Keyed(staging.cache) && Filed(next) && PR.AllPrepared(pending, next) && Encodable()
      requires next.Keys == records.Keys + Objects(pending)
      modifies this`prepared, this`pulled, staging
      ensures Keyed(staging.cache) && Retains(old(staging.View()), staging.View())
      ensures staging.staged.Keys <= old(staging.staged.Keys) + StagedKeys(R.Numbers(pending))
      ensures r.Ok? <==> input.manifestSent && old(Fits())
      ensures r.Err? ==> r.error.Preparation? && prepared.None? && pulled == old(pulled)
      ensures r.Ok? ==>
                && prepared == Some(r.value) && !pulled && r.value.records == next && Names(r.value, pending)
                && Lists(r.value.commit.parents, heads)
                && r.value.commit == old(NextCommit(vault, r.value.commit.parents, input))
    {
      var parents := SelectSorted(heads);
      var created := CreateCommit(next, parents, input);
      if created.Err? { return Err(Preparation(created.error)); }
      var p := SavePrepared(vault, parents, next, input);
      r := Ok(p);
    }

    method SavePrepared(vault: Id, parents: seq<Id>, next: PR.Records, input: CommitInput) returns (p: PreparedCommit)
      modifies this`prepared, this`pulled
      ensures prepared == Some(p) && !pulled
      ensures p == PreparedCommit(old(NextCommit(vault, parents, input)), R.Numbers(pending), next,
                                  StagedKeys(R.Numbers(pending)))
      ensures Names(p, pending)
    {
      var commit := SignedCommit(input.commitId, vault, parents, deviceId, deviceSequence + 1,
                                 Body(lamport + 1, input.payload),
                                 input.signature);
      p := PreparedCommit(commit, R.Numbers(pending), next, StagedKeys(R.Numbers(pending)));
      prepared, pulled := Some(p), false;
    }

    /** The step a new prepared commit is. */
    method PrepareNew(server: Storage, around: seq<PR.Surroundings>, input: CommitInput, ghost s: P.System)
      returns (r: Result<PreparedCommit, PushError>, ghost step: P.Step)
      requires Represents(s, server) && Valid() && |around| == |pending| && prepared.None? && pulled
      requires NoCollision(s, input) && Encodable()
      modifies this`prepared, this`pulled, staging
      ensures Valid() && Retains(old(staging.View()), staging.View())
      ensures staging.staged.Keys <= old(staging.staged.Keys) + StagedKeys(R.Numbers(pending))
      ensures r.Ok? <==> old(CanPrepare(around, input))
      ensures r.Err? ==> r.error.Preparation? && prepared.None? && Represents(s, server)
      ensures r.Ok? ==>
                && prepared == Some(r.value) && Names(r.value, pending) && Represents(P.Execute(s, [step]), server)
                && step.Prepare? && step.device == deviceId && P.PreparedCommit(s, step) == r.value.commit
                && |heads| <= C.MAX_COMMIT_PARENTS
    {
      r := Prepare(server.vaultId, around, input);
      step := P.Send(deviceId);
      if r.Ok? {
        var commit := r.value.commit;
        step := P.Prepare(deviceId, commit.parents, input.payload, input.commitId, input.signature);
        AfterPrepare(s, deviceId, commit, step);
      }
    }

    /** The second half of `push`: a new commit is prepared, saved and published. */
    method PushNew(server: Storage, delivery: Delivery, around: seq<PR.Surroundings>, input: CommitInput,
                   ghost s: P.System)
      returns (r: Result<Id, PushError>, ghost steps: seq<P.Step>)
      requires Represents(s, server) && Valid() && |around| == |pending| && prepared.None? && pulled
      requires NoCollision(s, input) && Encodable()
      modifies this`deviceSequence, this`lamport, this`known, this`heads, this`prepared, this`pending, this`records,
               this`pulled, staging, server`commits, server`edges, server`heads
      ensures Represents(P.Execute(s, steps), server) && Valid()
      ensures (r.Err? && r.error.Preparation?) <==> steps == []
      ensures steps == [] ==> View() == old(View()) && pending == old(pending) && records == old(records)
      ensures steps != [] <==> old(CanPrepare(around, input))
      ensures steps != [] ==> NewCommitRun(s, deviceId, steps) && old(|heads|) <= C.MAX_COMMIT_PARENTS
      ensures steps != [] ==> (r.Ok? <==> Arrives(s, delivery, P.PreparedCommit(s, steps[0])))
      ensures r.Err? && steps != [] ==>
                prepared.Some? && Names(prepared.value, pending) && pending == old(pending) && records == old(records)
      ensures r.Ok? ==> prepared.None? && pending == []
      ensures r.Err? ==> Retains(old(staging.View()), staging.View())
      ensures r.Err? ==> staging.staged.Keys <= old(staging.staged.Keys) + StagedKeys(R.Numbers(old(pending)))
      ensures r.Ok? ==> staging.staged.Keys <= old(staging.staged.Keys) - StagedKeys(R.Numbers(old(pending)))
    {
      steps := [];
      ghost var before, numbers := staging.View(), R.Numbers(pending);
      var p, step := PrepareNew(server, around, input, s);
      if p.Err? { return Err(p.error), steps; }
      ghost var kept, rest := staging.View(), [];
      r, rest := PublishAgain(server, delivery, P.Execute(s, [step]));
      RemainingNone(old(pending));
      NamesAreNumbers(p.value, old(pending));
      KeysRemoved(before, kept, StagedKeys(numbers));
      ExecuteConcat(s, [step], rest);
      steps := [step] + rest;
      assert steps[1..] == rest;
    }

    /** The first half of `push`: a prepared commit is published again. */
    method PublishAgain(server: Storage, delivery: Delivery, ghost s: P.System)
      returns (r: Result<Id, PushError>, ghost steps: seq<P.Step>)
      requires Represents(s, server) && Valid() && prepared.Some?
      modifies this`deviceSequence, this`lamport, this`known, this`heads, this`prepared, this`pending, this`records,
               this`pulled, staging, server`commits, server`edges, server`heads
      ensures Represents(P.Execute(s, steps), server) && Valid()
      ensures PublicationRun(deviceId, old(prepared.value.commit), steps) && !(r.Err? && r.error.Preparation?)
      ensures r.Ok? <==> Arrives(s, delivery, old(prepared.value.commit))
      ensures r.Err? ==> prepared == old(prepared) && pending == old(pending) && records == old(records)
      ensures staging.View() ==
              if r.Err? then old(staging.View()) else Remove(old(staging.View()), old(prepared.value.stagedKeys))
      ensures r.Ok? ==> Recorded(old(prepared.value), old(pending))
    {
      RemainingIsWell(pending, prepared.value.operationIds);
      r, steps := PublishPrepared(server, delivery, s);
    }

    /** `push` after the cleanup of unreferenced staged objects. */
    method PushCleaned(server: Storage, delivery: Delivery, around: seq<PR.Surroundings>, input: CommitInput,
                       ghost s: P.System)
      returns (r: Result<Option<Id>, PushError>, ghost steps: seq<P.Step>)
      requires Represents(s, server) && Valid() && |around| == |pending|
      requires prepared.None? && pending != [] ==> pulled && NoCollision(s, input) && Encodable()
      modifies this`deviceSequence, this`lamport, this`known, this`heads, this`prepared, this`pending, this`records,
               this`pulled, staging, server`commits, server`edges, server`heads
      ensures Represents(P.Execute(s, steps), server) && Valid()
      ensures old(prepared.Some?) ==> PublicationRun(deviceId, old(prepared.value.commit), steps)
      ensures old(prepared.Some?) ==> (r.Ok? <==> Arrives(s, delivery, old(prepared.value.commit)))
      ensures old(prepared.Some?) && r.Ok? ==> Recorded(old(prepared.value), old(pending))
      ensures old(prepared.Some?) && r.Err? ==> prepared == old(prepared)
      ensures old(prepared.None? && pending == []) ==> steps == [] && r == Ok(None) && View() == old(View())
      ensures old(prepared.None? && pending != []) ==> (steps == [] && r.Err?) || NewCommitRun(s, deviceId, steps)
      ensures old(prepared.None? && pending != []) ==> (steps != [] <==> old(CanPrepare(around, input)))
      ensures old(prepared.None?) && steps != [] ==> (r.Ok? <==> Arrives(s, delivery, P.PreparedCommit(s, steps[0])))
      ensures old(prepared.None? && pending != [] && |heads| > C.MAX_COMMIT_PARENTS) ==> steps == []
      ensures r.Err? ==> pending == old(pending) && records == old(records) && (steps != [] ==> prepared.Some?)
      ensures steps == [] ==> View() == old(View())
      ensures r.Ok? && old(prepared.None?) ==> prepared.None? && pending == []
      ensures StagingAfter(old(staging.View()), staging.View(), old(prepared), old(pending), r.Ok?)
    {
      steps := [];
      if prepared.Some? {
        var published;
        published, steps := PublishAgain(server, delivery, s);
        r := if published.Ok? then Ok(Some(published.value)) else Err(published.error);
      } else if pending == [] {
        r := Ok(None);
      } else {
        var published;
        published, steps := PushNew(server, delivery, around, input, s);
        r := if published.Ok? then Ok(Some(published.value)) else Err(published.error);
      }
    }

    /** The cleanup a push begins with. */
    method CleanupBefore()
      modifies staging
      ensures staging.View() == old(Cleaned()) && KeepsJust(old(staging.View()), staging.View(), KeptKeys())
      ensures Keyed(old(staging.cache)) ==> Keyed(staging.cache)
      ensures prepared.None? ==> staging.staged.Keys <= StagedKeys(R.Numbers(pending))
      ensures prepared.None? ==> KeptKeys() == KeysOfOperations(R.Numbers(pending))
    {
      var referenced := if prepared.Some? then prepared.value.stagedKeys else {};
      staging.CleanupUnreferenced(R.Numbers(pending), referenced);
      KeptKeysAre(pending, referenced);
    }

    /** `push`: with a prepared commit, the very same commit is published again; with nothing pending nothing
        happens; otherwise a new commit is prepared, saved and published, unless there are more than 16 heads.  Every
        outcome is a protocol run.  Ciphertexts that are still referenced survive every failure. */
    method Push(server: Storage, delivery: Delivery, around: seq<PR.Surroundings>, input: CommitInput,
                ghost s: P.System)
      returns (r: Result<Option<Id>, PushError>, ghost steps: seq<P.Step>)
      requires Represents(s, server) && Valid() && |around| == |pending|
      requires prepared.None? && pending != [] ==> pulled && NoCollision(s, input) && Encodable()
      modifies this`deviceSequence, this`lamport, this`known, this`heads, this`prepared, this`pending, this`records,
               this`pulled, staging, server`commits, server`edges, server`heads
      ensures Represents(P.Execute(s, steps), server) && Valid()
      ensures old(prepared.Some?) ==> PublicationRun(deviceId, old(prepared.value.commit), steps)
      ensures old(prepared.Some?) ==> (r.Ok? <==> Arrives(s, delivery, old(prepared.value.commit)))
      ensures old(prepared.Some?) && r.Ok? ==> Recorded(old(prepared.value), old(pending))
      ensures old(prepared.Some?) && r.Err? ==> prepared == old(prepared)
      ensures old(prepared.None? && pending == []) ==> steps == [] && r == Ok(None) && View() == old(View())
      ensures old(prepared.None? && pending != []) ==> (steps == [] && r.Err?) || NewCommitRun(s, deviceId, steps)
      ensures old(prepared.None? && pending != []) ==> (steps != [] <==> old(CanPrepare(around, input)))
      ensures old(prepared.None?) && steps != [] ==> (r.Ok? <==> Arrives(s, delivery, P.PreparedCommit(s, steps[0])))
      ensures old(prepared.None? && pending != [] && |heads| > C.MAX_COMMIT_PARENTS) ==> steps == []
      ensures r.Err? ==> pending == old(pending) && records == old(records) && (steps != [] ==> prepared.Some?)
      ensures steps == [] ==> View() == old(View())
      ensures r.Ok? && old(prepared.None?) ==> prepared.None? && pending == []
      ensures StagingAfter(old(Cleaned()), staging.View(), old(prepared), old(pending), r.Ok?)
      ensures r.Err? ==>
                KeepsAtLeast(old(staging.View()), staging.View(), old(KeptKeys()),
                             if old(prepared.Some?) then {}
                             else {ManifestKey(set op | op in old(pending) :: op.operationId)})
      ensures old(prepared.None? && pending != []) && r.Ok? ==> staging.staged == map[]
    {
      ghost var before, kept := staging.View(), KeptKeys();
      CleanupBefore();
      ghost var cleaned := staging.View();
      r, steps := PushCleaned(server, delivery, around, input, s);
      if r.Err? { FailureKeeps(before, cleaned, staging.View(), kept, old(prepared), old(pending)); }
    }
  }

  /** The prepared commit names the pending operations, and as its staged keys their paths, their contents and the
      manifest. */
  ghost predicate Names(p: PreparedCommit, pending: seq<R.Operation>) {
    && p.operationIds == (set op | op in pending :: op.operationId)
    && p.stagedKeys == (set op | op in pending :: PathKey(op.operationId))
                         + (set op | op in pending :: ContentKey(op.operationId)) + {ManifestKey(p.operationIds)}
  }

  lemma NamesAreNumbers(p: PreparedCommit, pending: seq<R.Operation>)
    requires Names(p, pending)
    ensures p.operationIds == R.Numbers(pending) && p.stagedKeys == StagedKeys(R.Numbers(pending))
  {}

  lemma KeptKeysAre(pending: seq<R.Operation>, referenced: set<Key>)
    ensures referenced + (set op | op in pending :: PathKey(op.operationId))
              + (set op | op in pending :: ContentKey(op.operationId)) ==
            referenced + KeysOfOperations(R.Numbers(pending))
  {}

  lemma FailureKeeps(before: Ciphertexts, cleaned: Ciphertexts, after: Ciphertexts, kept: set<Key>,
                     prepared: Option<PreparedCommit>, pending: seq<R.Operation>)
    requires KeepsJust(before, cleaned, kept) && StagingAfter(cleaned, after, prepared, pending, false)
    requires prepared.None? ==> kept == KeysOfOperations(R.Numbers(pending))
    ensures KeepsAtLeast(before, after, kept, if prepared.Some? then {} else {ManifestKey(R.Numbers(pending))})
  {
    RetainsAtLeast(before, cleaned, after, kept, if prepared.Some? then {} else {ManifestKey(R.Numbers(pending))});
  }

  /** What a push leaves of the staged ciphertexts it has after its cleanup: a failure keeps them all, a published
      commit's are removed. */
  ghost predicate StagingAfter(before: Ciphertexts, after: Ciphertexts, prepared: Option<PreparedCommit>,
                               pending: seq<R.Operation>, ok: bool)
  {
    if prepared.Some? then after == if ok then Remove(before, prepared.value.stagedKeys) else before
    else if pending == [] then after == before
    else if ok then after.staged.Keys <= before.staged.Keys - StagedKeys(R.Numbers(pending))
    else Retains(before, after) && after.staged.Keys <= before.staged.Keys + StagedKeys(R.Numbers(pending))
  }

  lemma KeysRemoved(before: Ciphertexts, kept: Ciphertexts, keys: set<Key>)
    requires kept.staged.Keys <= before.staged.Keys + keys
    ensures Remove(kept, keys).staged.Keys <= before.staged.Keys - keys
  {}

  lemma KeysOfOperation(pending: seq<R.Operation>, i: nat)
    requires i < |pending|
    ensures PR.OperationKeys(pending[i].operationId) <= StagedKeys(R.Numbers(pending))
  {
    assert pending[i] in pending;
  }

  /** Prepare, then the publication of that commit. */
  ghost predicate NewCommitRun(s: P.System, d: Id, steps: seq<P.Step>) {
    && steps != [] && steps[0].Prepare? && steps[0].device == d && d in s.clients
    && PublicationRun(d, P.PreparedCommit(s, steps[0]), steps[1..])
  }

  lemma {:induction false} RemainingAbove(pending: seq<R.Operation>, completed: set<Id>, low: int)
    requires forall i :: 0 <= i < |pending| ==> low < pending[i].objectId
    ensures forall i :: 0 <= i < |Remaining(pending, completed)| ==> low < Remaining(pending, completed)[i].objectId
  {
    if pending != [] { RemainingAbove(pending[1..], completed, low); }
  }

  /** What remains is still one sorted operation for each object. */
  lemma {:induction false} RemainingIsWell(pending: seq<R.Operation>, completed: set<Id>)
    requires WellPending(pending)
    ensures WellPending(Remaining(pending, completed))
  {
    if pending != [] {
      RemainingIsWell(pending[1..], completed);
      RemainingAbove(pending[1..], completed, pending[0].objectId);
    }
  }

  lemma RemainingNone(pending: seq<R.Operation>)
    ensures Remaining(pending, R.Numbers(pending)) == []
  {
    RemainingMembers(pending, R.Numbers(pending));
    var rest := Remaining(pending, R.Numbers(pending));
    if rest != [] { HasMember(rest); }
  }

  function StagedKeys(operationIds: set<Id>): set<Key> {
    (set id | id in operationIds :: PathKey(id)) + (set id | id in operationIds :: ContentKey(id))
        + {ManifestKey(operationIds)}
  }

  /** The server accepts the commit, and both the request and its reply arrive. */
  ghost predicate Arrives(s: P.System, delivery: Delivery, commit: SignedCommit) {
    delivery == Delivered && Accept(s.db, s.vault, commit.deviceId, commit).reply.Ok?
  }

  /** The manifest's new ciphertext and whether it uploads, and what the core adds to a commit. */
  datatype CommitInput = CommitInput(manifest: Bytes, manifestSent: bool, random: C.Random, payload: nat, commitId: Id,
                                     signature: nat)

  /** Send, then perhaps Deliver, then perhaps Acknowledge, of one commit. */
  ghost predicate PublicationRun(d: Id, commit: SignedCommit, steps: seq<P.Step>) {
    && 1 <= |steps| <= 3 && steps[0] == P.Send(d)
    && (|steps| >= 2 ==> steps[1] == P.Deliver(commit))
    && (|steps| == 3 ==> steps[2].Acknowledge? && steps[2].reply.commit == commit && steps[2].reply.device == d)
  }
}
