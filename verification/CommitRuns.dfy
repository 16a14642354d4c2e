/** What every run of the commit tables keeps. */
module CommitRuns {
  import opened Basics
  import opened CommitStore

  datatype Event =
    | Register(device: Id)
    | Revoke(device: Id)
    | Commit(session: Id, commit: SignedCommit)
    | Restart

  ghost function Apply(db: Db, vault: Id, e: Event): Db {
    match e
    case Register(d) => db.(devices := db.devices[d := true])
    case Revoke(d) => if d in db.devices then db.(devices := db.devices[d := false]) else db
    case Commit(session, c) => Accept(db, vault, session, c).db
    case Restart => db.(heads := Childless(db))
  }

  ghost function Run(db: Db, vault: Id, events: seq<Event>): Db
    decreases |events|
  {
    if events == [] then db
    else Apply(Run(db, vault, events[..|events| - 1]), vault, events[|events| - 1])
  }

  /** Everything `Accept` checks before it writes a row. */
  ghost predicate Admissible(db: Db, vault: Id, session: Id, c: SignedCommit) {
    && session in db.devices && db.devices[session]
    && c.deviceId == session && c.vaultId == vault
    && c.commitId !in db.commits
    && ReachesLinking(db, c)
    && Distinct(c.parents)
    && |db.heads - ToSet(c.parents) + {c.commitId}| <= MAX_HEADS
  }

  /** Generations stay below the number of stored commits, so they never overflow. */
  lemma {:induction false} GenerationBound(db: Db, id: Id, seen: set<Id>)
    requires Inv(db) && id in db.commits && seen <= db.commits.Keys
    requires forall x :: x in seen ==> db.commits[x].generation > db.commits[id].generation
    ensures db.commits[id].generation + |seen| < |db.commits|
    decreases db.commits[id].generation
  {
    var here := seen + {id};
    SubsetSize(here, db.commits.Keys);
    if db.commits[id].generation > 0 {
      assert Graded(db, id);
      var p :| Edge(db, id, p) && db.commits[p].generation + 1 == db.commits[id].generation;
      GenerationBound(db, p, here);
    }
  }

  lemma ParentGenerationBound(db: Db, parents: seq<Id>)
    requires Inv(db) && forall p :: p in parents ==> p in db.commits
    ensures ParentGeneration(db, parents) <= |db.commits|
  {
    if parents != [] {
      var all := Generations(db, parents);
      assert db.commits[parents[0]].generation in all;
      var p :| p in parents && db.commits[p].generation == Greatest(all);
      GenerationBound(db, p, {});
    }
  }

  lemma ParentGenerationIsNext(db: Db, parents: seq<Id>)
    requires forall p :: p in parents ==> p in db.commits
    ensures forall p :: p in parents ==> db.commits[p].generation < ParentGeneration(db, parents)
    ensures parents == [] <==> ParentGeneration(db, parents) == 0
    ensures parents != [] ==> exists p :: p in parents && db.commits[p].generation + 1 == ParentGeneration(db, parents)
  {
    if parents != [] {
      var all := Generations(db, parents);
      assert db.commits[parents[0]].generation in all;
      forall p | p in parents ensures db.commits[p].generation <= Greatest(all) {
        assert db.commits[p].generation in all;
      }
      assert Greatest(all) in all;
    }
  }

  /** What the invariant rules out for a commit that is not stored yet. */
  lemma NewCommitIsUnlinked(db: Db, c: SignedCommit)
    requires EdgesClosed(db) && db.heads == Childless(db) && c.commitId !in db.commits
    ensures c.commitId !in db.heads
    ensures forall p :: !Edge(db, c.commitId, p) && !Edge(db, p, c.commitId)
  {}

  /** A row is written exactly when the commit is admissible; any other call, refused or not, changes nothing. */
  lemma AcceptExactly(db: Db, vault: Id, session: Id, c: SignedCommit)
    requires Inv(db)
    ensures Admissible(db, vault, session, c) ==>
              && Accept(db, vault, session, c).db == Inserted(db, c, ParentGeneration(db, c.parents))
    ensures !Admissible(db, vault, session, c) ==> Accept(db, vault, session, c).db == db
    ensures Accept(db, vault, session, c).reply.Ok? <==>
              Admissible(db, vault, session, c) || AlreadyStored(db, vault, session, c)
    ensures Accept(db, vault, session, c).reply.Ok? ==>
              && Accept(db, vault, session, c).reply.value == Accept(db, vault, session, c).db.heads
              && c.commitId in Accept(db, vault, session, c).db.commits
  {
    if c.commitId !in db.commits { AcceptNewExactly(db, c); }
  }

  ghost predicate AlreadyStored(db: Db, vault: Id, session: Id, c: SignedCommit) {
    && session in db.devices && db.devices[session] && c.deviceId == session && c.vaultId == vault
    && c.commitId in db.commits && db.commits[c.commitId].record == c
  }

  ghost predicate ReachesLinking(db: Db, c: SignedCommit) {
    && |db.commits| < MAX_COMMITS_PER_VAULT
    && (db.commits == map[] <==> c.parents == [])
    && SequenceAccepted(db, c.deviceId, c.deviceSequence)
    && (forall p :: p in c.parents ==> p in db.commits)
  }

  lemma NewCases(db: Db, c: SignedCommit)
    ensures ReachesLinking(db, c) ==> AcceptNew(db, c) == AcceptLinked(db, c, ParentGeneration(db, c.parents))
    ensures !ReachesLinking(db, c) ==> AcceptNew(db, c).db == db && AcceptNew(db, c).reply.Err?
  {}

  ghost predicate NewDecided(db: Db, c: SignedCommit) {
    if ReachesLinking(db, c) && Distinct(c.parents) && |db.heads - ToSet(c.parents) + {c.commitId}| <= MAX_HEADS then
      var after := Inserted(db, c, ParentGeneration(db, c.parents));
      AcceptNew(db, c) == Outcome(after, Ok(after.heads))
    else AcceptNew(db, c).reply.Err? && AcceptNew(db, c).db == db
  }

  lemma AcceptNewExactly(db: Db, c: SignedCommit)
    requires Inv(db) && c.commitId !in db.commits
    ensures NewDecided(db, c)
  {
    NewCommitIsUnlinked(db, c);
    NewCases(db, c);
    if ReachesLinking(db, c) {
      ParentGenerationBound(db, c.parents);
    }
  }

  // ----- the insertion keeps each part of the invariant

  lemma InsertedEdges(db: Db, c: SignedCommit, generation: nat)
    requires EdgesClosed(db) && c.commitId !in db.commits && forall p :: p in c.parents ==> p in db.commits
    ensures var after := Inserted(db, c, generation);
            && EdgesClosed(after)
            && forall x, p :: Edge(after, x, p) <==> Edge(db, x, p) || (x == c.commitId && p in c.parents)
  {
    var after := Inserted(db, c, generation);
    assert forall x, p :: Edge(after, x, p) <==> Edge(db, x, p) || (x == c.commitId && p in c.parents);
  }

  lemma InsertedRow(db: Db, c: SignedCommit, id: Id)
    requires EdgesClosed(db) && c.commitId !in db.commits && forall p :: p in c.parents ==> p in db.commits
    requires Distinct(c.parents) && id in db.commits.Keys + {c.commitId}
    requires id in db.commits ==> RowFaithful(db, id) && Graded(db, id)
    ensures var after := Inserted(db, c, ParentGeneration(db, c.parents));
            EdgesClosed(after) && RowFaithful(after, id) && Graded(after, id)
  {
    var after := Inserted(db, c, ParentGeneration(db, c.parents));
    InsertedEdges(db, c, ParentGeneration(db, c.parents));
    ParentGenerationIsNext(db, c.parents);
    if id != c.commitId && db.commits[id].generation > 0 {
      var p :| Edge(db, id, p) && db.commits[p].generation + 1 == db.commits[id].generation;
      assert Edge(after, id, p);
    } else if id == c.commitId && c.parents != [] {
      var p :| p in c.parents && db.commits[p].generation + 1 == ParentGeneration(db, c.parents);
      assert Edge(after, id, p);
    }
  }

  lemma InsertedRoot(db: Db, c: SignedCommit)
    requires SingleRoot(db) && c.commitId !in db.commits && (db.commits == map[] <==> c.parents == [])
    requires forall p :: p in c.parents ==> p in db.commits
    ensures SingleRoot(Inserted(db, c, ParentGeneration(db, c.parents)))
  {
    var after := Inserted(db, c, ParentGeneration(db, c.parents));
    ParentGenerationIsNext(db, c.parents);
    if db.commits != map[] {
      var root :| RootRow(db, root);
      assert RootRow(after, root);
      assert forall a :: RootRow(after, a) ==> RootRow(db, a);
    } else {
      assert RootRow(after, c.commitId);
    }
  }

  lemma InsertedHeads(db: Db, c: SignedCommit, generation: nat)
    requires EdgesClosed(db) && c.commitId !in db.commits && forall p :: p in c.parents ==> p in db.commits
    requires db.heads == Childless(db)
    ensures Inserted(db, c, generation).heads == Childless(Inserted(db, c, generation))
  {
    var after := Inserted(db, c, generation);
    NewCommitIsUnlinked(db, c);
    forall id ensures id in after.heads <==> id in Childless(after) {
      if id in c.parents { assert (c.commitId, id) in after.edges; }
      forall e | e in after.edges && e !in db.edges ensures e.1 in c.parents {}
      if id == c.commitId {
        forall e | e in db.edges ensures e.1 != id { assert Edge(db, e.0, e.1); }
      }
    }
  }

  lemma InsertedSequences(db: Db, c: SignedCommit, generation: nat)
    requires SequencesUnique(db) && SequencesDense(db) && c.commitId !in db.commits
    requires c.deviceSequence == Highest(db, c.deviceId) + 1
    ensures var after := Inserted(db, c, generation);
            && SequencesUnique(after) && SequencesDense(after)
            && Highest(after, c.deviceId) == c.deviceSequence
            && forall d :: d != c.deviceId ==> Highest(after, d) == Highest(db, d)
  {
    var after := Inserted(db, c, generation);
    forall a, b, device, sequence | Slot(after, a, device, sequence) && Slot(after, b, device, sequence)
      ensures a == b
    {
      assert a != c.commitId ==> Slot(db, a, device, sequence) && sequence in Sequences(db, device);
      assert b != c.commitId ==> Slot(db, b, device, sequence) && sequence in Sequences(db, device);
    }
    forall d: Id
      ensures Highest(after, d) == (if d == c.deviceId then c.deviceSequence else Highest(db, d))
      ensures forall k: nat :: k in Sequences(after, d) <==> 1 <= k <= Highest(after, d)
    {
      SequencesAfterInsert(db, after, c, generation, d);
    }
  }

  lemma SequencesAfterInsert(db: Db, after: Db, c: SignedCommit, generation: nat, d: Id)
    requires c.commitId !in db.commits && after == Inserted(db, c, generation)
    ensures Sequences(after, d) == Sequences(db, d) + (if d == c.deviceId then {c.deviceSequence} else {})
  {
    forall s ensures s in Sequences(after, d) <==> s in Sequences(db, d) || (d == c.deviceId && s == c.deviceSequence) {
      if s in Sequences(db, d) {
        var id :| id in db.commits && db.commits[id].deviceId == d && db.commits[id].deviceSequence == s;
        assert id in after.commits && after.commits[id] == db.commits[id];
      }
      if d == c.deviceId && s == c.deviceSequence { assert c.commitId in after.commits; }
    }
  }

  lemma AcceptKeepsInv(db: Db, vault: Id, session: Id, c: SignedCommit)
    requires Inv(db)
    ensures Inv(Accept(db, vault, session, c).db)
  {
    AcceptExactly(db, vault, session, c);
    if Admissible(db, vault, session, c) {
      var generation := ParentGeneration(db, c.parents);
      InsertedEdges(db, c, generation);
      var after := Inserted(db, c, generation);
      forall id {:trigger RowFaithful(after, id)} | id in after.commits
        ensures RowFaithful(after, id) && Graded(after, id)
      {
        assert id in db.commits ==> RowFaithful(db, id) && Graded(db, id);
        InsertedRow(db, c, id);
      }
      InsertedRoot(db, c);
      InsertedHeads(db, c, generation);
      InsertedSequences(db, c, generation);
    }
  }

  // ----- whole runs

  lemma RowsIgnoreDevices(db: Db, devices: map<Id, bool>, id: Id)
    requires EdgesClosed(db) && id in db.commits && RowFaithful(db, id) && Graded(db, id)
    ensures var after := db.(devices := devices); EdgesClosed(after) && RowFaithful(after, id) && Graded(after, id)
  {
    var after := db.(devices := devices);
    assert forall x, p :: Edge(after, x, p) == Edge(db, x, p);
  }

  lemma SequencesIgnoreDevices(db: Db, devices: map<Id, bool>)
    requires SequencesUnique(db) && SequencesDense(db) && SingleRoot(db)
    ensures var after := db.(devices := devices); SequencesUnique(after) && SequencesDense(after) && SingleRoot(after)
    ensures forall d :: Highest(db.(devices := devices), d) == Highest(db, d)
  {
    var after := db.(devices := devices);
    assert forall a, d, s :: Slot(after, a, d, s) == Slot(db, a, d, s);
    assert forall a :: RootRow(after, a) == RootRow(db, a);
    if db.commits != map[] {
      var root :| RootRow(db, root);
      assert RootRow(after, root);
    }
    forall d ensures Sequences(after, d) == Sequences(db, d) && Highest(after, d) == Highest(db, d) {
      assert Sequences(after, d) == Sequences(db, d);
    }
  }

  lemma DeviceEventKeepsInv(db: Db, devices: map<Id, bool>)
    requires Inv(db)
    ensures Inv(db.(devices := devices))
  {
    var after := db.(devices := devices);
    assert EdgesClosed(after) by { assert forall x, p :: Edge(after, x, p) == Edge(db, x, p); }
    forall id {:trigger RowFaithful(after, id)} | id in after.commits
      ensures RowFaithful(after, id) && Graded(after, id)
    {
      assert RowFaithful(db, id) && Graded(db, id);
      RowsIgnoreDevices(db, devices, id);
    }
    SequencesIgnoreDevices(db, devices);
    assert Childless(after) == Childless(db);
  }

  lemma EmptyInv()
    ensures Inv(EmptyDb)
  {}

  lemma ApplyKeepsInv(db: Db, vault: Id, e: Event)
    requires Inv(db)
    ensures Inv(Apply(db, vault, e))
  {
    match e
    case Register(d) => DeviceEventKeepsInv(db, db.devices[d := true]);
    case Revoke(d) => if d in db.devices { DeviceEventKeepsInv(db, db.devices[d := false]); }
    case Commit(session, c) => AcceptKeepsInv(db, vault, session, c);
    case Restart =>
  }

  /** Safety over whole runs: every store reachable from the empty one satisfies the invariant. */
  lemma {:induction false} RunKeepsInv(vault: Id, events: seq<Event>)
    ensures Inv(Run(EmptyDb, vault, events))
    decreases |events|
  {
    if events == [] {
      EmptyInv();
    } else {
      RunKeepsInv(vault, events[..|events| - 1]);
      ApplyKeepsInv(Run(EmptyDb, vault, events[..|events| - 1]), vault, events[|events| - 1]);
    }
  }

  /** Every stored commit is the vault's own, and was made by a registered device under its own name. */
  ghost predicate OwnRows(db: Db, vault: Id) {
    forall id :: id in db.commits ==>
      var c := db.commits[id].record;
      c.commitId == id && c.vaultId == vault && c.deviceId in db.devices && db.commits[id].deviceId == c.deviceId
  }

  lemma ApplyKeepsOwn(db: Db, vault: Id, event: Event)
    requires Inv(db) && OwnRows(db, vault)
    ensures OwnRows(Apply(db, vault, event), vault)
  {
    match event {
      case Commit(session, c) =>
        AcceptExactly(db, vault, session, c);
        InsertedIsOwn(db, vault, session, c);
      case _ =>
    }
  }

  lemma InsertedIsOwn(db: Db, vault: Id, session: Id, c: SignedCommit)
    requires OwnRows(db, vault) && Inv(db)
    ensures Admissible(db, vault, session, c) ==> OwnRows(Inserted(db, c, ParentGeneration(db, c.parents)), vault)
  {}

  lemma {:induction false} RowsAreOwn(vault: Id, events: seq<Event>)
    ensures OwnRows(Run(EmptyDb, vault, events), vault)
    decreases |events|
  {
    if events != [] {
      RowsAreOwn(vault, events[..|events| - 1]);
      RunKeepsInv(vault, events[..|events| - 1]);
      ApplyKeepsOwn(Run(EmptyDb, vault, events[..|events| - 1]), vault, events[|events| - 1]);
    }
  }

  /** On a reachable store the incremental head index already equals the recomputed one. */
  lemma RepairIsNoOp(vault: Id, events: seq<Event>)
    ensures Run(EmptyDb, vault, events + [Restart]) == Run(EmptyDb, vault, events)
  {
    RunKeepsInv(vault, events);
    assert (events + [Restart])[..|events|] == events;
  }

  /** Rows are immutable: a later store holds every earlier row unchanged. */
  lemma {:induction false} RowsPersist(db: Db, vault: Id, events: seq<Event>)
    requires Inv(db)
    ensures Inv(Run(db, vault, events))
    ensures Extends(db, Run(db, vault, events))
    decreases |events|
  {
    if events != [] {
      var before := Run(db, vault, events[..|events| - 1]);
      RowsPersist(db, vault, events[..|events| - 1]);
      ApplyKeepsInv(before, vault, events[|events| - 1]);
      ApplyExtends(before, vault, events[|events| - 1]);
    }
  }

  ghost predicate Extends(db: Db, later: Db) {
    && (forall id :: id in db.commits ==> id in later.commits && later.commits[id] == db.commits[id])
    && db.edges <= later.edges
  }

  lemma ApplyExtends(db: Db, vault: Id, e: Event)
    requires Inv(db)
    ensures Extends(db, Apply(db, vault, e))
  {
    if e.Commit? { AcceptExactly(db, vault, e.session, e.commit); }
  }

  /** Delivering the same commit twice stores it once and reports the same heads. */
  lemma AcceptIsIdempotent(db: Db, vault: Id, session: Id, c: SignedCommit)
    requires Inv(db) && Accept(db, vault, session, c).reply.Ok?
    ensures var first := Accept(db, vault, session, c); Accept(first.db, vault, session, c) == first
  {
    AcceptExactly(db, vault, session, c);
    AcceptKeepsInv(db, vault, session, c);
  }
}
