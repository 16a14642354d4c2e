/** Crash-safe publication (plugin/src/sync/engine.ts) against the commit store.

    A device prepares a commit, saves it, sends it, and retries with the same bytes until the
    reply has been recorded.  Requests and replies may be lost, duplicated and delayed: a request
    once sent stays deliverable forever, and so does a reply.  A crash forgets only that a pull has
    just finished, since everything else is in the durable state. */
module Protocol {
  import opened Basics
  import opened CommitStore
  import opened CommitRuns
  import C = CommitRecord

  /** The durable fields of one device that publication reads or writes; `pulled` is the volatile
      fact that the current cycle has pulled and not yet pushed. */
  datatype Client = Client(
    deviceSequence: nat,
    lamport: nat,
    known: set<Id>,
    heads: set<Id>,
    prepared: Option<SignedCommit>,
    pulled: bool)

  datatype Reply = Reply(device: Id, commit: SignedCommit, heads: set<Id>)

  datatype System = System(
    vault: Id,
    db: Db,
    clients: map<Id, Client>,
    requests: set<SignedCommit>,
    replies: set<Reply>)

  datatype Step =
    | ServerEvent(event: Event)
    | Pull(device: Id, known: set<Id>, heads: set<Id>)
    | Prepare(device: Id, parents: seq<Id>, payload: nat, commitId: Id, signature: nat)
    | Send(device: Id)
    | Deliver(request: SignedCommit)
    | Acknowledge(reply: Reply)
    | Crash(device: Id)

  const NewClient := Client(0, 0, {}, {}, None, false)

  function Start(vault: Id, devices: set<Id>): System {
    System(vault, EmptyDb, map d | d in devices :: NewClient, {}, {})
  }

  function Timestamp(db: Db, id: Id): nat
    requires id in db.commits
  {
    db.commits[id].record.body.logicalTimestamp
  }

  // ----- the steps

  /** Every known commit comes with its parents. */
  ghost predicate ParentClosed(db: Db, known: set<Id>) {
    forall id, p :: id in known && Edge(db, id, p) ==> p in known
  }

  /** What one successful pull may learn: stored commits, closed under parents, and heads among them. */
  ghost predicate PullPossible(s: System, c: Client, known: set<Id>, heads: set<Id>) {
    && c.known <= known <= s.db.commits.Keys
    && ParentClosed(s.db, known)
    && heads <= known
  }

  /** The Lamport clock after a pull: at least every known timestamp. */
  ghost predicate ClockAfterPull(db: Db, c: Client, known: set<Id>, clock: nat)
    requires known <= db.commits.Keys
  {
    && c.lamport <= clock
    && (forall id :: id in known ==> Timestamp(db, id) <= clock)
    && (clock == c.lamport || exists id :: id in known && Timestamp(db, id) == clock)
  }

  ghost function MaximumLamport(db: Db, c: Client, known: set<Id>): (clock: nat)
    requires known <= db.commits.Keys
    ensures ClockAfterPull(db, c, known, clock)
  {
    var stamps := (set id | id in known :: Timestamp(db, id)) + {c.lamport};
    var clock := Greatest(stamps);
    assert forall id :: id in known ==> Timestamp(db, id) in stamps;
    clock
  }

  /** The fields the identifier is a hash of. */
  function Unsigned(c: SignedCommit): (Id, seq<Id>, Id, nat, Body) {
    (c.vaultId, c.parents, c.deviceId, c.deviceSequence, c.body)
  }

  /** The hash is injective: no stored or prepared commit shares the identifier of another content. */
  ghost predicate CollisionFree(s: System, c: SignedCommit) {
    && (c.commitId in s.db.commits ==> Unsigned(s.db.commits[c.commitId].record) == Unsigned(c))
    && (forall d ::
          d in s.clients && s.clients[d].prepared.Some? && s.clients[d].prepared.value.commitId == c.commitId ==>
          Unsigned(s.clients[d].prepared.value) == Unsigned(c))
  }

  function PreparedCommit(s: System, step: Step): SignedCommit
    requires step.Prepare? && step.device in s.clients
  {
    var c := s.clients[step.device];
    SignedCommit(step.commitId, s.vault, step.parents, step.device, c.deviceSequence + 1,
                 Body(c.lamport + 1, step.payload), step.signature)
  }

  ghost predicate Enabled(s: System, step: Step) {
    match step
    case ServerEvent(e) => !e.Commit?
    case Pull(d, known, heads) => d in s.clients && PullPossible(s, s.clients[d], known, heads)
    case Prepare(d, parents, _, _, _) =>
      && d in s.clients && s.clients[d].pulled && s.clients[d].prepared.None?
      && |s.clients[d].heads| <= C.MAX_COMMIT_PARENTS
      && Lists(parents, s.clients[d].heads)
      && CollisionFree(s, PreparedCommit(s, step))
    case Send(d) => d in s.clients && s.clients[d].prepared.Some?
    case Deliver(request) => request in s.requests
    case Acknowledge(reply) =>
      && reply in s.replies && reply.device in s.clients
      && s.clients[reply.device].prepared == Some(reply.commit)
    case Crash(d) => d in s.clients
  }

  ghost function Next(s: System, step: Step): System
    requires Enabled(s, step)
  {
    match step
    case ServerEvent(e) => s.(db := Apply(s.db, s.vault, e))
    case Pull(d, known, heads) =>
      var c := s.clients[d];
      var clock := if heads == {} then c.lamport else MaximumLamport(s.db, c, known);
      s.(clients := s.clients[d := c.(lamport := clock, known := known, heads := heads, pulled := true)])
    case Prepare(d, _, _, _, _) =>
      s.(clients := s.clients[d := s.clients[d].(prepared := Some(PreparedCommit(s, step)), pulled := false)])
    case Send(d) =>
      s.(requests := s.requests + {s.clients[d].prepared.value},
         clients := s.clients[d := s.clients[d].(pulled := false)])
    case Deliver(request) =>
      var out := Accept(s.db, s.vault, request.deviceId, request);
      s.(db := out.db,
         replies := s.replies + (if out.reply.Ok? then {Reply(request.deviceId, request, out.reply.value)} else {}))
    case Acknowledge(reply) =>
      var c := s.clients[reply.device];
      s.(clients := s.clients[reply.device :=
           Client(reply.commit.deviceSequence, reply.commit.body.logicalTimestamp,
                  c.known + {reply.commit.commitId}, reply.heads, None, false)])
    case Crash(d) => s.(clients := s.clients[d := s.clients[d].(pulled := false)])
  }

  /** A step that is not enabled changes nothing. */
  ghost function Execute(s: System, steps: seq<Step>): System
    decreases |steps|
  {
    if steps == [] then s
    else
      var before := Execute(s, steps[..|steps| - 1]);
      var step := steps[|steps| - 1];
      if Enabled(before, step) then Next(before, step) else before
  }

  // ----- the invariant

  ghost predicate Stored(db: Db, c: SignedCommit) {
    c.commitId in db.commits && db.commits[c.commitId].record == c
  }

  /** The server's highest sequence for the device equals the client's, or is one more while the
      client still holds the prepared commit the server stored. */
  ghost predicate SequencesAgree(db: Db, d: Id, c: Client) {
    match c.prepared
    case None => Highest(db, d) == c.deviceSequence
    case Some(p) =>
      && p.deviceId == d && p.deviceSequence == c.deviceSequence + 1
      && (if Stored(db, p) then Highest(db, d) == c.deviceSequence + 1
          else p.commitId !in db.commits && Highest(db, d) == c.deviceSequence)
  }

  /** A prepared commit has stored, known parents, all of them earlier in logical time. */
  ghost predicate WellPrepared(s: System, c: Client, p: SignedCommit) {
    && p.vaultId == s.vault && Distinct(p.parents)
    && (forall x :: x in p.parents ==> x in c.known)
    && (forall x :: x in p.parents ==> x in s.db.commits && Timestamp(s.db, x) < p.body.logicalTimestamp)
  }

  ghost predicate ClientOk(s: System, d: Id)
    requires d in s.clients
  {
    var c := s.clients[d];
    && SequencesAgree(s.db, d, c)
    && c.known <= s.db.commits.Keys && ParentClosed(s.db, c.known)
    && c.heads <= s.db.commits.Keys
    && (c.pulled ==> c.heads <= c.known && forall h :: h in c.heads ==> Timestamp(s.db, h) <= c.lamport)
    && (c.prepared.Some? ==> WellPrepared(s, c, c.prepared.value))
  }

  /** Distinct devices never hold prepared commits with one identifier. */
  ghost predicate PreparedApart(s: System) {
    forall a, b, id :: Holds(s, a, id) && Holds(s, b, id) ==> a == b
  }

  ghost predicate Holds(s: System, device: Id, id: Id) {
    device in s.clients && s.clients[device].prepared.Some? && s.clients[device].prepared.value.commitId == id
  }

  ghost predicate RequestOk(s: System, m: SignedCommit) {
    Stored(s.db, m) || (m.deviceId in s.clients && s.clients[m.deviceId].prepared == Some(m))
  }

  ghost predicate ReplyOk(s: System, r: Reply) {
    r.device == r.commit.deviceId && Stored(s.db, r.commit) && r.heads <= s.db.commits.Keys
  }

  /** Logical time increases from every stored parent to its child. */
  ghost predicate TimeIncreases(db: Db) {
    EdgesClosed(db) && forall id, p :: Edge(db, id, p) ==> Timestamp(db, p) < Timestamp(db, id)
  }

  ghost predicate Safe(s: System) {
    && Inv(s.db)
    && TimeIncreases(s.db)
    && (forall d {:trigger ClientOk(s, d)} :: d in s.clients ==> ClientOk(s, d))
    && PreparedApart(s)
    && (forall m {:trigger RequestOk(s, m)} :: m in s.requests ==> RequestOk(s, m))
    && (forall r {:trigger ReplyOk(s, r)} :: r in s.replies ==> ReplyOk(s, r))
  }

  // ----- every step keeps the invariant

  lemma StartIsSafe(vault: Id, devices: set<Id>)
    ensures Safe(Start(vault, devices))
  {
    EmptyInv();
    var s := Start(vault, devices);
    forall d | d in s.clients ensures ClientOk(s, d) {
      assert Sequences(EmptyDb, d) == {};
    }
  }

  /** A client whose own rows did not change is unaffected when rows are added. */
  lemma ClientUnaffected(s: System, t: System, d: Id)
    requires d in s.clients && d in t.clients && s.clients[d] == t.clients[d] && s.vault == t.vault
    requires ClientOk(s, d) && Extends(s.db, t.db)
    requires forall id, p :: id in s.db.commits ==> (Edge(t.db, id, p) <==> Edge(s.db, id, p))
    requires Highest(t.db, d) == Highest(s.db, d)
    requires s.clients[d].prepared.Some? ==>
               (s.clients[d].prepared.value.commitId in t.db.commits <==>
                s.clients[d].prepared.value.commitId in s.db.commits)
    ensures ClientOk(t, d)
  {}

  lemma OthersUnaffected(s: System, t: System)
    requires Safe(s) && s.vault == t.vault && s.requests <= t.requests && s.replies <= t.replies
    requires s.db == t.db && s.clients.Keys == t.clients.Keys
    ensures forall d {:trigger ClientOk(t, d)} :: d in s.clients && s.clients[d] == t.clients[d] ==> ClientOk(t, d)
    ensures forall r {:trigger ReplyOk(t, r)} :: r in s.replies ==> ReplyOk(t, r)
  {
    forall d {:trigger ClientOk(t, d)} | d in s.clients && s.clients[d] == t.clients[d] ensures ClientOk(t, d) {
      assert ClientOk(s, d);
    }
    forall r {:trigger ReplyOk(t, r)} | r in s.replies ensures ReplyOk(t, r) {
      assert ReplyOk(s, r);
    }
  }

  lemma ServerEventIsSafe(s: System, e: Event)
    requires Safe(s) && !e.Commit?
    ensures Safe(s.(db := Apply(s.db, s.vault, e)))
  {
    var t := s.(db := Apply(s.db, s.vault, e));
    ApplyKeepsInv(s.db, s.vault, e);
    assert t.db.commits == s.db.commits && t.db.edges == s.db.edges;
    assert forall id, p :: Edge(t.db, id, p) == Edge(s.db, id, p);
    forall d {:trigger ClientOk(t, d)} | d in t.clients ensures ClientOk(t, d) {
      assert ClientOk(s, d);
      assert Sequences(t.db, d) == Sequences(s.db, d);
      ClientUnaffected(s, t, d);
    }
    assert forall a, id :: Holds(t, a, id) == Holds(s, a, id);
    forall m {:trigger RequestOk(t, m)} | m in t.requests ensures RequestOk(t, m) { assert RequestOk(s, m); }
    forall r {:trigger ReplyOk(t, r)} | r in t.replies ensures ReplyOk(t, r) { assert ReplyOk(s, r); }
  }

  lemma ClientStepIsSafe(s: System, t: System, d: Id)
    requires Safe(s) && d in s.clients
    requires d in t.clients && t == s.(clients := s.clients[d := t.clients[d]])
    requires ClientOk(t, d)
    requires s.clients[d].prepared.Some? ==>
               t.clients[d].prepared == s.clients[d].prepared || Stored(s.db, s.clients[d].prepared.value)
    requires forall b, id :: Holds(t, d, id) && Holds(s, b, id) ==> b == d
    ensures Safe(t)
  {
    OthersUnaffected(s, t);
    forall x {:trigger ClientOk(t, x)} | x in t.clients ensures ClientOk(t, x) {
      if x != d { assert t.clients[x] == s.clients[x]; }
    }
    assert forall b, id :: b != d ==> Holds(t, b, id) == Holds(s, b, id);
    forall m {:trigger RequestOk(t, m)} | m in t.requests ensures RequestOk(t, m) { assert RequestOk(s, m); }
  }

  lemma PullIsSafe(s: System, step: Step)
    requires Safe(s) && step.Pull? && Enabled(s, step)
    ensures Safe(Next(s, step))
  {
    assert ClientOk(s, step.device);
    var t := Next(s, step);
    assert forall id :: Holds(t, step.device, id) == Holds(s, step.device, id);
    assert ClientOk(t, step.device);
    ClientStepIsSafe(s, t, step.device);
  }

  lemma StoredSequencesAreOld(db: Db)
    requires Inv(db)
    ensures forall id :: id in db.commits ==>
              var c := db.commits[id].record; c.deviceSequence <= Highest(db, c.deviceId)
  {
    forall id | id in db.commits
      ensures var c := db.commits[id].record; c.deviceSequence <= Highest(db, c.deviceId)
    {
      assert RowFaithful(db, id);
      assert db.commits[id].deviceSequence in Sequences(db, db.commits[id].deviceId);
    }
  }

  /** An injective hash gives a freshly prepared commit an identifier nobody else uses. */
  lemma PreparedIsFresh(s: System, step: Step)
    requires Safe(s) && step.Prepare? && Enabled(s, step)
    ensures PreparedCommit(s, step).commitId !in s.db.commits
    ensures forall b :: !Holds(s, b, PreparedCommit(s, step).commitId)
  {
    var p := PreparedCommit(s, step);
    assert ClientOk(s, step.device);
    StoredSequencesAreOld(s.db);
    forall b ensures !Holds(s, b, p.commitId) {
      if b in s.clients { assert ClientOk(s, b); }
    }
  }

  lemma PrepareIsSafe(s: System, step: Step)
    requires Safe(s) && step.Prepare? && Enabled(s, step)
    ensures Safe(Next(s, step))
  {
    var d, t, p := step.device, Next(s, step), PreparedCommit(s, step);
    assert ClientOk(s, d);
    PreparedIsFresh(s, step);
    forall x | x in p.parents ensures x in s.clients[d].heads { assert x in ToSet(p.parents); }
    assert ClientOk(t, d);
    ClientStepIsSafe(s, t, d);
  }

  lemma SendIsSafe(s: System, d: Id)
    requires Safe(s) && Enabled(s, Send(d))
    ensures Safe(Next(s, Send(d)))
  {
    var t := Next(s, Send(d));
    var quiet := s.(clients := t.clients);
    assert ClientOk(s, d);
    assert forall id :: Holds(quiet, d, id) == Holds(s, d, id);
    assert ClientOk(quiet, d);
    ClientStepIsSafe(s, quiet, d);
    forall x {:trigger ClientOk(t, x)} | x in t.clients ensures ClientOk(t, x) { assert ClientOk(quiet, x); }
    assert forall a, id :: Holds(t, a, id) == Holds(quiet, a, id);
    forall m {:trigger RequestOk(t, m)} | m in t.requests ensures RequestOk(t, m) {
      assert m in quiet.requests ==> RequestOk(quiet, m);
    }
    forall r {:trigger ReplyOk(t, r)} | r in t.replies ensures ReplyOk(t, r) { assert ReplyOk(quiet, r); }
  }

  lemma AcknowledgeIsSafe(s: System, r: Reply)
    requires Safe(s) && Enabled(s, Acknowledge(r))
    ensures Safe(Next(s, Acknowledge(r)))
  {
    var d, t := r.device, Next(s, Acknowledge(r));
    assert ClientOk(s, d) && ReplyOk(s, r);
    var id := r.commit.commitId;
    assert RowFaithful(s.db, id);
    assert ParentClosed(s.db, t.clients[d].known);
    assert ClientOk(t, d);
    ClientStepIsSafe(s, t, d);
  }

  lemma CrashIsSafe(s: System, d: Id)
    requires Safe(s) && Enabled(s, Crash(d))
    ensures Safe(Next(s, Crash(d)))
  {
    var t := Next(s, Crash(d));
    assert ClientOk(s, d);
    assert forall id :: Holds(t, d, id) == Holds(s, d, id);
    assert ClientOk(t, d);
    ClientStepIsSafe(s, t, d);
  }

  /** The tables after the server stored the prepared commit `m`, as the other parts see them. */
  ghost predicate GrewBy(db: Db, after: Db, m: SignedCommit) {
    && Inv(after) && Extends(db, after) && TimeIncreases(after)
    && after.commits.Keys == db.commits.Keys + {m.commitId} && m.commitId !in db.commits && Stored(after, m)
    && (forall id, p :: id in db.commits ==> (Edge(after, id, p) <==> Edge(db, id, p)))
    && Highest(after, m.deviceId) == m.deviceSequence
    && (forall d :: d != m.deviceId ==> Highest(after, d) == Highest(db, d))
  }

  lemma InsertGrows(s: System, m: SignedCommit)
    requires Inv(s.db) && TimeIncreases(s.db) && Admissible(s.db, s.vault, m.deviceId, m)
    requires forall x :: x in m.parents ==> x in s.db.commits && Timestamp(s.db, x) < m.body.logicalTimestamp
    ensures GrewBy(s.db, Accept(s.db, s.vault, m.deviceId, m).db, m)
  {
    var generation := ParentGeneration(s.db, m.parents);
    AcceptExactly(s.db, s.vault, m.deviceId, m);
    AcceptKeepsInv(s.db, s.vault, m.deviceId, m);
    InsertedEdges(s.db, m, generation);
    InsertedSequences(s.db, m, generation);
    NewCommitIsUnlinked(s.db, m);
  }

  lemma GrowthIsSafe(s: System, after: Db, m: SignedCommit)
    requires Safe(s) && m.deviceId in s.clients && s.clients[m.deviceId].prepared == Some(m)
    requires GrewBy(s.db, after, m)
    ensures Safe(s.(db := after))
  {
    var t := s.(db := after);
    assert Holds(s, m.deviceId, m.commitId);
    assert ClientOk(s, m.deviceId);
    forall d {:trigger ClientOk(t, d)} | d in t.clients ensures ClientOk(t, d) {
      assert ClientOk(s, d);
      if d != m.deviceId {
        assert s.clients[d].prepared.Some? ==> Holds(s, d, s.clients[d].prepared.value.commitId);
        ClientUnaffected(s, t, d);
      }
    }
    assert forall a, id :: Holds(t, a, id) == Holds(s, a, id);
    forall x {:trigger RequestOk(t, x)} | x in t.requests ensures RequestOk(t, x) { assert RequestOk(s, x); }
    forall r {:trigger ReplyOk(t, r)} | r in t.replies ensures ReplyOk(t, r) { assert ReplyOk(s, r); }
  }

  lemma DeliverIsSafe(s: System, m: SignedCommit)
    requires Safe(s) && Enabled(s, Deliver(m))
    ensures Safe(Next(s, Deliver(m)))
  {
    var out := Accept(s.db, s.vault, m.deviceId, m);
    var mid := s.(db := out.db);
    var t := Next(s, Deliver(m));
    AcceptExactly(s.db, s.vault, m.deviceId, m);
    assert RequestOk(s, m);
    if Admissible(s.db, s.vault, m.deviceId, m) {
      assert ClientOk(s, m.deviceId);
      InsertGrows(s, m);
      GrowthIsSafe(s, out.db, m);
    }
    assert Safe(mid);
    forall d {:trigger ClientOk(t, d)} | d in t.clients ensures ClientOk(t, d) { assert ClientOk(mid, d); }
    assert forall a, id :: Holds(t, a, id) == Holds(mid, a, id);
    forall x {:trigger RequestOk(t, x)} | x in t.requests ensures RequestOk(t, x) { assert RequestOk(mid, x); }
    forall r {:trigger ReplyOk(t, r)} | r in t.replies ensures ReplyOk(t, r) {
      assert r in mid.replies ==> ReplyOk(mid, r);
    }
  }

  /** Safety over every run of any number of devices. */
  lemma {:induction false} RunIsSafe(vault: Id, devices: set<Id>, steps: seq<Step>)
    ensures Safe(Execute(Start(vault, devices), steps))
    decreases |steps|
  {
    if steps == [] {
      StartIsSafe(vault, devices);
    } else {
      var before := Execute(Start(vault, devices), steps[..|steps| - 1]);
      var step := steps[|steps| - 1];
      RunIsSafe(vault, devices, steps[..|steps| - 1]);
      if Enabled(before, step) { StepIsSafe(before, step); }
    }
  }

  lemma StepIsSafe(s: System, step: Step)
    requires Safe(s) && Enabled(s, step)
    ensures Safe(Next(s, step))
  {
    match step
    case ServerEvent(e) => ServerEventIsSafe(s, e);
    case Pull(_, _, _) => PullIsSafe(s, step);
    case Prepare(_, _, _, _, _) => PrepareIsSafe(s, step);
    case Send(d) => SendIsSafe(s, d);
    case Deliver(m) => DeliverIsSafe(s, m);
    case Acknowledge(r) => AcknowledgeIsSafe(s, r);
    case Crash(d) => CrashIsSafe(s, d);
  }
}
