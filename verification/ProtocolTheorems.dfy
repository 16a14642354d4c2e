/** What the protocol invariant means for the devices, stated over every run. */
module ProtocolTheorems {
  import opened Basics
  import opened Ancestry
  import opened CommitStore
  import opened CommitRuns
  import opened Protocol
  import M = MergeBase

  /** The server stands where the device stands; a commit the device holds is the next one. */
  ghost predicate NothingPublished(db: Db, d: Id, c: Client) {
    && Highest(db, d) == c.deviceSequence
    && (c.prepared.Some? ==> c.prepared.value.deviceSequence == c.deviceSequence + 1)
    && (c.prepared.Some? ==> c.prepared.value.commitId !in db.commits)
  }

  /** The server is one ahead and its record is exactly the commit the device still holds. */
  ghost predicate AwaitingReply(db: Db, d: Id, c: Client) {
    && Highest(db, d) == c.deviceSequence + 1
    && c.prepared.Some?
    && c.prepared.value.commitId in db.commits
    && db.commits[c.prepared.value.commitId].record == c.prepared.value
  }

  /** Over every run, the server's highest sequence for a device is the device's own, or one more
      while the device holds a prepared commit that is, byte for byte, the record stored. */
  lemma PublicationAgrees(vault: Id, devices: set<Id>, steps: seq<Step>, d: Id)
    requires d in devices
    ensures var s := Execute(Start(vault, devices), steps);
            d in s.clients && (NothingPublished(s.db, d, s.clients[d]) || AwaitingReply(s.db, d, s.clients[d]))
  {
    RunIsSafe(vault, devices, steps);
    ClientsPersist(Start(vault, devices), steps);
    assert ClientOk(Execute(Start(vault, devices), steps), d);
  }

  lemma {:induction false} ClientsPersist(s: System, steps: seq<Step>)
    ensures Execute(s, steps).clients.Keys == s.clients.Keys && Execute(s, steps).vault == s.vault
    decreases |steps|
  {
    if steps != [] { ClientsPersist(s, steps[..|steps| - 1]); }
  }

  function UpTo(db: Db, d: Id, n: nat): set<Id> {
    set id | id in db.commits && db.commits[id].deviceId == d && db.commits[id].deviceSequence <= n
  }

  lemma {:induction false} HighestAtMostCount(db: Db, d: Id, n: nat)
    requires SequencesDense(db) && n <= Highest(db, d)
    ensures |UpTo(db, d, n)| >= n
    decreases n
  {
    if n > 0 {
      HighestAtMostCount(db, d, n - 1);
      assert n in Sequences(db, d);
      var id :| id in db.commits && db.commits[id].deviceId == d && db.commits[id].deviceSequence == n;
      SubsetSize(UpTo(db, d, n - 1) + {id}, UpTo(db, d, n));
    }
  }

  /** Sequence numbers never run out: they are bounded by the number of stored commits. */
  lemma SequencesFit(db: Db, d: Id)
    requires Inv(db)
    ensures Highest(db, d) + 1 <= I64_MAX
  {
    HighestAtMostCount(db, d, Highest(db, d));
    SubsetSize(UpTo(db, d, Highest(db, d)), db.commits.Keys);
  }

  /** The conditions under which a (re)sent prepared commit is refused; none is about its sequence
      number, its parents, or a different record under the same identifier. */
  ghost predicate Blocked(s: System, d: Id, p: SignedCommit) {
    || d !in s.db.devices || !s.db.devices[d]
    || (!Stored(s.db, p) &&
          (|| |s.db.commits| >= MAX_COMMITS_PER_VAULT
           || ((s.db.commits == map[]) != (p.parents == []))
           || |s.db.heads - ToSet(p.parents) + {p.commitId}| > MAX_HEADS))
  }

  /** A retry succeeds exactly when it is not blocked: in particular never because of its sequence. */
  lemma RetrySucceedsExactly(s: System, d: Id)
    requires Safe(s) && d in s.clients && s.clients[d].prepared.Some?
    ensures var p := s.clients[d].prepared.value;
            && (Accept(s.db, s.vault, d, p).reply.Ok? <==> !Blocked(s, d, p))
            && (Accept(s.db, s.vault, d, p).reply.Ok? ==> Stored(Accept(s.db, s.vault, d, p).db, p))
  {
    var p := s.clients[d].prepared.value;
    assert ClientOk(s, d);
    AcceptExactly(s.db, s.vault, d, p);
    SequencesFit(s.db, d);
  }

  /** If another device's root was stored first, a prepared root commit is refused in every future
      state: the store never becomes empty again, and the device keeps retrying the same bytes. */
  lemma {:induction false} LateRootIsRefusedForever(s: System, d: Id, steps: seq<Step>)
    requires Safe(s) && d in s.clients && s.clients[d].prepared.Some?
    requires s.clients[d].prepared.value.parents == [] && !Stored(s.db, s.clients[d].prepared.value)
    requires s.db.commits != map[]
    ensures var t := Execute(s, steps);
            && Safe(t) && d in t.clients && t.clients[d].prepared == s.clients[d].prepared
            && t.db.commits != map[] && !Stored(t.db, s.clients[d].prepared.value)
            && Accept(t.db, t.vault, d, s.clients[d].prepared.value).reply.Err?
    decreases |steps|
  {
    var p := s.clients[d].prepared.value;
    if steps != [] {
      var before := Execute(s, steps[..|steps| - 1]);
      var step := steps[|steps| - 1];
      LateRootIsRefusedForever(s, d, steps[..|steps| - 1]);
      if Enabled(before, step) {
        StepIsSafe(before, step);
        LateRootStep(before, step, d, p);
      }
    }
    var t := Execute(s, steps);
    assert Blocked(t, d, p);
    RetrySucceedsExactly(t, d);
  }

  lemma LateRootStep(s: System, step: Step, d: Id, p: SignedCommit)
    requires Safe(s) && Enabled(s, step) && d in s.clients && s.clients[d].prepared == Some(p)
    requires p.parents == [] && !Stored(s.db, p) && s.db.commits != map[]
    ensures var t := Next(s, step);
            t.clients[d].prepared == Some(p) && t.db.commits != map[] && !Stored(t.db, p)
  {
    assert ClientOk(s, d);
    match step
    case Deliver(m) =>
      AcceptExactly(s.db, s.vault, m.deviceId, m);
      if Admissible(s.db, s.vault, m.deviceId, m) { assert m.parents != [] && m != p; }
    case Acknowledge(r) => assert ReplyOk(s, r);
    case ServerEvent(e) =>
    case Pull(_, _, _) =>
    case Prepare(_, _, _, _, _) =>
    case Send(_) =>
    case Crash(_) =>
  }

  // ----- logical time and merge bases

  function StoredDag(db: Db): Dag {
    map id | id in db.commits :: db.commits[id].record.parents
  }

  function StoredTime(db: Db): map<Id, nat> {
    map id | id in db.commits :: db.commits[id].record.body.logicalTimestamp
  }

  lemma StoredIsRanked(db: Db)
    requires Inv(db) && TimeIncreases(db)
    ensures Ranked(StoredDag(db), StoredTime(db)) && Closed(StoredDag(db))
  {
    forall id, p | id in StoredDag(db) && p in StoredDag(db)[id]
      ensures p in db.commits && Timestamp(db, p) < Timestamp(db, id)
    {
      assert RowFaithful(db, id) && Edge(db, id, p);
    }
  }

  /** Over every run, an accepted commit is strictly later than all its ancestors. */
  lemma AncestorsAreEarlier(vault: Id, devices: set<Id>, steps: seq<Step>, id: Id, ancestor: Id)
    requires id in Execute(Start(vault, devices), steps).db.commits
    requires Reaches(StoredDag(Execute(Start(vault, devices), steps).db), id, ancestor) && ancestor != id
    ensures var db := Execute(Start(vault, devices), steps).db;
            ancestor in db.commits && Timestamp(db, ancestor) < Timestamp(db, id)
  {
    var db := Execute(Start(vault, devices), steps).db;
    RunIsSafe(vault, devices, steps);
    StoredIsRanked(db);
    AncestorsRankLower(StoredDag(db), StoredTime(db), id, ancestor);
  }

  /** The commit summaries a device keeps. */
  function KnownCommits(db: Db, known: set<Id>): M.Commits
    requires known <= db.commits.Keys
  {
    map id | id in known :: M.Summary(db.commits[id].record.parents, db.commits[id].record.body.logicalTimestamp)
  }

  lemma KnownIsRanked(db: Db, known: set<Id>)
    requires Inv(db) && TimeIncreases(db) && known <= db.commits.Keys && ParentClosed(db, known)
    ensures var graph := KnownCommits(db, known);
            Closed(M.DagOf(graph)) && Ranked(M.DagOf(graph), M.Stamps(graph))
  {
    var graph := KnownCommits(db, known);
    forall id, p | id in graph && p in M.DagOf(graph)[id]
      ensures p in graph && M.Stamps(graph)[p] < M.Stamps(graph)[id]
    {
      assert RowFaithful(db, id) && Edge(db, id, p);
    }
  }

  /** All known commits descend from the single stored root. */
  lemma KnownShareRoot(db: Db, known: set<Id>, root: Id)
    requires Inv(db) && TimeIncreases(db) && known <= db.commits.Keys && ParentClosed(db, known) && RootRow(db, root)
    ensures forall id :: id in known ==> Reaches(M.DagOf(KnownCommits(db, known)), id, root)
  {
    var graph := KnownCommits(db, known);
    KnownIsRanked(db, known);
    forall x | x in graph && M.DagOf(graph)[x] == [] ensures x == root {
      assert RowFaithful(db, x) && Graded(db, x);
      assert forall p :: !Edge(db, x, p);
      assert RootRow(db, x);
    }
    forall id | id in known ensures Reaches(M.DagOf(graph), id, root) {
      EverythingReachesRoot(M.DagOf(graph), M.Stamps(graph), root, id);
    }
  }

  /** In every reachable state, the merge base a device computes for heads it knows exists, is
      shared by all of them, and has no other shared ancestor below it. */
  method MergeBaseOfReachableState(ghost vault: Id, ghost devices: set<Id>, ghost steps: seq<Step>, ghost d: Id,
                                   graph: M.Commits, heads: seq<Id>)
    returns (base: Id)
    requires d in Execute(Start(vault, devices), steps).clients
    requires var s := Execute(Start(vault, devices), steps); s.clients[d].known <= s.db.commits.Keys
    requires var s := Execute(Start(vault, devices), steps); graph == KnownCommits(s.db, s.clients[d].known)
    requires heads != [] && forall h :: h in heads ==> h in graph
    ensures M.BestCommonAncestor(M.DagOf(graph), base, heads)
  {
    ghost var s := Execute(Start(vault, devices), steps);
    ghost var known := s.clients[d].known;
    RunIsSafe(vault, devices, steps);
    assert ClientOk(s, d);
    KnownIsRanked(s.db, known);
    ghost var dag := M.DagOf(graph);
    forall h, a | h in heads && Reaches(dag, h, a) ensures a in graph { AncestorsAreStored(dag, h, a); }
    assert heads[0] in heads;
    ghost var root :| RootRow(s.db, root);
    KnownShareRoot(s.db, known, root);
    assert M.CommonAncestor(dag, root, heads);
    var found := M.NearestCommonAncestor(heads, graph);
    base := found.value.value;
  }
}
