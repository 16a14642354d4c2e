/** The SQL commit tables and the in-memory index accept the same graph insertions. */
module StoreRefinesGraph {
  import opened Basics
  import S = CommitStore
  import R = CommitRuns
  import G = GraphIndex

  /** The index holds exactly the stored commits, with the same parents, generations and heads. */
  ghost predicate Mirrors(g: G.Graph, db: S.Db) {
    && g.nodes.Keys == db.commits.Keys
    && (forall id {:trigger db.commits[id]} {:trigger g.nodes[id]} :: id in db.commits ==>
          g.nodes[id] == G.Node(db.commits[id].record.parents, db.commits[id].generation))
    && g.heads == db.heads
  }

  lemma GenerationsAgree(g: G.Graph, db: S.Db, parents: seq<Id>)
    requires Mirrors(g, db) && forall p :: p in parents ==> p in db.commits
    ensures G.NextGeneration(g, parents) == S.ParentGeneration(db, parents)
  {
    G.NextGenerationIsMax(g, parents);
    R.ParentGenerationIsNext(db, parents);
    if parents != [] {
      var a :| a in parents && g.nodes[a].generation + 1 == G.NextGeneration(g, parents);
      var b :| b in parents && db.commits[b].generation + 1 == S.ParentGeneration(db, parents);
      assert db.commits[a].generation < S.ParentGeneration(db, parents);
      assert g.nodes[b].generation < G.NextGeneration(g, parents);
    }
  }

  /** The rules of `accept_commit` that are not about the graph. */
  ghost predicate Permitted(db: S.Db, vault: Id, session: Id, c: S.SignedCommit) {
    && session in db.devices && db.devices[session] && c.deviceId == session && c.vaultId == vault
    && |db.commits| < S.MAX_COMMITS_PER_VAULT
    && S.SequenceAccepted(db, session, c.deviceSequence)
    && |db.heads - ToSet(c.parents) + {c.commitId}| <= S.MAX_HEADS
  }

  lemma InsertedMirrors(g: G.Graph, db: S.Db, c: S.SignedCommit, generation: nat)
    requires Mirrors(g, db) && c.commitId !in db.commits
    ensures Mirrors(G.Graph(g.nodes[c.commitId := G.Node(c.parents, generation)],
                            g.heads - ToSet(c.parents) + {c.commitId}),
                    S.Inserted(db, c, generation))
  {}

  lemma IndexInserts(g: G.Graph, db: S.Db, c: S.SignedCommit)
    requires S.Inv(db) && Mirrors(g, db) && StrictlyIncreasing(c.parents) && c.commitId !in db.commits
    ensures G.InsertInto(g, c.commitId, c.parents).result == Ok(true) <==>
              (c.parents == [] ==> db.commits == map[]) && forall p :: p in c.parents ==> p in db.commits
    ensures G.InsertInto(g, c.commitId, c.parents).result != Ok(true) ==>
              G.InsertInto(g, c.commitId, c.parents).graph == g
  {
    if forall p :: p in c.parents ==> p in db.commits {
      GenerationsAgree(g, db, c.parents);
      R.ParentGenerationBound(db, c.parents);
    }
  }

  lemma PermittedAdmits(db: S.Db, vault: Id, session: Id, c: S.SignedCommit)
    requires Permitted(db, vault, session, c) && Distinct(c.parents) && c.commitId !in db.commits
    ensures R.Admissible(db, vault, session, c) <==>
              (c.parents == [] ==> db.commits == map[]) && forall p :: p in c.parents ==> p in db.commits
  {
    if c.parents != [] { assert c.parents[0] in c.parents; }
  }

  lemma AdmissibleMirrors(g: G.Graph, db: S.Db, vault: Id, session: Id, c: S.SignedCommit)
    requires S.Inv(db) && Mirrors(g, db) && R.Admissible(db, vault, session, c)
    requires G.InsertInto(g, c.commitId, c.parents).result == Ok(true)
    ensures Mirrors(G.InsertInto(g, c.commitId, c.parents).graph, S.Accept(db, vault, session, c).db)
  {
    R.AcceptExactly(db, vault, session, c);
    GenerationsAgree(g, db, c.parents);
    InsertedMirrors(g, db, c, S.ParentGeneration(db, c.parents));
  }

  /** For a permitted new commit, the store accepts exactly when the index inserts, and the two
      results mirror each other. */
  lemma NewCommitAgrees(g: G.Graph, db: S.Db, vault: Id, session: Id, c: S.SignedCommit)
    requires S.Inv(db) && Mirrors(g, db) && StrictlyIncreasing(c.parents) && c.commitId !in db.commits
    requires Permitted(db, vault, session, c)
    ensures S.Accept(db, vault, session, c).reply.Ok? <==> G.InsertInto(g, c.commitId, c.parents).result == Ok(true)
    ensures Mirrors(G.InsertInto(g, c.commitId, c.parents).graph, S.Accept(db, vault, session, c).db)
  {
    R.AcceptExactly(db, vault, session, c);
    IndexInserts(g, db, c);
    PermittedAdmits(db, vault, session, c);
    if R.Admissible(db, vault, session, c) { AdmissibleMirrors(g, db, vault, session, c); }
  }

  /** A commit the store takes is one the index takes; a commit the index refuses the store refuses. */
  lemma AcceptRefinesInsert(g: G.Graph, db: S.Db, vault: Id, session: Id, c: S.SignedCommit)
    requires S.Inv(db) && Mirrors(g, db) && StrictlyIncreasing(c.parents)
    ensures S.Accept(db, vault, session, c).reply.Ok? ==>
              && G.InsertInto(g, c.commitId, c.parents).result == Ok(c.commitId !in db.commits)
              && Mirrors(G.InsertInto(g, c.commitId, c.parents).graph, S.Accept(db, vault, session, c).db)
    ensures S.Accept(db, vault, session, c).reply.Err? ==> Mirrors(g, S.Accept(db, vault, session, c).db)
  {
    R.AcceptExactly(db, vault, session, c);
    if R.Admissible(db, vault, session, c) {
      NewCommitAgrees(g, db, vault, session, c);
    }
  }

  /** The index obtained by inserting the commits the server stored, in order. */
  ghost function Replay(vault: Id, events: seq<R.Event>): G.Graph
    decreases |events|
  {
    if events == [] then G.EmptyGraph
    else
      var sofar := Replay(vault, events[..|events| - 1]);
      var e := events[|events| - 1];
      var db := R.Run(S.EmptyDb, vault, events[..|events| - 1]);
      if e.Commit? && S.Accept(db, vault, e.session, e.commit).reply.Ok?
      then G.InsertInto(sofar, e.commit.commitId, e.commit.parents).graph
      else sofar
  }

  /** Over every run the server tables and a client index fed with the stored commits agree:
      same commits, same parents, same generations, same heads. */
  lemma {:induction false} RunRefinesGraph(vault: Id, events: seq<R.Event>)
    requires forall e :: e in events && e.Commit? ==> StrictlyIncreasing(e.commit.parents)
    ensures Mirrors(Replay(vault, events), R.Run(S.EmptyDb, vault, events))
    ensures G.WellFormed(Replay(vault, events))
    decreases |events|
  {
    if events != [] {
      var before := events[..|events| - 1];
      var e := events[|events| - 1];
      RunRefinesGraph(vault, before);
      R.RunKeepsInv(vault, before);
      if e.Commit? {
        AcceptRefinesInsert(Replay(vault, before), R.Run(S.EmptyDb, vault, before), vault, e.session, e.commit);
        G.InsertKeepsWellFormed(Replay(vault, before), e.commit.commitId, e.commit.parents);
      }
    }
  }
}
