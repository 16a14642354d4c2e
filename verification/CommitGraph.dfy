/** The in-memory commit graph index (crates/ll-versioning/src/graph.rs). */
module GraphIndex {
  import opened Basics
  import opened Ancestry

  datatype VersioningError =
    | CommitCollision | InvalidRoot | InvalidFormat | MissingParent | LimitExceeded | CommitNotFound

  datatype Node = Node(parents: seq<Id>, generation: nat)

  /** The value of the index. */
  datatype Graph = Graph(nodes: map<Id, Node>, heads: set<Id>)

  const EmptyGraph := Graph(map[], {})

  function DagOf(g: Graph): Dag {
    map id | id in g.nodes :: g.nodes[id].parents
  }

  function RankOf(g: Graph): map<Id, nat> {
    map id | id in g.nodes :: g.nodes[id].generation
  }

  /** Heads recomputed from the parent relation alone. */
  function Recovered(g: Graph): set<Id> {
    set id | id in g.nodes && forall child :: child in g.nodes ==> id !in g.nodes[child].parents
  }

  function NextGeneration(g: Graph, parents: seq<Id>): nat
    requires forall p :: p in parents ==> p in g.nodes
    decreases |parents|
  {
    if parents == [] then 0
    else
      var init, last := parents[..|parents| - 1], parents[|parents| - 1];
      var sofar := NextGeneration(g, init);
      if g.nodes[last].generation + 1 > sofar then g.nodes[last].generation + 1 else sofar
  }

  lemma {:induction false} NextGenerationIsMax(g: Graph, parents: seq<Id>)
    requires forall p :: p in parents ==> p in g.nodes
    ensures forall p :: p in parents ==> g.nodes[p].generation < NextGeneration(g, parents)
    ensures parents != [] ==> exists p :: p in parents && g.nodes[p].generation + 1 == NextGeneration(g, parents)
    decreases |parents|
  {
    if parents != [] {
      var init, last := parents[..|parents| - 1], parents[|parents| - 1];
      NextGenerationIsMax(g, init);
      assert parents == init + [last];
      if g.nodes[last].generation + 1 > NextGeneration(g, init) {
        assert last in parents;
      } else {
        var p :| p in init && g.nodes[p].generation + 1 == NextGeneration(g, init);
        assert p in parents;
      }
    }
  }

  datatype Inserted = Inserted(graph: Graph, result: Result<bool, VersioningError>)

  /** One call of `insert`: the index afterwards and the reply. */
  function InsertInto(g: Graph, id: Id, parents: seq<Id>): Inserted {
    if id in g.nodes then
      Inserted(g, if g.nodes[id].parents == parents then Ok(false) else Err(CommitCollision))
    else if parents == [] && g.nodes != map[] then Inserted(g, Err(InvalidRoot))
    else if !StrictlyIncreasing(parents) then Inserted(g, Err(InvalidFormat))
    else if exists p :: p in parents && p !in g.nodes then Inserted(g, Err(MissingParent))
    else if NextGeneration(g, parents) > U64_MAX then Inserted(g, Err(LimitExceeded))
    else
      Inserted(Graph(g.nodes[id := Node(parents, NextGeneration(g, parents))], g.heads - ToSet(parents) + {id}),
               Ok(true))
  }

  // ----- the invariant of every index built by insertions

  ghost predicate NodeOk(g: Graph, id: Id)
    requires id in g.nodes
  {
    && StrictlyIncreasing(g.nodes[id].parents)
    && (forall p :: p in g.nodes[id].parents ==> p in g.nodes && g.nodes[p].generation < g.nodes[id].generation)
    && (g.nodes[id].parents == [] <==> g.nodes[id].generation == 0)
  }

  ghost predicate IsRoot(g: Graph, root: Id) {
    root in g.nodes && forall id :: id in g.nodes && g.nodes[id].parents == [] ==> id == root
  }

  ghost predicate WellFormed(g: Graph) {
    && (forall id {:trigger NodeOk(g, id)} :: id in g.nodes ==> NodeOk(g, id))
    && (g.nodes != map[] ==> exists root :: IsRoot(g, root))
    && g.heads == Recovered(g)
  }

  /** The incrementally kept heads equal the recomputed heads after any insertion. */
  lemma InsertKeepsWellFormed(g: Graph, id: Id, parents: seq<Id>)
    requires WellFormed(g)
    ensures WellFormed(InsertInto(g, id, parents).graph)
  {
    var after := InsertInto(g, id, parents).graph;
    if InsertInto(g, id, parents).result == Ok(true) {
      NextGenerationIsMax(g, parents);
      forall x {:trigger NodeOk(after, x)} | x in after.nodes ensures NodeOk(after, x) {
        if x != id { assert NodeOk(g, x); }
      }
      if g.nodes == map[] {
        assert IsRoot(after, id);
      } else {
        var root :| IsRoot(g, root);
        assert IsRoot(after, root);
      }
      InsertedHeads(g, id, parents);
    }
  }

  lemma InsertedHeads(g: Graph, id: Id, parents: seq<Id>)
    requires WellFormed(g) && InsertInto(g, id, parents).result == Ok(true)
    ensures var after := InsertInto(g, id, parents).graph; after.heads == Recovered(after)
  {
    var after := InsertInto(g, id, parents).graph;
    forall x ensures x in after.heads <==> x in Recovered(after) {
      if x == id {
        forall child | child in after.nodes ensures id !in after.nodes[child].parents {
          if child != id { assert NodeOk(g, child); }
        }
      } else if x in parents {
        assert x in after.nodes[id].parents;
      } else if x in g.nodes {
        assert forall child :: child in g.nodes ==> after.nodes[child] == g.nodes[child];
      }
    }
  }

  ghost function Build(inserts: seq<(Id, seq<Id>)>): Graph
    decreases |inserts|
  {
    if inserts == [] then EmptyGraph
    else
      var last := inserts[|inserts| - 1];
      InsertInto(Build(inserts[..|inserts| - 1]), last.0, last.1).graph
  }

  /** `heads()` equals `recovered_heads()` after every sequence of insertions, failed ones included. */
  lemma {:induction false} HeadsAreRecovered(inserts: seq<(Id, seq<Id>)>)
    ensures WellFormed(Build(inserts))
    ensures Build(inserts).heads == Recovered(Build(inserts))
    decreases |inserts|
  {
    if inserts != [] {
      var last := inserts[|inserts| - 1];
      HeadsAreRecovered(inserts[..|inserts| - 1]);
      InsertKeepsWellFormed(Build(inserts[..|inserts| - 1]), last.0, last.1);
    }
  }

  lemma WellFormedIsRanked(g: Graph)
    requires WellFormed(g)
    ensures Closed(DagOf(g)) && Ranked(DagOf(g), RankOf(g))
  {
    forall id, p | id in DagOf(g) && p in DagOf(g)[id]
      ensures p in g.nodes && g.nodes[p].generation < g.nodes[id].generation
    {
      assert NodeOk(g, id);
    }
  }

  // ----- common ancestors

  ghost predicate IsCommonAncestor(dag: Dag, a: Id, left: Id, right: Id) {
    Reaches(dag, left, a) && Reaches(dag, right, a)
  }

  /** `best` is a common ancestor and no other common ancestor lies strictly below it. */
  ghost predicate BestCommonAncestor(dag: Dag, best: Id, left: Id, right: Id) {
    && IsCommonAncestor(dag, best, left, right)
    && forall a :: IsCommonAncestor(dag, a, left, right) && Reaches(dag, a, best) ==> a == best
  }

  /** Two stored commits always share an ancestor, because every commit descends from the one root. */
  lemma StoredCommitsShareRoot(g: Graph, left: Id, right: Id)
    requires WellFormed(g) && left in g.nodes && right in g.nodes
    ensures exists a :: IsCommonAncestor(DagOf(g), a, left, right)
  {
    var root :| IsRoot(g, root);
    WellFormedIsRanked(g);
    EverythingReachesRoot(DagOf(g), RankOf(g), root, left);
    EverythingReachesRoot(DagOf(g), RankOf(g), root, right);
    assert IsCommonAncestor(DagOf(g), root, left, right);
  }

  /** A list in graph order names every parent before its child. */
  lemma GraphOrderIsParentsFirst(g: Graph, ids: seq<Id>, i: nat, j: nat)
    requires WellFormed(g) && InOrder(RankOf(g), ids)
    requires i < |ids| && j < |ids| && ids[i] in g.nodes[ids[j]].parents
    ensures i < j
  {
    assert NodeOk(g, ids[j]);
    assert j < i ==> Before(RankOf(g), ids[j], ids[i]);
  }

  class CommitGraph {
    var nodes: map<Id, Node>
    var heads: set<Id>

    function Value(): Graph
      reads this
    {
      Graph(nodes, heads)
    }

    ghost predicate Valid()
      reads this
    {
      WellFormed(Value())
    }

    constructor ()
      ensures Value() == EmptyGraph && Valid()
    {
      nodes, heads := map[], {};
    }

    method Insert(id: Id, parents: seq<Id>) returns (r: Result<bool, VersioningError>)
      requires Valid()
      modifies this
      ensures Valid()
      ensures Inserted(Value(), r) == InsertInto(old(Value()), id, parents)
    {
      InsertKeepsWellFormed(Value(), id, parents);
      if id in nodes {
        return if nodes[id].parents == parents then Ok(false) else Err(CommitCollision);
      }
      if parents == [] && nodes != map[] { return Err(InvalidRoot); }
      if !StrictlyIncreasing(parents) { return Err(InvalidFormat); }
      var generation := ParentsGeneration(parents);
      if generation.Err? { return Err(generation.error); }
      var i := 0;
      while i < |parents|
        invariant 0 <= i <= |parents| && nodes == old(nodes)
        invariant heads == old(heads) - ToSet(parents[..i])
      {
        assert parents[..i + 1] == parents[..i] + [parents[i]];
        heads := heads - {parents[i]};
        i := i + 1;
      }
      assert parents[..i] == parents;
      nodes := nodes[id := Node(parents, generation.value)];
      heads := heads + {id};
      r := Ok(true);
    }

    method ParentsGeneration(parents: seq<Id>) returns (r: Result<nat, VersioningError>)
      ensures (exists p :: p in parents && p !in nodes) ==> r == Err(MissingParent)
      ensures (forall p :: p in parents ==> p in nodes) ==>
                r == if NextGeneration(Value(), parents) > U64_MAX then Err(LimitExceeded)
                     else Ok(NextGeneration(Value(), parents))
    {
      var generation := 0;
      var i := 0;
      while i < |parents|
        invariant 0 <= i <= |parents|
        invariant forall p :: p in parents[..i] ==> p in nodes
        invariant generation == NextGeneration(Value(), parents[..i])
      {
        var parent := parents[i];
        assert parents[..i + 1] == parents[..i] + [parent] && parents[..i + 1][..i] == parents[..i];
        if parent !in nodes { return Err(MissingParent); }
        if nodes[parent].generation + 1 > generation { generation := nodes[parent].generation + 1; }
        i := i + 1;
      }
      assert parents[..i] == parents;
      r := if generation > U64_MAX then Err(LimitExceeded) else Ok(generation);
    }

    method Heads() returns (sorted: seq<Id>)
      ensures Lists(sorted, heads)
    {
      sorted := SelectSorted(heads);
    }

    method RecoveredHeads() returns (sorted: seq<Id>)
      requires Valid()
      ensures Lists(sorted, heads)
    {
      var parents := set child, p | child in nodes && p in nodes[child].parents :: p;
      var unreferenced := set id | id in nodes && id !in parents;
      assert unreferenced == Recovered(Value());
      sorted := SelectSorted(unreferenced);
    }

    /** The work-queue search finds exactly the reflexive-transitive parent closure. */
    method Ancestors(start: Id) returns (found: set<Id>)
      requires Valid() && start in nodes
      ensures forall a :: a in found <==> Reaches(DagOf(Value()), start, a)
      ensures found <= nodes.Keys
    {
      ghost var dag := DagOf(Value());
      WellFormedIsRanked(Value());
      ReachesSelf(dag, start);
      found := {};
      var pending := [start];
      while pending != []
        invariant found <= nodes.Keys && forall x :: x in pending ==> x in nodes
        invariant start in found || start in pending
        invariant forall x :: x in found || x in pending ==> Reaches(dag, start, x)
        invariant forall x, p :: x in found && p in dag[x] ==> p in found || p in pending
        decreases nodes.Keys - found, |pending|
      {
        var commit := pending[0];
        assert pending == [commit] + pending[1..];
        ghost var before := pending;
        pending := pending[1..];
        if commit !in found {
          found := found + {commit};
          pending := pending + nodes[commit].parents;
          assert NodeOk(Value(), commit);
          forall p | p in dag[commit] ensures p in nodes && Reaches(dag, start, p) {
            ReachesParent(dag, start, commit, p);
          }
          assert forall x :: x in before ==> x == commit || x in pending;
        }
      }
      ClosureIsComplete(dag, start, found);
    }

    method CommonAncestor(left: Id, right: Id) returns (r: Result<Option<Id>, VersioningError>)
      requires Valid()
      ensures r.Err? <==> left !in nodes || right !in nodes
      ensures r.Err? ==> r.error == CommitNotFound
      ensures r.Ok? ==> r.value.Some? && BestCommonAncestor(DagOf(Value()), r.value.value, left, right)
    {
      if left !in nodes || right !in nodes { return Err(CommitNotFound); }
      var leftAncestors := Ancestors(left);
      var rightAncestors := Ancestors(right);
      var common := leftAncestors * rightAncestors;
      var best: Option<Id> := None;
      var rest := common;
      while rest != {}
        invariant rest <= common
        invariant best.None? <==> rest == common
        invariant best.Some? ==> best.value in common
        invariant forall x :: x in common && x !in rest && x != best.value ==> Before(RankOf(Value()), x, best.value)
        decreases rest
      {
        var x :| x in rest;
        if best.None?
          || nodes[best.value].generation < nodes[x].generation
          || (nodes[best.value].generation == nodes[x].generation && best.value < x)
        {
          best := Some(x);
        }
        rest := rest - {x};
      }
      StoredCommitsShareRoot(Value(), left, right);
      ghost var dag := DagOf(Value());
      ghost var a :| IsCommonAncestor(dag, a, left, right);
      assert a in common;
      WellFormedIsRanked(Value());
      forall a | IsCommonAncestor(dag, a, left, right) && Reaches(dag, a, best.value) ensures a == best.value {
        assert a in common;
        assert a != best.value ==> Before(RankOf(Value()), a, best.value);
        if a != best.value { AncestorsRankLower(dag, RankOf(Value()), a, best.value); }
      }
      r := Ok(best);
    }

    method MissingFrom(known: set<Id>) returns (missing: seq<Id>)
      ensures ToSet(missing) == nodes.Keys - known
      ensures InOrder(RankOf(Value()), missing)
    {
      missing := SortByRank(RankOf(Value()), nodes.Keys - known);
    }
  }
}
