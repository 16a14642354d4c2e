/** The client's search for a merge base (plugin/src/sync/pull.ts). */
module MergeBase {
  import opened Basics
  import opened Ancestry

  datatype Summary = Summary(parents: seq<Id>, logicalTimestamp: nat)

  type Commits = map<Id, Summary>

  datatype Absent = Absent(id: Id)

  function DagOf(graph: Commits): Dag {
    map id | id in graph :: graph[id].parents
  }

  function Stamps(graph: Commits): map<Id, nat> {
    map id | id in graph :: graph[id].logicalTimestamp
  }

  ghost predicate CommonAncestor(dag: Dag, a: Id, heads: seq<Id>) {
    forall h :: h in heads ==> Reaches(dag, h, a)
  }

  /** `best` is shared by all heads and no other shared ancestor descends from it. */
  ghost predicate BestCommonAncestor(dag: Dag, best: Id, heads: seq<Id>) {
    && CommonAncestor(dag, best, heads)
    && forall a :: CommonAncestor(dag, a, heads) && Reaches(dag, a, best) ==> a == best
  }

  /** Breadth-first search: exactly the head and its ancestors; it fails exactly when an ancestor
      is missing from the graph. */
  method Ancestors(head: Id, graph: Commits) returns (r: Result<set<Id>, Absent>)
    ensures r.Err? <==> exists a :: Reaches(DagOf(graph), head, a) && a !in graph
    ensures r.Ok? ==> forall a :: a in r.value <==> Reaches(DagOf(graph), head, a)
  {
    ghost var dag := DagOf(graph);
    ReachesSelf(dag, head);
    var output: set<Id> := {};
    var queue := [head];
    while queue != []
      invariant output <= graph.Keys
      invariant head in output || head in queue
      invariant forall x :: x in output || x in queue ==> Reaches(dag, head, x)
      invariant forall x, p :: x in output && p in dag[x] ==> p in output || p in queue
      decreases graph.Keys - output, |queue|
    {
      var id := queue[0];
      assert queue == [id] + queue[1..];
      ghost var before := queue;
      queue := queue[1..];
      if id !in output {
        if id !in graph { return Err(Absent(id)); }
        output := output + {id};
        queue := queue + graph[id].parents;
        forall p | p in dag[id] ensures Reaches(dag, head, p) { ReachesParent(dag, head, id, p); }
        assert forall x :: x in before ==> x == id || x in queue;
      }
    }
    ClosureIsComplete(dag, head, output);
    r := Ok(output);
  }

  /** The shared ancestor with the greatest (timestamp, id).  When timestamps increase from parent
      to child it has no other shared ancestor below it. */
  method NearestCommonAncestor(heads: seq<Id>, graph: Commits) returns (r: Result<Option<Id>, Absent>)
    ensures heads == [] ==> r == Ok(None)
    ensures r.Err? <==> exists h, a :: h in heads && Reaches(DagOf(graph), h, a) && a !in graph
    ensures r.Ok? && r.value.None? && heads != [] ==> forall a :: !CommonAncestor(DagOf(graph), a, heads)
    ensures r.Ok? && r.value.Some? ==>
              && heads != [] && CommonAncestor(DagOf(graph), r.value.value, heads) && r.value.value in graph
              && forall a :: CommonAncestor(DagOf(graph), a, heads) && a != r.value.value ==>
                   a in graph && Before(Stamps(graph), a, r.value.value)
    ensures r.Ok? && r.value.Some? && Ranked(DagOf(graph), Stamps(graph)) ==>
              BestCommonAncestor(DagOf(graph), r.value.value, heads)
  {
    ghost var dag := DagOf(graph);
    if heads == [] { return Ok(None); }
    var first := Ancestors(heads[0], graph);
    if first.Err? {
      assert heads[0] in heads;
      return Err(first.error);
    }
    var common := first.value;
    var i := 1;
    while i < |heads|
      invariant 1 <= i <= |heads|
      invariant forall a :: a in common <==> CommonAncestor(dag, a, heads[..i])
      invariant forall h, a :: h in heads[..i] && Reaches(dag, h, a) ==> a in graph
    {
      assert heads[..i + 1] == heads[..i] + [heads[i]];
      var set' := Ancestors(heads[i], graph);
      if set'.Err? {
        assert heads[i] in heads;
        return Err(set'.error);
      }
      common := set a | a in common && a in set'.value;
      i := i + 1;
    }
    assert heads[..i] == heads;
    assert common <= graph.Keys by { assert heads[0] in heads; }
    var sorted := SortByRank(Stamps(graph), common);
    if sorted == [] {
      assert common == {};
      return Ok(None);
    }
    var best := sorted[|sorted| - 1];
    LastIsGreatest(Stamps(graph), sorted);
    assert best in ToSet(sorted);
    if Ranked(dag, Stamps(graph)) {
      forall a | CommonAncestor(dag, a, heads) && Reaches(dag, a, best) ensures a == best {
        assert a in ToSet(sorted);
        if a != best { AncestorsRankLower(dag, Stamps(graph), a, best); }
      }
    }
    r := Ok(Some(best));
  }

  lemma LastIsGreatest(rank: map<Id, nat>, sorted: seq<Id>)
    requires InOrder(rank, sorted) && sorted != []
    ensures forall a ::
              a in ToSet(sorted) && a != sorted[|sorted| - 1] ==> a in rank && Before(rank, a, sorted[|sorted| - 1])
  {}
}
