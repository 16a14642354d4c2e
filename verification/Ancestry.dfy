/** Reachability along parent links, defined by explicit paths. */
module Ancestry {
  import opened Basics

  /** Each commit with its parents. */
  type Dag = map<Id, seq<Id>>

  /** A walk from child to parent; `path[0]` is the descendant. */
  ghost predicate IsPath(dag: Dag, path: seq<Id>) {
    && path != []
    && forall i :: 0 <= i < |path| - 1 ==> path[i] in dag && path[i + 1] in dag[path[i]]
  }

  /** `ancestor` is `from` itself or is reached from it through parents. */
  ghost predicate Reaches(dag: Dag, from: Id, ancestor: Id) {
    exists path :: IsPath(dag, path) && path[0] == from && path[|path| - 1] == ancestor
  }

  ghost predicate Closed(dag: Dag) {
    forall id, p :: id in dag && p in dag[id] ==> p in dag
  }

  /** `rank` strictly decreases from child to parent. */
  ghost predicate Ranked(dag: Dag, rank: map<Id, nat>) {
    forall id, p :: id in dag && p in dag[id] ==> id in rank && p in rank && rank[p] < rank[id]
  }

  lemma ReachesSelf(dag: Dag, id: Id)
    ensures Reaches(dag, id, id)
  {
    assert IsPath(dag, [id]);
  }

  lemma ReachesParent(dag: Dag, from: Id, middle: Id, parent: Id)
    requires Reaches(dag, from, middle) && middle in dag && parent in dag[middle]
    ensures Reaches(dag, from, parent)
  {
    var path :| IsPath(dag, path) && path[0] == from && path[|path| - 1] == middle;
    var longer := path + [parent];
    assert IsPath(dag, longer) && longer[0] == from && longer[|longer| - 1] == parent;
  }

  lemma ReachesTransitive(dag: Dag, a: Id, b: Id, c: Id)
    requires Reaches(dag, a, b) && Reaches(dag, b, c)
    ensures Reaches(dag, a, c)
  {
    var p :| IsPath(dag, p) && p[0] == a && p[|p| - 1] == b;
    var q :| IsPath(dag, q) && q[0] == b && q[|q| - 1] == c;
    var joined := p + q[1..];
    assert forall i :: |p| - 1 <= i < |joined| ==> joined[i] == q[i - |p| + 1];
    assert IsPath(dag, joined) && joined[0] == a && joined[|joined| - 1] == c;
  }

  /** A set holding `from` and closed under parents holds everything `from` reaches. */
  lemma {:induction false} ClosureContains(dag: Dag, found: set<Id>, path: seq<Id>)
    requires IsPath(dag, path) && path[0] in found
    requires forall id, p :: id in found && id in dag && p in dag[id] ==> p in found
    ensures path[|path| - 1] in found
    decreases |path|
  {
    if |path| > 1 {
      assert path[1] in dag[path[0]];
      ClosureContains(dag, found, path[1..]);
    }
  }

  lemma ClosureIsComplete(dag: Dag, from: Id, found: set<Id>)
    requires from in found
    requires forall id, p :: id in found && id in dag && p in dag[id] ==> p in found
    ensures forall a :: Reaches(dag, from, a) ==> a in found
  {
    forall a | Reaches(dag, from, a) ensures a in found {
      var path :| IsPath(dag, path) && path[0] == from && path[|path| - 1] == a;
      ClosureContains(dag, found, path);
    }
  }

  lemma {:induction false} PathDescends(dag: Dag, rank: map<Id, nat>, path: seq<Id>)
    requires IsPath(dag, path) && Ranked(dag, rank) && |path| > 1
    ensures path[0] in rank && path[|path| - 1] in rank && rank[path[|path| - 1]] < rank[path[0]]
    decreases |path|
  {
    var child, parent := path[0], path[1];
    assert child in dag && parent in dag[child] by { assert path[0 + 1] in dag[path[0]]; }
    assert rank[parent] < rank[child];
    if |path| > 2 {
      PathDescends(dag, rank, path[1..]);
    }
  }

  /** A proper ancestor has a strictly smaller rank, so the relation is a partial order. */
  lemma AncestorsRankLower(dag: Dag, rank: map<Id, nat>, from: Id, ancestor: Id)
    requires Ranked(dag, rank) && Reaches(dag, from, ancestor) && from != ancestor
    ensures from in rank && ancestor in rank && rank[ancestor] < rank[from]
  {
    var path :| IsPath(dag, path) && path[0] == from && path[|path| - 1] == ancestor;
    PathDescends(dag, rank, path);
  }

  lemma {:induction false} PathStaysInside(dag: Dag, path: seq<Id>)
    requires IsPath(dag, path) && Closed(dag) && path[0] in dag
    ensures path[|path| - 1] in dag
    decreases |path|
  {
    ClosureContains(dag, dag.Keys, path);
  }

  lemma AncestorsAreStored(dag: Dag, from: Id, ancestor: Id)
    requires Closed(dag) && from in dag && Reaches(dag, from, ancestor)
    ensures ancestor in dag
  {
    var path :| IsPath(dag, path) && path[0] == from && path[|path| - 1] == ancestor;
    PathStaysInside(dag, path);
  }

  /** In a ranked dag whose only parentless member is `root`, every member descends from it. */
  lemma {:induction false} EverythingReachesRoot(dag: Dag, rank: map<Id, nat>, root: Id, id: Id)
    requires Closed(dag) && Ranked(dag, rank) && id in dag
    requires dag.Keys <= rank.Keys
    requires forall x :: x in dag && dag[x] == [] ==> x == root
    ensures Reaches(dag, id, root)
    decreases rank[id]
  {
    ReachesSelf(dag, id);
    if dag[id] != [] {
      var p := dag[id][0];
      assert p in dag[id];
      EverythingReachesRoot(dag, rank, root, p);
      ReachesParent(dag, id, id, p);
      ReachesTransitive(dag, id, p, root);
    }
  }
}
