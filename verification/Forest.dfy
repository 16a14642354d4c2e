/** Parent maps of learning nodes: chains of parents and cycles. */
module Forest {
  import opened Basics

  /** Each node's `ll_parent`; a parent need not be a node. */
  type Parents = map<Id, Option<Id>>

  function ParentOf(parents: Parents, id: Id): Option<Id> {
    if id in parents then parents[id] else None
  }

  /** The `k`-th parent. */
  function Follow(parents: Parents, id: Id, k: nat): Option<Id>
    decreases k
  {
    if k == 0 then Some(id)
    else
      match ParentOf(parents, id)
      case None => None
      case Some(p) => Follow(parents, p, k - 1)
  }

  /** `ancestor` is `id` or above it. */
  ghost predicate Above(parents: Parents, ancestor: Id, id: Id) {
    exists k: nat :: Follow(parents, id, k) == Some(ancestor)
  }

  ghost predicate OnCycle(parents: Parents, id: Id) {
    exists k: nat :: k > 0 && Follow(parents, id, k) == Some(id)
  }

  ghost predicate Acyclic(parents: Parents) {
    forall id: Id :: !OnCycle(parents, id)
  }

  /** The chain of parents stops. */
  ghost predicate ChainEnds(parents: Parents, id: Id) {
    exists k: nat :: Follow(parents, id, k).None?
  }

  lemma {:induction false} FollowPlus(parents: Parents, id: Id, j: nat, k: nat)
    ensures Follow(parents, id, j + k) ==
              if Follow(parents, id, j).Some? then Follow(parents, Follow(parents, id, j).value, k) else None
    decreases j
  {
    if j > 0 && ParentOf(parents, id).Some? {
      FollowPlus(parents, ParentOf(parents, id).value, j - 1, k);
    }
  }

  lemma FollowNext(parents: Parents, id: Id, k: nat)
    requires Follow(parents, id, k).Some?
    ensures Follow(parents, id, k + 1) == ParentOf(parents, Follow(parents, id, k).value)
  {
    FollowPlus(parents, id, k, 1);
    var at := Follow(parents, id, k).value;
    assert Follow(parents, at, 1) ==
        if ParentOf(parents, at).Some? then Follow(parents, ParentOf(parents, at).value, 0) else None;
  }

  lemma AboveTransitive(parents: Parents, a: Id, b: Id, c: Id)
    requires Above(parents, a, b) && Above(parents, b, c)
    ensures Above(parents, a, c)
  {
    var j: nat :| Follow(parents, c, j) == Some(b);
    var k: nat :| Follow(parents, b, k) == Some(a);
    FollowPlus(parents, c, j, k);
    assert Follow(parents, c, j + k) == Some(a);
  }

  /** The parent of a node on a cycle is on the cycle. */
  lemma CycleParent(parents: Parents, id: Id)
    requires OnCycle(parents, id)
    ensures ParentOf(parents, id).Some? && OnCycle(parents, ParentOf(parents, id).value)
    ensures Above(parents, id, ParentOf(parents, id).value)
  {
    var k: nat :| k > 0 && Follow(parents, id, k) == Some(id);
    var p := ParentOf(parents, id).value;
    assert Follow(parents, p, k - 1) == Some(id);
    FollowNext(parents, p, k - 1);
    assert Follow(parents, p, k) == Some(p);
  }

  /** Everything above a node on a cycle is on the cycle too, and below it. */
  lemma {:induction false} CycleAbove(parents: Parents, id: Id, k: nat)
    requires OnCycle(parents, id)
    ensures Follow(parents, id, k).Some? && OnCycle(parents, Follow(parents, id, k).value)
    ensures Above(parents, id, Follow(parents, id, k).value)
    decreases k
  {
    if k == 0 {
      assert Follow(parents, id, 0) == Some(id);
    } else {
      CycleAbove(parents, id, k - 1);
      var at := Follow(parents, id, k - 1).value;
      FollowNext(parents, id, k - 1);
      CycleParent(parents, at);
      AboveTransitive(parents, id, at, ParentOf(parents, at).value);
    }
  }

  /** A chain that meets a cycle does not end. */
  lemma CycleDoesNotEnd(parents: Parents, id: Id, j: nat)
    requires Follow(parents, id, j).Some? && OnCycle(parents, Follow(parents, id, j).value)
    ensures !ChainEnds(parents, id)
  {
    var at := Follow(parents, id, j).value;
    forall k: nat ensures Follow(parents, id, k).Some? {
      if k >= j {
        FollowPlus(parents, id, j, k - j);
        CycleAbove(parents, at, k - j);
      } else {
        FollowPlus(parents, id, k, j - k);
      }
    }
  }

  // ----- the visited loop

  /** The identifiers a chain can run through. */
  function Universe(parents: Parents, id: Id): set<Id> {
    {id} + parents.Keys + set c | c in parents && parents[c].Some? :: parents[c].value
  }

  lemma {:induction false} FollowStaysInside(parents: Parents, id: Id, k: nat)
    ensures Follow(parents, id, k).Some? ==> Follow(parents, id, k).value in Universe(parents, id)
    decreases k
  {
    if k > 0 {
      if Follow(parents, id, k - 1).Some? {
        FollowStaysInside(parents, id, k - 1);
        FollowNext(parents, id, k - 1);
      } else {
        FollowPlus(parents, id, k - 1, 1);
      }
    }
  }

  ghost predicate At(parents: Parents, id: Id, j: nat, v: Id) {
    Follow(parents, id, j) == Some(v)
  }

  /** The chain up to `i` runs through exactly the visited identifiers. */
  ghost predicate Walked(parents: Parents, id: Id, i: nat, visited: set<Id>) {
    && (forall j: nat, v: Id :: j < i && At(parents, id, j, v) ==> v in visited)
    && (forall v :: v in visited ==> exists j: nat :: j < i && At(parents, id, j, v))
  }

  /** Once the chain comes back to a visited identifier it never leaves the visited ones. */
  lemma {:induction false} WalkIsClosed(parents: Parents, id: Id, i: nat, visited: set<Id>, k: nat)
    requires Walked(parents, id, i, visited)
    requires Follow(parents, id, i).Some? && Follow(parents, id, i).value in visited
    ensures Follow(parents, id, k).Some? && Follow(parents, id, k).value in visited
    decreases k
  {
    if k < i {
      FollowPlus(parents, id, k, i - k);
      assert At(parents, id, k, Follow(parents, id, k).value);
    } else if k > i {
      WalkIsClosed(parents, id, i, visited, k - 1);
      var v := Follow(parents, id, k - 1).value;
      var j: nat :| j < i && At(parents, id, j, v);
      FollowNext(parents, id, j);
      FollowNext(parents, id, k - 1);
      if j + 1 < i {
        FollowPlus(parents, id, j + 1, i - j - 1);
        assert At(parents, id, j + 1, Follow(parents, id, j + 1).value);
      }
    }
  }

  /** A chain that passes one identifier twice is on a cycle there. */
  lemma ReturnIsCycle(parents: Parents, id: Id, j: nat, i: nat, at: Id)
    requires j < i && At(parents, id, j, at) && At(parents, id, i, at)
    ensures OnCycle(parents, at)
  {
    FollowPlus(parents, id, j, i - j);
    var k: nat := i - j;
    assert k > 0 && Follow(parents, at, k) == Some(at);
  }

  lemma WalkedNext(parents: Parents, id: Id, i: nat, visited: set<Id>, at: Id)
    requires Walked(parents, id, i, visited) && At(parents, id, i, at)
    ensures Walked(parents, id, i + 1, visited + {at})
  {}

  /** A chain ends exactly when it meets no cycle; so in an acyclic map every chain ends. */
  lemma ChainEndsExactly(parents: Parents, id: Id)
    ensures ChainEnds(parents, id) <==> forall a: Id :: Above(parents, a, id) ==> !OnCycle(parents, a)
  {
    if a: Id :| Above(parents, a, id) && OnCycle(parents, a) {
      var j: nat :| Follow(parents, id, j) == Some(a);
      CycleDoesNotEnd(parents, id, j);
    } else {
      var i, visited := 0, {};
      while Follow(parents, id, i).Some?
        invariant Walked(parents, id, i, visited) && visited <= Universe(parents, id)
        decreases Universe(parents, id) - visited
      {
        var at := Follow(parents, id, i).value;
        assert Above(parents, at, id);
        if at in visited {
          var j: nat :| j < i && At(parents, id, j, at);
          ReturnIsCycle(parents, id, j, i, at);
        }
        FollowStaysInside(parents, id, i);
        WalkedNext(parents, id, i, visited, at);
        visited, i := visited + {at}, i + 1;
      }
    }
  }

  // ----- redirecting parents

  /** While no redirected node is met, the two chains agree. */
  lemma {:induction false} SameChain(before: Parents, after: Parents, changed: set<Id>, id: Id, k: nat)
    requires forall c :: c !in changed ==> ParentOf(before, c) == ParentOf(after, c)
    requires forall j: nat :: j < k && Follow(before, id, j).Some? ==> Follow(before, id, j).value !in changed
    ensures Follow(after, id, k) == Follow(before, id, k)
    decreases k
  {
    if k > 0 {
      SameChain(before, after, changed, id, k - 1);
      if Follow(before, id, k - 1).Some? {
        FollowNext(before, id, k - 1);
        FollowNext(after, id, k - 1);
      } else {
        FollowPlus(before, id, k - 1, 1);
        FollowPlus(after, id, k - 1, 1);
      }
    }
  }

  /** The first redirected node on the chain, if there is one within `k` steps. */
  lemma {:induction false} FirstChanged(parents: Parents, changed: set<Id>, id: Id, k: nat) returns (first: Option<nat>)
    ensures first.Some? ==>
              && first.value < k && Follow(parents, id, first.value).Some?
              && Follow(parents, id, first.value).value in changed
              && forall j: nat :: j < first.value && Follow(parents, id, j).Some? ==>
                  Follow(parents, id, j).value !in changed
    ensures first.None? ==>
              forall j: nat :: j < k && Follow(parents, id, j).Some? ==> Follow(parents, id, j).value !in changed
    decreases k
  {
    if k == 0 { return None; }
    first := FirstChanged(parents, changed, id, k - 1);
    if first.None? && Follow(parents, id, k - 1).Some? && Follow(parents, id, k - 1).value in changed {
      first := Some(k - 1);
    }
  }

  /** All redirected nodes got the parent `target`. */
  ghost predicate Redirected(before: Parents, after: Parents, changed: set<Id>, target: Id) {
    && (forall c :: c !in changed ==> ParentOf(before, c) == ParentOf(after, c))
    && (forall c :: c in changed ==> ParentOf(after, c) == Some(target))
  }

  /** A cycle after the redirection runs through a redirected node above which `target` was already. */
  lemma NewCycle(before: Parents, after: Parents, changed: set<Id>, target: Id, id: Id)
    requires Acyclic(before) && Redirected(before, after, changed, target) && OnCycle(after, id)
    ensures exists c: Id :: c in changed && Above(before, c, target)
  {
    var k: nat :| k > 0 && Follow(after, id, k) == Some(id);
    var first := FirstChanged(after, changed, id, k);
    if first.None? {
      SameChain(after, before, changed, id, k);
      assert OnCycle(before, id);
      assert false;
    } else {
      var c := Follow(after, id, first.value).value;
      CycleAbove(after, id, first.value);
      CycleParent(after, c);
      assert ParentOf(after, c) == Some(target);
      var n: nat :| Follow(after, target, n) == Some(c);
      var hit := FirstChanged(after, changed, target, n);
      var m := if hit.Some? then hit.value else n;
      SameChain(after, before, changed, target, m);
      assert Follow(before, target, m) == Follow(after, target, m);
    }
  }

  /** If `target` is below a redirected node, the redirection closes a cycle through `target`. */
  lemma RedirectionCloses(before: Parents, after: Parents, changed: set<Id>, target: Id, c: Id)
    requires Redirected(before, after, changed, target) && c in changed && Above(before, c, target)
    ensures OnCycle(after, target)
  {
    var n: nat :| Follow(before, target, n) == Some(c);
    var hit := FirstChanged(before, changed, target, n);
    var m := if hit.Some? then hit.value else n;
    SameChain(before, after, changed, target, m);
    var d := Follow(before, target, m).value;
    FollowNext(after, target, m);
    assert Follow(after, target, m + 1) == Some(target);
  }

  /** Redirecting nodes to `target` keeps the map acyclic exactly when `target` is below none of them. */
  lemma RedirectionExactly(before: Parents, after: Parents, changed: set<Id>, target: Id)
    requires Acyclic(before) && Redirected(before, after, changed, target)
    ensures Acyclic(after) <==> forall c :: c in changed ==> !Above(before, c, target)
  {
    if c :| c in changed && Above(before, c, target) {
      RedirectionCloses(before, after, changed, target, c);
    } else if !Acyclic(after) {
      var id: Id :| OnCycle(after, id);
      NewCycle(before, after, changed, target, id);
    }
  }

  /** Dropping a parent closes no cycle. */
  lemma DetachingKeepsAcyclic(parents: Parents, node: Id)
    requires Acyclic(parents)
    ensures Acyclic(parents[node := None])
  {
    var after := parents[node := None];
    forall id: Id ensures !OnCycle(after, id) {
      if OnCycle(after, id) {
        var k: nat :| k > 0 && Follow(after, id, k) == Some(id);
        forall j: nat | j < k && Follow(after, id, j).Some? ensures Follow(after, id, j).value != node {
          CycleAbove(after, id, j);
          CycleParent(after, Follow(after, id, j).value);
        }
        SameChain(after, parents, {node}, id, k);
        assert OnCycle(parents, id);
      }
    }
  }
}
