/** Moving and merging learning nodes (plugin/src/learning/service.ts). */
module LearningServices {
  import opened Basics
  import opened Forest

  datatype Refusal = OtherTopic | WouldCreateCycle | SameNode

  /** The parents after merging `source` into `target`: the children of `source` move to `target`. */
  function Adopted(parents: Parents, source: Id, target: Id): Parents {
    map id | id in parents :: if parents[id] == Some(source) then Some(target) else parents[id]
  }

  /** The properties of the node files. */
  class LearningService {
    var parents: Parents
    var topics: map<Id, Id>
    var orders: map<Id, int>
    var mergedInto: map<Id, Id>

    ghost predicate Valid()
      reads this
    {
      topics.Keys == parents.Keys && orders.Keys == parents.Keys
    }

    /** Also true of the node itself; terminates on any parent map. */
    method IsDescendant(candidate: Id, ancestor: Id) returns (r: bool)
      ensures r <==> Above(parents, ancestor, candidate)
    {
      var cursor := Some(candidate);
      var visited := {};
      ghost var i := 0;
      while cursor.Some? && cursor.value !in visited
        invariant cursor == Follow(parents, candidate, i)
        invariant Walked(parents, candidate, i, visited) && ancestor !in visited
        invariant visited <= Universe(parents, candidate)
        decreases Universe(parents, candidate) - visited
      {
        if cursor.value == ancestor { return true; }
        FollowStaysInside(parents, candidate, i);
        WalkedNext(parents, candidate, i, visited, cursor.value);
        FollowNext(parents, candidate, i);
        visited := visited + {cursor.value};
        cursor := ParentOf(parents, cursor.value);
        i := i + 1;
      }
      WalkMisses(parents, candidate, ancestor, i, visited);
      r := false;
    }

    /** One more than every sibling's order. */
    method NextSiblingOrder(topic: Id, parent: Option<Id>) returns (order: int)
      requires Valid()
      ensures order >= 0
      ensures forall s :: s in parents && topics[s] == topic && parents[s] == parent ==> orders[s] < order
      ensures order == 0 || exists s ::
                s in parents && topics[s] == topic && parents[s] == parent && orders[s] == order - 1
    {
      var maximum := -1;
      var rest := parents.Keys;
      while rest != {}
        invariant rest <= parents.Keys && maximum >= -1
        invariant forall s ::
                    s in parents && s !in rest && topics[s] == topic && parents[s] == parent ==> orders[s] <= maximum
        invariant maximum == -1 || exists s ::
                    s in parents && topics[s] == topic && parents[s] == parent && orders[s] == maximum
        decreases rest
      {
        var s :| s in rest;
        rest := rest - {s};
        if topics[s] == topic && parents[s] == parent && orders[s] > maximum { maximum := orders[s]; }
      }
      order := maximum + 1;
    }

    /** A move is refused exactly when it would leave the topic or close a cycle; otherwise the node becomes the
        last child of its new parent and the map stays acyclic. */
    method MoveNode(node: Id, newParent: Option<Id>) returns (r: Result<bool, Refusal>)
      requires Valid() && node in parents && (newParent.Some? ==> newParent.value in parents)
      modifies this`parents, this`orders
      ensures Valid()
      ensures r == Err(OtherTopic) <==> newParent.Some? && topics[newParent.value] != topics[node]
      ensures r == Err(WouldCreateCycle) <==>
              newParent.Some? && topics[newParent.value] == topics[node] && Above(old(parents), node, newParent.value)
      ensures r.Err? ==> parents == old(parents) && orders == old(orders)
      ensures r.Ok? ==> parents == old(parents)[node := newParent] && orders == old(orders)[node := orders[node]]
      ensures r.Ok? ==>
                forall s :: s in parents && s != node && topics[s] == topics[node] && parents[s] == newParent ==>
                          orders[s] < orders[node]
      ensures old(Acyclic(parents)) ==> Acyclic(parents)
      ensures old(Acyclic(parents)) && r == Err(WouldCreateCycle) ==> !Acyclic(old(parents)[node := newParent])
    {
      if newParent.Some? {
        if topics[newParent.value] != topics[node] { return Err(OtherTopic); }
        MoveExactly(parents, node, newParent.value);
        var descendant := IsDescendant(newParent.value, node);
        if newParent.value == node || descendant {
          assert Follow(parents, node, 0) == Some(node);
          return Err(WouldCreateCycle);
        }
      } else {
        if Acyclic(parents) { DetachingKeepsAcyclic(parents, node); }
      }
      var order := NextSiblingOrder(topics[node], newParent);
      parents := parents[node := newParent];
      orders := orders[node := order];
      r := Ok(true);
    }

    /** The merge keeps an acyclic map acyclic exactly when `target` is not below `source`; it does not check. */
    method MergeNodes(source: Id, target: Id) returns (r: Result<bool, Refusal>)
      requires Valid() && source in parents && target in parents
      modifies this`parents, this`mergedInto
      ensures Valid()
      ensures r == Err(OtherTopic) <==> topics[source] != topics[target]
      ensures r == Err(SameNode) <==> source == target
      ensures r.Err? ==> parents == old(parents) && mergedInto == old(mergedInto)
      ensures r.Ok? ==>
                parents == Adopted(old(parents), source, target) && mergedInto == old(mergedInto)[source := target]
      ensures r.Ok? && old(Acyclic(parents)) ==> (Acyclic(parents) <==> !Above(old(parents), source, target))
    {
      if topics[source] != topics[target] { return Err(OtherTopic); }
      if source == target { return Err(SameNode); }
      ghost var before := parents;
      var rest := parents.Keys;
      while rest != {}
        invariant Valid() && parents.Keys == before.Keys && rest <= parents.Keys && mergedInto == old(mergedInto)
        invariant forall c ::
                    c in before ==> parents[c] == if c in rest then before[c] else Adopted(before, source, target)[c]
        decreases rest
      {
        var child :| child in rest;
        rest := rest - {child};
        if parents[child] == Some(source) { parents := parents[child := Some(target)]; }
      }
      mergedInto := mergedInto[source := target];
      assert parents == Adopted(before, source, target);
      if Acyclic(before) { MergeExactly(before, source, target); }
      r := Ok(true);
    }
  }

  lemma EndedWalkMisses(parents: Parents, id: Id, ancestor: Id, i: nat, k: nat)
    requires Follow(parents, id, i).None? && Follow(parents, id, k) == Some(ancestor)
    ensures k < i && At(parents, id, k, ancestor)
  {
    if k >= i { FollowPlus(parents, id, i, k - i); }
  }

  /** A walk that ended or came back without meeting the ancestor never meets it. */
  lemma WalkMisses(parents: Parents, id: Id, ancestor: Id, i: nat, visited: set<Id>)
    requires Walked(parents, id, i, visited) && ancestor !in visited
    requires Follow(parents, id, i).Some? ==> Follow(parents, id, i).value in visited
    ensures !Above(parents, ancestor, id)
  {
    forall k: nat ensures Follow(parents, id, k) != Some(ancestor) {
      if Follow(parents, id, i).Some? {
        WalkIsClosed(parents, id, i, visited, k);
      } else if Follow(parents, id, k) == Some(ancestor) {
        EndedWalkMisses(parents, id, ancestor, i, k);
      }
    }
  }

  /** Moving `node` under `parent` keeps the map acyclic exactly when `parent` is not below `node`. */
  lemma MoveExactly(parents: Parents, node: Id, parent: Id)
    requires node in parents
    ensures Acyclic(parents) ==> (Acyclic(parents[node := Some(parent)]) <==> !Above(parents, node, parent))
  {
    if Acyclic(parents) { RedirectionExactly(parents, parents[node := Some(parent)], {node}, parent); }
  }

  function ChildrenOf(parents: Parents, source: Id): set<Id> {
    set c | c in parents && parents[c] == Some(source)
  }

  /** The last node of the way from a node below `source` up to it. */
  lemma ChildOnTheWay(parents: Parents, source: Id, target: Id) returns (c: Id)
    requires source != target && Above(parents, source, target)
    ensures c in ChildrenOf(parents, source) && Above(parents, c, target)
  {
    var k: nat :| Follow(parents, target, k) == Some(source);
    FollowPlus(parents, target, k - 1, 1);
    c := Follow(parents, target, k - 1).value;
    FollowNext(parents, target, k - 1);
  }

  /** Merging `source` into `target` keeps the map acyclic exactly when `target` is not below `source`. */
  lemma MergeExactly(parents: Parents, source: Id, target: Id)
    requires Acyclic(parents) && source != target
    ensures Acyclic(Adopted(parents, source, target)) <==> !Above(parents, source, target)
  {
    var children := ChildrenOf(parents, source);
    RedirectionExactly(parents, Adopted(parents, source, target), children, target);
    if Above(parents, source, target) {
      var c := ChildOnTheWay(parents, source, target);
    }
    if c: Id :| c in children && Above(parents, c, target) {
      assert Follow(parents, c, 1) == Follow(parents, source, 0) == Some(source);
      AboveTransitive(parents, source, c, target);
    }
  }

  /** Merging into a node below the source puts the target on a cycle. */
  lemma MergedTargetIsOnCycle(parents: Parents, source: Id, target: Id)
    requires source != target && Above(parents, source, target)
    ensures OnCycle(Adopted(parents, source, target), target)
  {
    var c := ChildOnTheWay(parents, source, target);
    RedirectionCloses(parents, Adopted(parents, source, target), ChildrenOf(parents, source), target, c);
  }

  /** Merging a node into its own child makes the child its own parent. */
  lemma MergingIntoChild()
    ensures var parents: Parents := map[1 := None, 2 := Some(1)];
            Acyclic(parents) && !Acyclic(Adopted(parents, 1, 2))
  {
    var parents: Parents := map[1 := None, 2 := Some(1)];
    forall id: Id ensures !OnCycle(parents, id) {
      if OnCycle(parents, id) {
        CycleParent(parents, id);
        CycleParent(parents, ParentOf(parents, id).value);
        assert false;
      }
    }
    assert Follow(parents, 2, 1) == Follow(parents, 1, 0) == Some(1);
    MergeExactly(parents, 1, 2);
  }
}
