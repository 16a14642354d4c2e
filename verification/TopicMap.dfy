/** The layout of a topic map (plugin/src/learning/maps.ts). */
module TopicMap {
  import opened Basics
  import opened Forest
  import L = LearningServices

  /** `title` stands for the rank of the title in the locale's order. */
  datatype LearningNode = LearningNode(id: Id, parent: Option<Id>, order: int, title: int, current: bool)

  predicate Precedes(a: LearningNode, b: LearningNode) {
    a.order < b.order || (a.order == b.order && (a.title < b.title || (a.title == b.title && a.id < b.id)))
  }

  predicate Sorted(nodes: seq<LearningNode>) {
    forall i, j :: 0 <= i < j < |nodes| ==> !Precedes(nodes[j], nodes[i])
  }

  /** By order, then by title, then by identifier. */
  ghost predicate InOrder(a: LearningNode, b: LearningNode) {
    a.order <= b.order && (a.order == b.order ==> a.title <= b.title && (a.title == b.title ==> a.id <= b.id))
  }

  predicate SameNodes(a: seq<LearningNode>, b: seq<LearningNode>) {
    multiset(a) == multiset(b)
  }

  lemma SameMembers(a: seq<LearningNode>, b: seq<LearningNode>)
    requires SameNodes(a, b)
    ensures forall n :: n in a <==> n in b
  {
    forall n ensures n in a <==> n in b {
      assert n in a <==> n in multiset(a);
    }
  }

  lemma InsertSorted(sorted: seq<LearningNode>, at: nat, node: LearningNode)
    requires Sorted(sorted) && at <= |sorted|
    requires forall k :: 0 <= k < at ==> !Precedes(node, sorted[k])
    requires at < |sorted| ==> Precedes(node, sorted[at])
    ensures Sorted(sorted[..at] + [node] + sorted[at..])
    ensures multiset(sorted[..at] + [node] + sorted[at..]) == multiset(sorted) + multiset{node}
  {
    assert sorted == sorted[..at] + sorted[at..];
  }

  method StableNodes(nodes: seq<LearningNode>) returns (sorted: seq<LearningNode>)
    ensures Sorted(sorted) && SameNodes(sorted, nodes)
    ensures forall i, j :: 0 <= i < j < |sorted| ==> InOrder(sorted[i], sorted[j])
  {
    sorted := [];
    for i := 0 to |nodes|
      invariant Sorted(sorted) && SameNodes(sorted, nodes[..i])
    {
      var at := 0;
      while at < |sorted| && !Precedes(nodes[i], sorted[at])
        invariant 0 <= at <= |sorted|
        invariant forall k :: 0 <= k < at ==> !Precedes(nodes[i], sorted[k])
      {
        at := at + 1;
      }
      InsertSorted(sorted, at, nodes[i]);
      assert nodes[..i + 1] == nodes[..i] + [nodes[i]];
      sorted := sorted[..at] + [nodes[i]] + sorted[at..];
    }
    assert nodes[..|nodes|] == nodes;
  }

  // ----- the depth-first layout

  function Ids(nodes: seq<LearningNode>): set<Id> {
    set n | n in nodes :: n.id
  }

  ghost predicate DistinctIds(nodes: seq<LearningNode>) {
    forall i, j :: 0 <= i < j < |nodes| ==> nodes[i].id != nodes[j].id
  }

  function ChildrenOf(byParent: map<Option<Id>, seq<LearningNode>>, parent: Option<Id>): seq<LearningNode> {
    if parent in byParent then byParent[parent] else []
  }

  ghost predicate GroupedAt(nodes: seq<LearningNode>, byParent: map<Option<Id>, seq<LearningNode>>,
                            parent: Option<Id>, n: LearningNode) {
    n in ChildrenOf(byParent, parent) <==> n in nodes && n.parent == parent
  }

  ghost predicate Grouped(nodes: seq<LearningNode>, byParent: map<Option<Id>, seq<LearningNode>>) {
    forall parent: Option<Id>,
        n: LearningNode {:trigger GroupedAt(nodes, byParent, parent, n)} {:trigger n in ChildrenOf(byParent, parent)} ::
      GroupedAt(nodes, byParent, parent, n)
  }

  lemma GroupedNext(nodes: seq<LearningNode>, i: nat, byParent: map<Option<Id>, seq<LearningNode>>,
                    next: map<Option<Id>, seq<LearningNode>>)
    requires i < |nodes| && Grouped(nodes[..i], byParent)
    requires next == byParent[nodes[i].parent := ChildrenOf(byParent, nodes[i].parent) + [nodes[i]]]
    ensures Grouped(nodes[..i + 1], next)
  {
    var longer := nodes[..i + 1];
    assert longer == nodes[..i] + [nodes[i]];
    forall parent: Option<Id>, n: LearningNode ensures GroupedAt(longer, next, parent, n) {
      var before := ChildrenOf(byParent, parent);
      assert GroupedAt(nodes[..i], byParent, parent, n);
      assert ChildrenOf(next, parent) == if parent == nodes[i].parent then before + [nodes[i]] else before;
    }
  }

  lemma GroupedPermuted(nodes: seq<LearningNode>, byParent: map<Option<Id>, seq<LearningNode>>, p: Option<Id>,
                        sorted: seq<LearningNode>)
    requires Grouped(nodes, byParent) && p in byParent && forall n :: n in sorted <==> n in byParent[p]
    ensures Grouped(nodes, byParent[p := sorted])
  {
    var next := byParent[p := sorted];
    forall parent: Option<Id>, n: LearningNode ensures GroupedAt(nodes, next, parent, n) {
      assert GroupedAt(nodes, byParent, parent, n);
    }
  }

  ghost predicate AllSorted(byParent: map<Option<Id>, seq<LearningNode>>) {
    forall p :: p in byParent ==> Sorted(byParent[p])
  }

  method GroupByParent(nodes: seq<LearningNode>) returns (byParent: map<Option<Id>, seq<LearningNode>>)
    ensures Grouped(nodes, byParent) && AllSorted(byParent)
  {
    byParent := map[];
    for i := 0 to |nodes|
      invariant Grouped(nodes[..i], byParent)
    {
      var children := ChildrenOf(byParent, nodes[i].parent);
      ghost var before := byParent;
      byParent := byParent[nodes[i].parent := children + [nodes[i]]];
      GroupedNext(nodes, i, before, byParent);
    }
    assert nodes[..|nodes|] == nodes;
    var rest := byParent.Keys;
    while rest != {}
      invariant rest <= byParent.Keys && Grouped(nodes, byParent)
      invariant forall p :: p in byParent && p !in rest ==> Sorted(byParent[p])
      decreases rest
    {
      var p :| p in rest;
      var sorted := StableNodes(byParent[p]);
      SameMembers(sorted, byParent[p]);
      GroupedPermuted(nodes, byParent, p, sorted);
      byParent := byParent[p := sorted];
      rest := rest - {p};
    }
  }

  /** Every child of the nodes from `start` on is visited. */
  ghost predicate ChildrenVisited(nodes: seq<LearningNode>, output: seq<LearningNode>, start: nat, visited: set<Id>) {
    forall i, c :: start <= i < |output| && c in nodes && c.parent == Some(output[i].id) ==> c.id in visited
  }

  ghost predicate Earlier(output: seq<LearningNode>, i: nat, id: Id) {
    exists j: nat :: j < i && j < |output| && output[j].id == id
  }

  /** From `start` on every node is a root or comes after its parent. */
  ghost predicate ParentsFirst(output: seq<LearningNode>, start: nat) {
    forall i :: start <= i < |output| ==> output[i].parent.None? || Earlier(output, i, output[i].parent.value)
  }

  /** Every sibling that comes before the node is visited. */
  ghost predicate Preceded(nodes: seq<LearningNode>, node: LearningNode, visited: set<Id>) {
    forall s :: s in nodes && s.parent == node.parent && Precedes(s, node) ==> s.id in visited
  }

  /** From `start` on every node comes after the siblings that precede it. */
  ghost predicate SiblingsFirst(nodes: seq<LearningNode>, output: seq<LearningNode>, start: nat) {
    forall i: nat :: start <= i < |output| ==> Preceded(nodes, output[i], Ids(output[..i]))
  }

  lemma StillSiblingsFirst(nodes: seq<LearningNode>, output: seq<LearningNode>, longer: seq<LearningNode>, start: nat)
    requires SiblingsFirst(nodes, output, start) && output <= longer && SiblingsFirst(nodes, longer, |output|)
    requires start <= |output|
    ensures SiblingsFirst(nodes, longer, start)
  {
    forall i: nat | start <= i < |longer| ensures Preceded(nodes, longer[i], Ids(longer[..i])) {
      if i < |output| { assert longer[..i] == output[..i]; }
    }
  }

  lemma SortedPrecede(nodes: seq<LearningNode>, byParent: map<Option<Id>, seq<LearningNode>>, parent: Option<Id>,
                      i: nat, visited: set<Id>)
    requires Grouped(nodes, byParent) && AllSorted(byParent)
    requires i < |ChildrenOf(byParent, parent)|
    requires FirstVisited(ChildrenOf(byParent, parent), i, visited)
    ensures Preceded(nodes, ChildrenOf(byParent, parent)[i], visited)
  {
    var children := ChildrenOf(byParent, parent);
    assert children[i] in ChildrenOf(byParent, parent);
    assert GroupedAt(nodes, byParent, parent, children[i]);
    forall s | s in nodes && s.parent == children[i].parent && Precedes(s, children[i]) ensures s.id in visited {
      assert GroupedAt(nodes, byParent, parent, s);
      var k :| 0 <= k < |children| && children[k] == s;
    }
  }

  /** The node at `j` has its parent at `i` or between. */
  ghost predicate Hangs(output: seq<LearningNode>, i: nat, j: nat) {
    j < |output| && exists m: nat :: i <= m < j && output[j].parent == Some(output[m].id)
  }

  ghost predicate ParentAt(output: seq<LearningNode>, i: nat, k: nat) {
    i < k < |output| && output[k].parent == Some(output[i].id)
  }

  /** Between a node and any child of it there are only nodes below it. */
  ghost predicate DepthFirst(output: seq<LearningNode>, start: nat) {
    forall i: nat, j: nat, k: nat {:trigger ParentAt(output, i, k), Hangs(output, i, j)} ::
      start <= i < j <= k && ParentAt(output, i, k) ==> Hangs(output, i, j)
  }

  lemma StillDepthFirst(nodes: seq<LearningNode>, output: seq<LearningNode>, longer: seq<LearningNode>, start: nat)
    requires DepthFirst(output, start) && output <= longer && DepthFirst(longer, |output|) && start <= |output|
    requires ChildrenVisited(nodes, output, start, Ids(output)) && DistinctIds(longer)
    requires forall n :: n in longer ==> n in nodes
    ensures DepthFirst(longer, start)
  {
    forall i: nat, j: nat, k: nat | start <= i < j <= k && ParentAt(longer, i, k) ensures Hangs(longer, i, j) {
      if k < |output| {
        assert ParentAt(output, i, k);
        assert Hangs(output, i, j);
        HangsOn(output, longer, i, j);
      } else if i < |output| {
        ChildIsNotNew(nodes, output, longer, i, start, k);
      }
    }
  }

  lemma HangsOn(output: seq<LearningNode>, longer: seq<LearningNode>, i: nat, j: nat)
    requires Hangs(output, i, j) && output <= longer
    ensures Hangs(longer, i, j)
  {
    var m: nat :| i <= m < j && output[j].parent == Some(output[m].id);
    assert longer[j].parent == Some(longer[m].id);
  }

  lemma ChildIsNotNew(nodes: seq<LearningNode>, output: seq<LearningNode>, longer: seq<LearningNode>, i: nat,
                      start: nat, k: nat)
    requires output <= longer && start <= i < |output| <= k < |longer| && longer[k] in nodes && DistinctIds(longer)
    requires ChildrenVisited(nodes, output, start, Ids(output))
    ensures longer[k].parent != Some(output[i].id)
  {
    forall m | 0 <= m < |output| ensures output[m].id != longer[k].id { assert longer[m].id != longer[k].id; }
  }

  lemma HangsFurther(output: seq<LearningNode>, i: nat, b: nat, j: nat)
    requires Hangs(output, b, j) && i <= b
    ensures Hangs(output, i, j)
  {}

  ghost predicate AllHang(output: seq<LearningNode>, at: nat) {
    forall j: nat :: at < j < |output| ==> Hangs(output, at, j)
  }

  lemma BlockIsDepthFirst(output: seq<LearningNode>, start: nat)
    requires DepthFirst(output, start + 1) && AllHang(output, start)
    ensures DepthFirst(output, start)
  {}

  lemma StillParentsFirst(output: seq<LearningNode>, longer: seq<LearningNode>, start: nat)
    requires ParentsFirst(output, start) && output <= longer && ParentsFirst(longer, |output|) && start <= |output|
    ensures ParentsFirst(longer, start)
  {}

  /** From `start` on every node is in its place behind its parent and siblings. */
  ghost predicate Ordered(nodes: seq<LearningNode>, output: seq<LearningNode>, start: nat) {
    ParentsFirst(output, start) && SiblingsFirst(nodes, output, start)
  }

  lemma StillOrdered(nodes: seq<LearningNode>, output: seq<LearningNode>, longer: seq<LearningNode>, start: nat)
    requires Ordered(nodes, output, start) && output <= longer && Ordered(nodes, longer, |output|) && start <= |output|
    ensures Ordered(nodes, longer, start)
  {
    StillParentsFirst(output, longer, start);
    StillSiblingsFirst(nodes, output, longer, start);
  }

  /** Depth-first from `start` on, with nothing left below. */
  ghost predicate Explored(nodes: seq<LearningNode>, output: seq<LearningNode>, start: nat, visited: set<Id>) {
    ChildrenVisited(nodes, output, start, visited) && DepthFirst(output, start)
  }

  lemma StillExplored(nodes: seq<LearningNode>, output: seq<LearningNode>, longer: seq<LearningNode>, start: nat)
    requires Explored(nodes, output, start, Ids(output)) && output <= longer && start <= |output|
    requires Explored(nodes, longer, |output|, Ids(longer)) && DistinctIds(longer)
    requires forall n :: n in longer ==> n in nodes
    ensures Explored(nodes, longer, start, Ids(longer))
  {
    StillDepthFirst(nodes, output, longer, start);
    assert Ids(output) <= Ids(longer);
  }

  class Layout {
    var output: seq<LearningNode>
    var visited: set<Id>

    /** Each visited identifier was output once. */
    ghost predicate Valid(nodes: seq<LearningNode>)
      reads this
    {
      && visited == Ids(output) && DistinctIds(output) && forall n :: n in output ==> n in nodes
    }

    constructor ()
      ensures output == [] && visited == {}
    {
      output, visited := [], {};
    }

    /** `visit`: outputs the node and what is below it, as far as not visited before. */
    method Visit(node: LearningNode, nodes: seq<LearningNode>, byParent: map<Option<Id>, seq<LearningNode>>)
      requires Valid(nodes) && node in nodes && Grouped(nodes, byParent) && AllSorted(byParent)
      modifies this
      ensures Valid(nodes) && old(output) <= output && old(visited) <= visited && node.id in visited
      ensures Explored(nodes, output, |old(output)|, visited) && AllHang(output, |old(output)|)
      ensures |old(output)| < |output| ==> output[|old(output)|] == node
      ensures Placed(nodes, node, old(visited)) ==> Ordered(nodes, output, |old(output)|)
      decreases Ids(nodes) - visited, 0
    {
      if node.id in visited { return; }
      ghost var before := output;
      visited := visited + {node.id};
      output := output + [node];
      assert Ids(output) == Ids(before) + {node.id};
      VisitChildren(node, nodes, byParent);
      BlockIsExplored(nodes, before, node, output, visited);
    }

    /** The loop over the children of a node that was just output. */
    method VisitChildren(node: LearningNode, nodes: seq<LearningNode>, byParent: map<Option<Id>, seq<LearningNode>>)
      requires Valid(nodes) && node in nodes && Grouped(nodes, byParent) && AllSorted(byParent)
      requires output != [] && output[|output| - 1] == node
      modifies this
      ensures Valid(nodes) && old(output) <= output && old(visited) <= visited
      ensures forall c :: c in nodes && c.parent == Some(node.id) ==> c.id in visited
      ensures Below(nodes, output, |old(output)|, visited)
      decreases Ids(nodes) - visited, 2
    {
      var children := ChildrenOf(byParent, Some(node.id));
      for i := 0 to |children|
        invariant Valid(nodes) && old(output) <= output && old(visited) <= visited
        invariant FirstVisited(children, i, visited)
        invariant Below(nodes, output, |old(output)|, visited)
      {
        VisitChild(node.id, i, |old(output)|, nodes, byParent);
      }
      forall c | c in nodes && c.parent == Some(node.id) ensures c.id in visited {
        assert GroupedAt(nodes, byParent, Some(node.id), c);
        assert c in children;
      }
    }

    /** One turn of that loop; the parent is at `start - 1`. */
    method VisitChild(parent: Id, i: nat, ghost start: nat, nodes: seq<LearningNode>, byParent: map<Option<Id>,
                      seq<LearningNode>>)
      requires Valid(nodes) && Grouped(nodes, byParent) && AllSorted(byParent)
      requires 0 < start <= |output| && output[start - 1].id == parent
      requires i < |ChildrenOf(byParent, Some(parent))| && FirstVisited(ChildrenOf(byParent, Some(parent)), i, visited)
      requires Below(nodes, output, start, visited)
      modifies this
      ensures Valid(nodes) && old(output) <= output && old(visited) <= visited
      ensures FirstVisited(ChildrenOf(byParent, Some(parent)), i + 1, visited)
      ensures Below(nodes, output, start, visited)
      decreases Ids(nodes) - visited, 1
    {
      ghost var middle := output;
      assert output[start - 1] in output;
      ChildIsPlaced(nodes, byParent, parent, i, visited);
      Visit(ChildrenOf(byParent, Some(parent))[i], nodes, byParent);
      StillBelow(nodes, middle, output, start, parent);
    }
  }

  /** What the loop over a node's children has output since `start`. */
  ghost predicate Below(nodes: seq<LearningNode>, output: seq<LearningNode>, start: nat, visited: set<Id>) {
    start > 0 && Explored(nodes, output, start, visited) && Ordered(nodes, output, start) && AllHang(output, start - 1)
  }

  ghost predicate FirstVisited(children: seq<LearningNode>, i: nat, visited: set<Id>) {
    forall k :: 0 <= k < i && k < |children| ==> children[k].id in visited
  }

  lemma StillBelow(nodes: seq<LearningNode>, middle: seq<LearningNode>, output: seq<LearningNode>, start: nat, id: Id)
    requires 0 < start <= |middle| && middle <= output && middle[start - 1].id == id
    requires Below(nodes, middle, start, Ids(middle)) && DistinctIds(output) && forall n :: n in output ==> n in nodes
    requires Explored(nodes, output, |middle|, Ids(output)) && Ordered(nodes, output, |middle|)
    requires AllHang(output, |middle|)
    requires |middle| < |output| ==> output[|middle|].parent == Some(id)
    ensures Below(nodes, output, start, Ids(output))
  {
    ChildBlockHangs(middle, output, start - 1, id);
    StillOrdered(nodes, middle, output, start);
    StillExplored(nodes, middle, output, start);
  }

  /** The parent and the siblings that come before the node are visited. */
  ghost predicate Placed(nodes: seq<LearningNode>, node: LearningNode, visited: set<Id>) {
    (node.parent.None? || node.parent.value in visited) && Preceded(nodes, node, visited)
  }

  lemma FirstIsOrdered(nodes: seq<LearningNode>, before: seq<LearningNode>, node: LearningNode)
    requires Placed(nodes, node, Ids(before))
    ensures Ordered(nodes, before + [node], |before|)
  {
    var longer := before + [node];
    assert longer[..|before|] == before;
    if node.parent.Some? {
      var n :| n in before && n.id == node.parent.value;
      var m: nat :| m < |before| && before[m] == n;
      assert longer[m].id == node.parent.value;
    }
  }

  /** A node and what was output below it. */
  lemma BlockIsExplored(nodes: seq<LearningNode>, before: seq<LearningNode>, node: LearningNode,
                        output: seq<LearningNode>, visited: set<Id>)
    requires before + [node] <= output && Below(nodes, output, |before| + 1, visited)
    requires forall c :: c in nodes && c.parent == Some(node.id) ==> c.id in visited
    ensures Explored(nodes, output, |before|, visited) && AllHang(output, |before|)
    ensures Placed(nodes, node, Ids(before)) ==> Ordered(nodes, output, |before|)
  {
    BlockIsDepthFirst(output, |before|);
    if Placed(nodes, node, Ids(before)) {
      FirstIsOrdered(nodes, before, node);
      StillOrdered(nodes, before + [node], output, |before|);
    }
  }

  lemma ChildIsPlaced(nodes: seq<LearningNode>, byParent: map<Option<Id>, seq<LearningNode>>, parent: Id,
                      i: nat, visited: set<Id>)
    requires Grouped(nodes, byParent) && AllSorted(byParent) && parent in visited
    requires i < |ChildrenOf(byParent, Some(parent))|
    requires FirstVisited(ChildrenOf(byParent, Some(parent)), i, visited)
    ensures Placed(nodes, ChildrenOf(byParent, Some(parent))[i], visited)
    ensures ChildrenOf(byParent, Some(parent))[i] in nodes
    ensures ChildrenOf(byParent, Some(parent))[i].parent == Some(parent)
  {
    SortedPrecede(nodes, byParent, Some(parent), i, visited);
    assert GroupedAt(nodes, byParent, Some(parent), ChildrenOf(byParent, Some(parent))[i]);
  }

  lemma RootIsPlaced(nodes: seq<LearningNode>, byParent: map<Option<Id>, seq<LearningNode>>, i: nat, visited: set<Id>)
    requires Grouped(nodes, byParent) && AllSorted(byParent) && i < |ChildrenOf(byParent, None)|
    requires FirstVisited(ChildrenOf(byParent, None), i, visited)
    ensures Placed(nodes, ChildrenOf(byParent, None)[i], visited)
    ensures ChildrenOf(byParent, None)[i] in nodes
  {
    SortedPrecede(nodes, byParent, None, i, visited);
    assert GroupedAt(nodes, byParent, None, ChildrenOf(byParent, None)[i]);
  }

  /** What was output for a child of the node at `at` hangs below that node. */
  lemma ChildBlockHangs(middle: seq<LearningNode>, output: seq<LearningNode>, at: nat, id: Id)
    requires at < |middle| && middle <= output && middle[at].id == id
    requires AllHang(middle, at) && AllHang(output, |middle|)
    requires |middle| < |output| ==> output[|middle|].parent == Some(id)
    ensures AllHang(output, at)
  {
    forall j: nat | at < j < |output| ensures Hangs(output, at, j) {
      if j < |middle| {
        assert Hangs(middle, at, j);
        HangsOn(middle, output, at, j);
      } else if j == |middle| {
        assert output[j].parent == Some(output[at].id);
      } else {
        HangsFurther(output, at, |middle|, j);
      }
    }
  }

  /** A chain of nodes from a root down to this one. */
  ghost predicate RootPath(nodes: seq<LearningNode>, path: seq<LearningNode>) {
    && path != [] && path[0].parent.None?
    && (forall n :: n in path ==> n in nodes)
    && forall i :: 0 < i < |path| ==> path[i].parent == Some(path[i - 1].id)
  }

  ghost predicate Rooted(nodes: seq<LearningNode>, n: LearningNode) {
    exists path: seq<LearningNode> :: RootPath(nodes, path) && path[|path| - 1] == n
  }

  lemma {:induction false} RootedIsVisited(nodes: seq<LearningNode>, path: seq<LearningNode>,
                                           output: seq<LearningNode>, visited: set<Id>)
    requires RootPath(nodes, path) && visited == Ids(output) && ChildrenVisited(nodes, output, 0, visited)
    requires forall n :: n in nodes && n.parent.None? ==> n.id in visited
    ensures path[|path| - 1].id in visited
    decreases |path|
  {
    var last := path[|path| - 1];
    assert last in path;
    if |path| > 1 {
      var above := path[..|path| - 1];
      forall n | n in above ensures n in nodes { assert n in path; }
      RootedIsVisited(nodes, above, output, visited);
      var m :| m in output && m.id == above[|above| - 1].id;
      var i :| 0 <= i < |output| && output[i] == m;
      assert last.parent == Some(output[i].id);
    }
  }

  lemma SiblingsInOrder(nodes: seq<LearningNode>, output: seq<LearningNode>, rooted: nat)
    requires SiblingsFirst(nodes, output, 0) && DistinctIds(output) && rooted == |output|
    requires forall n :: n in output ==> n in nodes
    ensures forall i, j ::
              0 <= i < j < rooted && output[i].parent == output[j].parent ==> InOrder(output[i], output[j])
  {
    forall i, j | 0 <= i < j < rooted && output[i].parent == output[j].parent ensures InOrder(output[i], output[j]) {
      assert Preceded(nodes, output[i], Ids(output[..i]));
      assert output[j] in nodes && output[i].id != output[j].id;
      forall m | 0 <= m < i ensures output[..i][m].id != output[j].id { assert output[m].id != output[j].id; }
    }
  }

  /** `layoutOrder`: on any parent map every node identifier is output exactly once, and between a node and a child
      of it come only nodes below it; the first `rooted` entries hold every node below a root, each after its parent
      and siblings in order. */
  method LayoutOrder(nodes: seq<LearningNode>) returns (output: seq<LearningNode>, ghost rooted: nat)
    ensures DistinctIds(output) && Ids(output) == Ids(nodes)
    ensures forall n :: n in output ==> n in nodes
    ensures DepthFirst(output, 0)
    ensures rooted <= |output| && ParentsFirst(output[..rooted], 0)
    ensures forall i, j ::
              0 <= i < j < rooted && output[i].parent == output[j].parent ==> InOrder(output[i], output[j])
    ensures forall n :: n in nodes && Rooted(nodes, n) ==> n.id in Ids(output[..rooted])
  {
    var byParent := GroupByParent(nodes);
    var layout := new Layout();
    VisitRoots(layout, nodes, byParent);
    ghost var first := layout.output;
    rooted := |first|;
    SiblingsInOrder(nodes, first, rooted);
    forall n | n in nodes && Rooted(nodes, n) ensures n.id in Ids(first) {
      var path: seq<LearningNode> :| RootPath(nodes, path) && path[|path| - 1] == n;
      RootedIsVisited(nodes, path, first, layout.visited);
    }
    VisitRest(layout, nodes, byParent);
    output := layout.output;
    assert output[..rooted] == first;
    forall id ensures id in Ids(output) <==> id in Ids(nodes) {}
  }

  method VisitRoots(layout: Layout, nodes: seq<LearningNode>, byParent: map<Option<Id>, seq<LearningNode>>)
    requires layout.Valid(nodes) && layout.output == [] && Grouped(nodes, byParent) && AllSorted(byParent)
    modifies layout
    ensures layout.Valid(nodes) && Ordered(nodes, layout.output, 0)
    ensures Explored(nodes, layout.output, 0, layout.visited)
    ensures forall n :: n in nodes && n.parent.None? ==> n.id in layout.visited
  {
    var roots := ChildrenOf(byParent, None);
    for i := 0 to |roots|
      invariant layout.Valid(nodes) && FirstVisited(roots, i, layout.visited)
      invariant Explored(nodes, layout.output, 0, layout.visited) && Ordered(nodes, layout.output, 0)
    {
      VisitRoot(layout, i, nodes, byParent);
    }
    forall n | n in nodes && n.parent.None? ensures n.id in layout.visited {
      assert GroupedAt(nodes, byParent, None, n);
      assert n in roots;
    }
  }

  method VisitRoot(layout: Layout, i: nat, nodes: seq<LearningNode>, byParent: map<Option<Id>, seq<LearningNode>>)
    requires layout.Valid(nodes) && Grouped(nodes, byParent) && AllSorted(byParent)
    requires i < |ChildrenOf(byParent, None)| && FirstVisited(ChildrenOf(byParent, None), i, layout.visited)
    requires Explored(nodes, layout.output, 0, layout.visited) && Ordered(nodes, layout.output, 0)
    modifies layout
    ensures layout.Valid(nodes) && FirstVisited(ChildrenOf(byParent, None), i + 1, layout.visited)
    ensures Explored(nodes, layout.output, 0, layout.visited) && Ordered(nodes, layout.output, 0)
  {
    ghost var before := layout.output;
    RootIsPlaced(nodes, byParent, i, layout.visited);
    layout.Visit(ChildrenOf(byParent, None)[i], nodes, byParent);
    StillOrdered(nodes, before, layout.output, 0);
    StillExplored(nodes, before, layout.output, 0);
  }

  method VisitRest(layout: Layout, nodes: seq<LearningNode>, byParent: map<Option<Id>, seq<LearningNode>>)
    requires layout.Valid(nodes) && Grouped(nodes, byParent) && AllSorted(byParent)
    requires Explored(nodes, layout.output, 0, layout.visited)
    modifies layout
    ensures layout.Valid(nodes) && old(layout.output) <= layout.output && DepthFirst(layout.output, 0)
    ensures forall n :: n in nodes ==> n.id in layout.visited
  {
    var stable := StableNodes(nodes);
    SameMembers(stable, nodes);
    for i := 0 to |stable|
      invariant layout.Valid(nodes) && old(layout.output) <= layout.output
      invariant Explored(nodes, layout.output, 0, layout.visited)
      invariant forall k :: 0 <= k < i ==> stable[k].id in layout.visited
    {
      ghost var before := layout.output;
      assert stable[i] in stable;
      layout.Visit(stable[i], nodes, byParent);
      StillExplored(nodes, before, layout.output, 0);
    }
    forall n | n in nodes ensures n.id in layout.visited {
      assert n in stable;
    }
  }

  // ----- depths

  /** The parents drawn in the map: those that are nodes themselves. */
  function VisibleParents(byId: map<Id, LearningNode>): Parents {
    map id | id in byId ::
      if byId[id].parent.Some? && byId[id].parent.value in byId then byId[id].parent else None
  }

  /** `depth` steps lead from the node to the top of its chain. */
  ghost predicate IsDepth(parents: Parents, id: Id, depth: nat) {
    Follow(parents, id, depth).Some? && Follow(parents, id, depth + 1).None?
  }

  class Depths {
    var result: map<Id, nat>

    /** Every entry of a node whose chain ends is its depth. */
    ghost predicate Valid(byId: map<Id, LearningNode>)
      reads this
    {
      forall id :: id in result ==>
        id in byId && (ChainEnds(VisibleParents(byId), id) ==> IsDepth(VisibleParents(byId), id, result[id]))
    }

    constructor ()
      ensures result == map[]
    {
      result := map[];
    }

    /** `depth`: the trail holds nodes below this one, so a node on its own trail is on a cycle. */
    method Depth(node: Id, trail: set<Id>, byId: map<Id, LearningNode>) returns (depth: nat)
      requires Valid(byId) && node in byId && trail <= byId.Keys
      requires forall t :: t in trail ==> StrictlyAbove(VisibleParents(byId), node, t)
      modifies this
      ensures Valid(byId) && old(result.Keys) <= result.Keys && node in result && result[node] == depth
      decreases byId.Keys - trail
    {
      ghost var parents := VisibleParents(byId);
      if node in result { return result[node]; }
      var parent := byId[node].parent;
      if parent.None? || parent.value !in byId || node in trail {
        if node in trail { OwnAncestorNeverEnds(parents, node); }
        result := result[node := 0];
        return 0;
      }
      TrailGrows(parents, trail, node, parent.value);
      var above := Depth(parent.value, trail + {node}, byId);
      depth := above + 1;
      DepthOfChild(parents, node, parent.value, above);
      result := result[node := depth];
    }
  }

  ghost predicate StrictlyAbove(parents: Parents, ancestor: Id, id: Id) {
    exists k: nat :: k > 0 && Follow(parents, id, k) == Some(ancestor)
  }

  lemma OwnAncestorNeverEnds(parents: Parents, id: Id)
    requires StrictlyAbove(parents, id, id)
    ensures !ChainEnds(parents, id)
  {
    assert OnCycle(parents, id);
    assert Follow(parents, id, 0) == Some(id);
    CycleDoesNotEnd(parents, id, 0);
  }

  lemma TrailGrows(parents: Parents, trail: set<Id>, node: Id, parent: Id)
    requires ParentOf(parents, node) == Some(parent) && forall t :: t in trail ==> StrictlyAbove(parents, node, t)
    ensures forall t :: t in trail + {node} ==> StrictlyAbove(parents, parent, t)
  {
    forall t | t in trail + {node} ensures StrictlyAbove(parents, parent, t) {
      if t == node {
        assert Follow(parents, node, 1) == Follow(parents, parent, 0) == Some(parent);
      } else {
        var k: nat :| k > 0 && Follow(parents, t, k) == Some(node);
        FollowNext(parents, t, k);
        assert Follow(parents, t, k + 1) == Some(parent);
      }
    }
  }

  lemma DepthOfChild(parents: Parents, node: Id, parent: Id, depth: nat)
    requires ParentOf(parents, node) == Some(parent)
    requires ChainEnds(parents, parent) ==> IsDepth(parents, parent, depth)
    ensures ChainEnds(parents, node) ==> IsDepth(parents, node, depth + 1)
  {
    if ChainEnds(parents, node) {
      var k: nat :| Follow(parents, node, k).None?;
      assert Follow(parents, parent, k - 1).None?;
      assert Follow(parents, node, depth + 1) == Follow(parents, parent, depth);
      assert Follow(parents, node, depth + 2) == Follow(parents, parent, depth + 1);
    }
  }

  /** `depths`: terminates on any parent map, and gives each node off every cycle its depth in the drawn forest. */
  method AllDepths(nodes: seq<LearningNode>) returns (result: map<Id, nat>)
    requires DistinctIds(nodes)
    ensures result.Keys == Ids(nodes)
    ensures forall n :: n in nodes && ChainEnds(VisibleParents(ById(nodes)), n.id) ==>
              IsDepth(VisibleParents(ById(nodes)), n.id, result[n.id])
  {
    var byId := ById(nodes);
    ByIdKeys(nodes);
    var depths := new Depths();
    for i := 0 to |nodes|
      invariant depths.Valid(byId)
      invariant forall k :: 0 <= k < i ==> nodes[k].id in depths.result
    {
      assert nodes[i] in nodes;
      var _ := depths.Depth(nodes[i].id, {}, byId);
    }
    result := depths.result;
    AllListed(nodes, result.Keys);
  }

  lemma AllListed(nodes: seq<LearningNode>, ids: set<Id>)
    requires ids <= Ids(nodes) && forall k :: 0 <= k < |nodes| ==> nodes[k].id in ids
    ensures ids == Ids(nodes)
  {}

  function ById(nodes: seq<LearningNode>): map<Id, LearningNode> {
    if nodes == [] then map[] else ById(nodes[..|nodes| - 1])[nodes[|nodes| - 1].id := nodes[|nodes| - 1]]
  }

  lemma {:induction false} ByIdKeys(nodes: seq<LearningNode>)
    requires DistinctIds(nodes)
    ensures ById(nodes).Keys == Ids(nodes)
    ensures forall n :: n in nodes ==> ById(nodes)[n.id] == n
    decreases |nodes|
  {
    if nodes != [] {
      var init, last := nodes[..|nodes| - 1], nodes[|nodes| - 1];
      ByIdKeys(init);
      assert nodes == init + [last];
      assert forall k :: 0 <= k < |init| ==> init[k].id != last.id;
      assert Ids(nodes) == Ids(init) + {last.id};
    }
  }

  // ----- the neighbourhood of the focus

  /** Shown on a phone: the focus, what is above it, its children and its siblings. */
  ghost predicate Near(parents: Parents, focus: LearningNode, n: LearningNode) {
    Above(parents, n.id, focus.id) || n.parent == Some(focus.id) || n.parent == focus.parent
  }

  function AllParents(byId: map<Id, LearningNode>): Parents {
    map id | id in byId :: byId[id].parent
  }

  function Keep(nodes: seq<LearningNode>, visible: set<Id>): seq<LearningNode> {
    if nodes == [] then []
    else (if nodes[0].id in visible then [nodes[0]] else []) + Keep(nodes[1..], visible)
  }

  lemma {:induction false} KeepMembers(nodes: seq<LearningNode>, visible: set<Id>)
    ensures forall n :: n in Keep(nodes, visible) <==> n in nodes && n.id in visible
  {
    if nodes != [] { KeepMembers(nodes[1..], visible); }
  }

  /** `cursor` after `k` turns of the loop up the parents; a loop that has ended keeps its cursor. */
  function Cursor(byId: map<Id, LearningNode>, focus: LearningNode, k: nat): Option<LearningNode> {
    if k == 0 then Some(focus)
    else
      var cursor := Cursor(byId, focus, k - 1);
      if cursor.None? || cursor.value.parent.None? then cursor
      else if cursor.value.parent.value in byId then Some(byId[cursor.value.parent.value])
      else None
  }

  /** The loop's condition after `k` turns. */
  predicate GoesOn(byId: map<Id, LearningNode>, focus: LearningNode, k: nat) {
    Cursor(byId, focus, k).Some? && Cursor(byId, focus, k).value.parent.Some?
  }

  function NodeAt(byId: map<Id, LearningNode>, id: Id): Option<LearningNode> {
    if id in byId then Some(byId[id]) else None
  }

  /** After `k` turns the cursor is the node at the `k`-th parent, and the loop goes on if there is a next one. */
  lemma {:induction false} CursorFollows(byId: map<Id, LearningNode>, focus: LearningNode, k: nat)
    requires NodeAt(byId, focus.id) == Some(focus)
    ensures var at := Follow(AllParents(byId), focus.id, k);
            at.Some? ==> Cursor(byId, focus, k) == NodeAt(byId, at.value)
    ensures GoesOn(byId, focus, k) <==> Follow(AllParents(byId), focus.id, k + 1).Some?
  {
    var parents := AllParents(byId);
    if k > 0 { CursorFollows(byId, focus, k - 1); }
    if Follow(parents, focus.id, k).Some? {
      if k > 0 {
        FollowPlus(parents, focus.id, k - 1, 1);
        FollowNext(parents, focus.id, k - 1);
      }
      FollowNext(parents, focus.id, k);
    } else {
      FollowPlus(parents, focus.id, k, 1);
    }
  }

  /** The loop has no visited set: it never ends exactly when the chain of the focus does not. */
  lemma NeighborhoodLoopsExactly(byId: map<Id, LearningNode>, focus: LearningNode)
    requires NodeAt(byId, focus.id) == Some(focus)
    ensures (forall k: nat :: GoesOn(byId, focus, k)) <==> !ChainEnds(AllParents(byId), focus.id)
  {
    if forall k: nat :: GoesOn(byId, focus, k) {
      forall k: nat ensures Follow(AllParents(byId), focus.id, k).Some? {
        if k > 0 {
          CursorFollows(byId, focus, k - 1);
          assert GoesOn(byId, focus, k - 1);
        }
      }
    }
    if !ChainEnds(AllParents(byId), focus.id) {
      forall k: nat ensures GoesOn(byId, focus, k) { CursorFollows(byId, focus, k); }
    }
  }

  /** After a node was merged into one below it, the loop never ends for the merged node. */
  lemma MergedFocusNeverEnds(parents: Parents, source: Id, byId: map<Id, LearningNode>, focus: LearningNode)
    requires source != focus.id && Above(parents, source, focus.id)
    requires NodeAt(byId, focus.id) == Some(focus) && AllParents(byId) == L.Adopted(parents, source, focus.id)
    ensures forall k: nat :: GoesOn(byId, focus, k)
  {
    L.MergedTargetIsOnCycle(parents, source, focus.id);
    assert Follow(AllParents(byId), focus.id, 0) == Some(focus.id);
    CycleDoesNotEnd(AllParents(byId), focus.id, 0);
    NeighborhoodLoopsExactly(byId, focus);
  }

  /** `mobileNeighborhood` with a focus on whose chain the loop ends (`NeighborhoodLoopsExactly`). */
  method MobileNeighborhood(all: seq<LearningNode>, focus: LearningNode) returns (near: seq<LearningNode>)
    requires DistinctIds(all) && focus in all && ChainEnds(AllParents(ById(all)), focus.id)
    ensures forall n :: n in near <==> n in all && Near(AllParents(ById(all)), focus, n)
  {
    ByIdKeys(all);
    ghost var parents := AllParents(ById(all));
    var visible := AncestorsOf(ById(all), focus);
    var above := visible;
    for i := 0 to |all|
      invariant above <= visible
      invariant forall n :: n in all && n.id in visible ==>
                  n.id in above || n.parent == Some(focus.id) || n.parent == focus.parent
      invariant forall k :: 0 <= k < i && (all[k].parent == Some(focus.id) || all[k].parent == focus.parent) ==>
                  all[k].id in visible
    {
      if all[i].parent == Some(focus.id) || all[i].parent == focus.parent {
        visible := visible + {all[i].id};
      }
    }
    near := Keep(all, visible);
    KeepMembers(all, visible);
  }

  method AncestorsOf(byId: map<Id, LearningNode>, focus: LearningNode) returns (visible: set<Id>)
    requires focus.id in byId && byId[focus.id] == focus && ChainEnds(AllParents(byId), focus.id)
    ensures forall id: Id :: id in visible <==> Above(AllParents(byId), id, focus.id)
  {
    ghost var parents := AllParents(byId);
    ghost var end: nat :| Follow(parents, focus.id, end).None?;
    visible := {focus.id};
    var cursor := Some(focus);
    var at := focus.id;
    ghost var i := 0;
    assert At(parents, focus.id, 0, focus.id);
    while cursor.Some? && cursor.value.parent.Some?
      invariant Follow(parents, focus.id, i) == Some(at) && i < end
      invariant cursor == NodeAt(byId, at) == Cursor(byId, focus, i)
      invariant Walked(parents, focus.id, i + 1, visible)
      decreases end - i
    {
      FollowNext(parents, focus.id, i);
      var parent := cursor.value.parent.value;
      WalkedNext(parents, focus.id, i + 1, visible, parent);
      visible := visible + {parent};
      cursor := if parent in byId then Some(byId[parent]) else None;
      at, i := parent, i + 1;
    }
    FollowNext(parents, focus.id, i);
    forall id: Id ensures id in visible <==> Above(parents, id, focus.id) {
      if Above(parents, id, focus.id) {
        var k: nat :| Follow(parents, focus.id, k) == Some(id);
        if k > i { FollowPlus(parents, focus.id, i + 1, k - i - 1); }
        assert At(parents, focus.id, k, id);
      }
    }
  }
}
