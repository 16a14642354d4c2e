/** Portable path conflicts and their index (plugin/src/sync/paths.ts,
    crates/ll-canonical/src/path.rs).  The collision key of a path is an arbitrary function. */
module Paths {
  import opened Basics

  /** `key` lies under the folder `ancestor`. */
  predicate Under(key: string, ancestor: string) {
    |ancestor| < |key| && key[..|ancestor|] == ancestor && key[|ancestor|] == '/'
  }

  predicate KeysConflict(left: string, right: string) {
    left == right || Under(left, right) || Under(right, left)
  }

  predicate PortablePathsConflict(left: string, right: string, collisionKey: string -> string) {
    KeysConflict(collisionKey(left), collisionKey(right))
  }

  /** How many folders deep a key lies. */
  function Slashes(key: string): nat {
    if key == "" then 0 else (if key[0] == '/' then 1 else 0) + Slashes(key[1..])
  }

  lemma {:induction false} SlashesConcat(a: string, b: string)
    ensures Slashes(a + b) == Slashes(a) + Slashes(b)
  {
    if a == "" {
      assert a + b == b;
    } else {
      SlashesConcat(a[1..], b);
      assert (a + b)[1..] == a[1..] + b;
    }
  }

  lemma UnderHasMoreSlashes(key: string, ancestor: string)
    requires Under(key, ancestor)
    ensures Slashes(key) > Slashes(ancestor)
  {}

  // ----- buckets of paths that share a key

  /** The paths with the given key, in input order. */
  function Bucket(paths: seq<string>, collisionKey: string -> string, key: string): seq<string> {
    if paths == [] then []
    else
      var init, last := paths[..|paths| - 1], paths[|paths| - 1];
      if collisionKey(last) == key then Bucket(init, collisionKey, key) + [last] else Bucket(init, collisionKey, key)
  }

  function Keys(paths: seq<string>, collisionKey: string -> string): set<string> {
    set p | p in paths :: collisionKey(p)
  }

  lemma {:induction false} BucketMembers(paths: seq<string>, collisionKey: string -> string, key: string)
    ensures forall p :: p in Bucket(paths, collisionKey, key) <==> p in paths && collisionKey(p) == key
    ensures key in Keys(paths, collisionKey) <==> Bucket(paths, collisionKey, key) != []
  {
    if paths != [] {
      var init, last := paths[..|paths| - 1], paths[|paths| - 1];
      assert paths == init + [last];
      BucketMembers(init, collisionKey, key);
    }
  }

  ghost predicate KeyAt(paths: seq<string>, collisionKey: string -> string, key: string, i: nat) {
    i < |paths| && collisionKey(paths[i]) == key
  }

  /** Two positions of the input share the key. */
  ghost predicate Crowded(paths: seq<string>, collisionKey: string -> string, key: string) {
    exists i: nat, j: nat :: i < j && KeyAt(paths, collisionKey, key, i) && KeyAt(paths, collisionKey, key, j)
  }

  lemma {:induction false} CrowdedBucket(paths: seq<string>, collisionKey: string -> string, key: string)
    ensures |Bucket(paths, collisionKey, key)| > 1 <==> Crowded(paths, collisionKey, key)
  {
    if paths != [] {
      var n := |paths| - 1;
      var init := paths[..n];
      CrowdedBucket(init, collisionKey, key);
      assert forall i: nat :: i < n ==> (KeyAt(paths, collisionKey, key, i) <==> KeyAt(init, collisionKey, key, i));
      SomewhereInBucket(init, collisionKey, key);
      if Crowded(init, collisionKey, key) {
        var i: nat, j: nat :| i < j && KeyAt(init, collisionKey, key, i) && KeyAt(init, collisionKey, key, j);
        assert KeyAt(paths, collisionKey, key, i) && KeyAt(paths, collisionKey, key, j);
      } else if KeyAt(paths, collisionKey, key, n) && Bucket(init, collisionKey, key) != [] {
        var i: nat :| KeyAt(init, collisionKey, key, i);
        assert KeyAt(paths, collisionKey, key, i);
      }
      if Crowded(paths, collisionKey, key) {
        var i: nat, j: nat :| i < j && KeyAt(paths, collisionKey, key, i) && KeyAt(paths, collisionKey, key, j);
        assert KeyAt(init, collisionKey, key, i);
        if j < n { assert KeyAt(init, collisionKey, key, j); }
      }
    }
  }

  lemma SomewhereInBucket(paths: seq<string>, collisionKey: string -> string, key: string)
    ensures Bucket(paths, collisionKey, key) != [] <==> exists i: nat :: KeyAt(paths, collisionKey, key, i)
  {
    BucketMembers(paths, collisionKey, key);
    if Bucket(paths, collisionKey, key) != [] {
      var p := Bucket(paths, collisionKey, key)[0];
      assert p in paths;
      var i: nat :| i < |paths| && paths[i] == p;
      assert KeyAt(paths, collisionKey, key, i);
    }
    if exists i: nat :: KeyAt(paths, collisionKey, key, i) {
      var i: nat :| KeyAt(paths, collisionKey, key, i);
      assert paths[i] in Bucket(paths, collisionKey, key);
    }
  }

  /** The keys in order of first appearance, as a JavaScript map iterates them. */
  function KeyOrder(paths: seq<string>, collisionKey: string -> string): (order: seq<string>)
    ensures ToSet(order) == Keys(paths, collisionKey)
    ensures Distinct(order)
  {
    if paths == [] then []
    else
      var init, last := paths[..|paths| - 1], paths[|paths| - 1];
      assert paths == init + [last];
      var order, key := KeyOrder(init, collisionKey), collisionKey(last);
      assert Keys(paths, collisionKey) == Keys(init, collisionKey) + {key};
      assert key !in order ==> ToSet(order + [key]) == ToSet(order) + {key};
      if key in order then order else order + [key]
  }

  // ----- the index of the plugin

  /** The members `portablePathConflictGroups` collects for `key` after visiting the keys `done`:
      its own paths and those of the visited keys under it, except that a crowded key forgets the
      descendants visited before itself. */
  ghost predicate Contributes(done: seq<string>, crowded: bool, key: string, descendant: string) {
    && descendant in done && Under(descendant, key)
    && !(crowded && exists i, j :: 0 <= i < j < |done| && done[i] == descendant && done[j] == key)
  }

  ghost predicate GroupExists(buckets: map<string, seq<string>>, done: seq<string>, key: string) {
    && key in buckets
    && ((key in done && |buckets[key]| > 1) || exists d :: d in done && Under(d, key))
  }

  ghost predicate GroupHolds(buckets: map<string, seq<string>>, done: seq<string>, key: string, path: string)
  {
    && key in buckets
    && (|| path in buckets[key]
        || exists d :: Contributes(done, |buckets[key]| > 1, key, d) && d in buckets && path in buckets[d])
  }

  /** `groups` is what the loop has built after visiting `done`. */
  ghost predicate Grouped(buckets: map<string, seq<string>>, done: seq<string>, groups: map<string, set<string>>) {
    && (forall key :: key in groups <==> GroupExists(buckets, done, key))
    && (forall key, path :: key in groups ==> (path in groups[key] <==> GroupHolds(buckets, done, key, path)))
  }

  lemma VisitOther(buckets: map<string, seq<string>>, done: seq<string>, key: string, k: string)
    requires k != key && !Under(key, k)
    ensures GroupExists(buckets, done + [key], k) <==> GroupExists(buckets, done, k)
    ensures k in buckets ==>
              forall path :: GroupHolds(buckets, done + [key], k, path) <==> GroupHolds(buckets, done, k, path)
  {
    SameContributors(done, key, k, false);
    SameContributors(done, key, k, true);
    assert forall d :: d in done + [key] <==> d in done || d == key;
  }

  lemma SameContributors(done: seq<string>, key: string, k: string, crowded: bool)
    requires k != key
    ensures forall d :: d != key ==> (Contributes(done + [key], crowded, k, d) <==> Contributes(done, crowded, k, d))
    ensures key !in done ==> (Contributes(done + [key], crowded, k, key) <==> Under(key, k))
  {
    var longer := done + [key];
    assert forall i :: 0 <= i < |done| ==> longer[i] == done[i];
    assert forall d :: d in longer <==> d in done || d == key;
    forall d | d != key ensures Contributes(longer, crowded, k, d) <==> Contributes(done, crowded, k, d) {
      if exists i, j :: 0 <= i < j < |done| && done[i] == d && done[j] == k {
        var i, j :| 0 <= i < j < |done| && done[i] == d && done[j] == k;
        assert longer[i] == d && longer[j] == k;
      }
    }
    if key !in done {
      assert forall i :: 0 <= i < |done| ==> done[i] in done;
    }
  }

  lemma VisitSelf(buckets: map<string, seq<string>>, done: seq<string>, key: string)
    requires key in buckets && key !in done
    ensures GroupExists(buckets, done + [key], key) <==> |buckets[key]| > 1 || GroupExists(buckets, done, key)
    ensures forall path :: GroupHolds(buckets, done + [key], key, path) <==>
              path in buckets[key] || (|buckets[key]| <= 1 && GroupHolds(buckets, done, key, path))
  {
    var longer := done + [key];
    assert forall d :: d in longer <==> d in done || d == key;
    forall d ensures !Contributes(longer, true, key, d) {
      if d in done && Under(d, key) {
        var i :| 0 <= i < |done| && done[i] == d;
        assert longer[i] == d && longer[|done|] == key;
      }
    }
    forall d ensures Contributes(longer, false, key, d) <==> Contributes(done, false, key, d) {}
  }

  lemma VisitAncestor(buckets: map<string, seq<string>>, done: seq<string>, key: string, a: string)
    requires key in buckets && a in buckets && key !in done && Under(key, a)
    ensures GroupExists(buckets, done + [key], a)
    ensures forall path ::
              GroupHolds(buckets, done + [key], a, path) <==> GroupHolds(buckets, done, a, path) || path in buckets[key]
    ensures !GroupExists(buckets, done, a) ==> forall path :: GroupHolds(buckets, done, a, path) <==> path in buckets[a]
  {
    var longer := done + [key];
    assert longer[|done|] == key;
    SameContributors(done, key, a, |buckets[a]| > 1);
  }

  /** `Map.set` and `Set.add` for the ancestors of one key. */
  method AddToAncestors(buckets: map<string, seq<string>>, ghost done: seq<string>, key: string,
                        start: map<string, set<string>>)
    returns (groups: map<string, set<string>>)
    requires key in buckets && key !in done
    requires forall k :: k in start <==>
               (if k == key then GroupExists(buckets, done + [key], k) else GroupExists(buckets, done, k))
    requires forall k, path :: k in start ==>
               (path in start[k] <==>
                if k == key then GroupHolds(buckets, done + [key], k, path) else GroupHolds(buckets, done, k, path))
    ensures Grouped(buckets, done + [key], groups)
  {
    groups := start;
    ghost var longer := done + [key];
    var slash := 0;
    while slash < |key|
      invariant 0 <= slash <= |key|
      invariant forall k :: k in groups <==>
                  (if Visited(key, k, slash) then GroupExists(buckets, longer, k) else GroupExists(buckets, done, k))
      invariant forall k, path :: k in groups ==>
                  (path in groups[k] <==>
                    if Visited(key, k, slash) then GroupHolds(buckets, longer, k, path) else GroupHolds(buckets, done,
                                                                                                        k, path))
    {
      var ancestor := key[..slash];
      assert forall k :: k != ancestor ==> (Visited(key, k, slash + 1) <==> Visited(key, k, slash));
      assert Visited(key, ancestor, slash + 1) <==> key[slash] == '/';
      if key[slash] == '/' && ancestor in buckets {
        VisitAncestor(buckets, done, key, ancestor);
        var members := if ancestor in groups then groups[ancestor] else {};
        members := members + ToSet(buckets[ancestor]) + ToSet(buckets[key]);
        groups := groups[ancestor := members];
      }
      slash := slash + 1;
    }
    forall k ensures !Visited(key, k, |key|) ==> k != key && !Under(key, k) {}
    forall k | !Visited(key, k, |key|)
      ensures GroupExists(buckets, longer, k) <==> GroupExists(buckets, done, k)
      ensures k in buckets ==>
                forall path :: GroupHolds(buckets, longer, k, path) <==> GroupHolds(buckets, done, k, path)
    {
      VisitOther(buckets, done, key, k);
    }
  }

  /** `k` is the visited key itself or one of its ancestors shorter than `length`. */
  ghost predicate Visited(key: string, k: string, length: nat) {
    k == key || (Under(key, k) && |k| < length)
  }

  function Buckets(paths: seq<string>, collisionKey: string -> string): map<string, seq<string>> {
    map key | key in Keys(paths, collisionKey) :: Bucket(paths, collisionKey, key)
  }

  lemma BucketsSnoc(paths: seq<string>, collisionKey: string -> string, last: string)
    ensures var before, key := Buckets(paths, collisionKey), collisionKey(last);
            Buckets(paths + [last], collisionKey) ==
              before[key := (if key in before then before[key] else []) + [last]]
  {
    var longer := paths + [last];
    assert longer[..|paths|] == paths;
    assert forall p :: p in longer <==> p in paths || p == last;
    BucketMembers(paths, collisionKey, collisionKey(last));
    assert Keys(longer, collisionKey) == Keys(paths, collisionKey) + {collisionKey(last)};
  }

  method IndexPaths(paths: seq<string>, collisionKey: string -> string)
    returns (pathsByKey: map<string, seq<string>>, order: seq<string>)
    ensures pathsByKey == Buckets(paths, collisionKey)
    ensures order == KeyOrder(paths, collisionKey)
  {
    pathsByKey, order := map[], [];
    var n := 0;
    while n < |paths|
      invariant 0 <= n <= |paths|
      invariant pathsByKey == Buckets(paths[..n], collisionKey)
      invariant order == KeyOrder(paths[..n], collisionKey)
    {
      assert paths[..n + 1][..n] == paths[..n] && paths[..n + 1] == paths[..n] + [paths[n]];
      BucketsSnoc(paths[..n], collisionKey, paths[n]);
      var key := collisionKey(paths[n]);
      assert key in pathsByKey <==> key in ToSet(order);
      var members := if key in pathsByKey then pathsByKey[key] else [];
      if key !in pathsByKey { order := order + [key]; }
      pathsByKey := pathsByKey[key := members + [paths[n]]];
      n := n + 1;
    }
    assert paths[..n] == paths;
  }

  /** The groups are exactly those of `Grouped`. */
  method PortablePathConflictGroups(paths: seq<string>, collisionKey: string -> string)
    returns (groups: map<string, set<string>>)
    ensures Grouped(Buckets(paths, collisionKey), KeyOrder(paths, collisionKey), groups)
  {
    var pathsByKey, order := IndexPaths(paths, collisionKey);
    groups := map[];
    var i := 0;
    while i < |order|
      invariant 0 <= i <= |order|
      invariant Grouped(pathsByKey, order[..i], groups)
    {
      var key := order[i];
      NextIsNew(order, i);
      assert key in ToSet(order);
      groups := VisitKey(pathsByKey, order[..i], key, groups);
      i := i + 1;
    }
    assert order[..i] == order;
  }

  method VisitKey(buckets: map<string, seq<string>>, ghost done: seq<string>, key: string,
                  before: map<string, set<string>>)
    returns (groups: map<string, set<string>>)
    requires key in buckets && key !in done && Grouped(buckets, done, before)
    ensures Grouped(buckets, done + [key], groups)
  {
    VisitSelf(buckets, done, key);
    groups := before;
    if |buckets[key]| > 1 { groups := groups[key := ToSet(buckets[key])]; }
    groups := AddToAncestors(buckets, done, key, groups);
  }

  // ----- what the plugin's groups report

  /** Two entries of the input conflict portably. */
  ghost predicate SomeConflict(paths: seq<string>, collisionKey: string -> string) {
    exists i: nat, j: nat :: i < j < |paths| && PortablePathsConflict(paths[i], paths[j], collisionKey)
  }

  lemma KeysOfPaths(paths: seq<string>, collisionKey: string -> string, key: string)
    requires key in Keys(paths, collisionKey)
    ensures exists i: nat :: KeyAt(paths, collisionKey, key, i)
  {
    var p :| p in paths && collisionKey(p) == key;
    var i: nat :| i < |paths| && paths[i] == p;
    assert KeyAt(paths, collisionKey, key, i);
  }

  /** The plugin reports a group exactly when some two entries conflict. */
  lemma GroupsReportConflicts(paths: seq<string>, collisionKey: string -> string, groups: map<string, set<string>>)
    requires Grouped(Buckets(paths, collisionKey), KeyOrder(paths, collisionKey), groups)
    ensures groups != map[] <==> SomeConflict(paths, collisionKey)
  {
    var buckets, order := Buckets(paths, collisionKey), KeyOrder(paths, collisionKey);
    if groups != map[] {
      var key :| key in groups;
      CrowdedBucket(paths, collisionKey, key);
      if Crowded(paths, collisionKey, key) {
        var i: nat, j: nat :| i < j && KeyAt(paths, collisionKey, key, i) && KeyAt(paths, collisionKey, key, j);
        assert PortablePathsConflict(paths[i], paths[j], collisionKey);
      } else {
        var d :| d in order && Under(d, key);
        assert d in ToSet(order);
        KeysOfPaths(paths, collisionKey, d);
        KeysOfPaths(paths, collisionKey, key);
        var i: nat :| KeyAt(paths, collisionKey, d, i);
        var j: nat :| KeyAt(paths, collisionKey, key, j);
        assert PortablePathsConflict(paths[i], paths[j], collisionKey);
        assert PortablePathsConflict(paths[j], paths[i], collisionKey);
      }
    }
    if SomeConflict(paths, collisionKey) {
      var i: nat, j: nat :| i < j < |paths| && PortablePathsConflict(paths[i], paths[j], collisionKey);
      var a, b := collisionKey(paths[i]), collisionKey(paths[j]);
      assert a in ToSet(order) && b in ToSet(order);
      CrowdedBucket(paths, collisionKey, a);
      assert KeyAt(paths, collisionKey, a, i) && KeyAt(paths, collisionKey, b, j);
      assert GroupExists(buckets, order, a) || GroupExists(buckets, order, b);
    }
  }

  /** The longer key is the shorter one, or goes on with a slash. */
  ghost predicate Continues(longer: string, shorter: string) {
    exists rest: string :: longer == shorter + rest && (rest != "" ==> rest[0] == '/')
  }

  lemma ContinuesExactly(longer: string, shorter: string)
    ensures Continues(longer, shorter) <==> longer == shorter || Under(longer, shorter)
  {
    if Under(longer, shorter) || longer == shorter {
      assert longer == shorter + longer[|shorter|..];
    }
  }

  /** Keys conflict exactly when one continues the other at a slash or is equal to it. */
  lemma KeysConflictExactly(left: string, right: string)
    ensures KeysConflict(left, right) <==> Continues(left, right) || Continues(right, left)
  {
    ContinuesExactly(left, right);
    ContinuesExactly(right, left);
  }

  /** There is a group exactly when one entry's key is another's, or that followed by a slash and more. */
  lemma GroupsReportPrefixes(paths: seq<string>, collisionKey: string -> string, groups: map<string, set<string>>)
    requires Grouped(Buckets(paths, collisionKey), KeyOrder(paths, collisionKey), groups)
    ensures groups != map[] <==>
            exists i: nat, j: nat ::
              i < |paths| && j < |paths| && i != j && Continues(collisionKey(paths[i]), collisionKey(paths[j]))
  {
    GroupsReportConflicts(paths, collisionKey, groups);
    forall i: nat, j: nat | i < |paths| && j < |paths| {
      KeysConflictExactly(collisionKey(paths[i]), collisionKey(paths[j]));
    }
    if i: nat, j: nat :|
      i < |paths| && j < |paths| && i != j && Continues(collisionKey(paths[i]), collisionKey(paths[j]))
    {
      assert PortablePathsConflict(paths[i], paths[j], collisionKey);
      assert PortablePathsConflict(paths[j], paths[i], collisionKey);
      assert i < j || j < i;
    }
    if i: nat, j: nat :| i < j < |paths| && PortablePathsConflict(paths[i], paths[j], collisionKey) {
      assert Continues(collisionKey(paths[i]), collisionKey(paths[j]))
             || Continues(collisionKey(paths[j]), collisionKey(paths[i]));
    }
  }

  /** Of two conflicting entries at least one is in a group, forgotten descendants included. */
  lemma ConflictIsReported(paths: seq<string>, collisionKey: string -> string, groups: map<string, set<string>>,
                           i: nat, j: nat)
    requires Grouped(Buckets(paths, collisionKey), KeyOrder(paths, collisionKey), groups)
    requires i < j < |paths| && PortablePathsConflict(paths[i], paths[j], collisionKey)
    ensures exists key :: key in groups && (paths[i] in groups[key] || paths[j] in groups[key])
  {
    var a, b := collisionKey(paths[i]), collisionKey(paths[j]);
    assert KeyAt(paths, collisionKey, a, i) && KeyAt(paths, collisionKey, b, j);
    if a == b {
      CrowdedBucket(paths, collisionKey, a);
      OwnPathsAreReported(paths, collisionKey, groups, i, a);
    } else if Under(a, b) {
      OwnPathsAreReported(paths, collisionKey, groups, j, a);
    } else {
      OwnPathsAreReported(paths, collisionKey, groups, i, b);
    }
  }

  /** The `i`-th entry conflicts with another one. */
  ghost predicate ConflictsAt(paths: seq<string>, collisionKey: string -> string, i: nat) {
    exists j: nat :: j < |paths| && i < |paths| && j != i && PortablePathsConflict(paths[i], paths[j], collisionKey)
  }

  /** Whatever is in a group conflicts with another entry. */
  lemma ReportedConflicts(paths: seq<string>, collisionKey: string -> string, groups: map<string, set<string>>,
                          key: string, i: nat)
    requires Grouped(Buckets(paths, collisionKey), KeyOrder(paths, collisionKey), groups)
    requires i < |paths| && key in groups && paths[i] in groups[key]
    ensures ConflictsAt(paths, collisionKey, i)
  {
    var order, own := KeyOrder(paths, collisionKey), collisionKey(paths[i]);
    forall k { BucketMembers(paths, collisionKey, k); }
    if own != key {
      assert Under(own, key);
      AnotherConflicts(paths, collisionKey, i, key);
    } else if exists d :: d in order && Under(d, key) {
      var d :| d in order && Under(d, key);
      assert d in ToSet(order);
      AnotherConflicts(paths, collisionKey, i, d);
    } else {
      CrowdedBucket(paths, collisionKey, key);
      var a: nat, b: nat :| a < b && KeyAt(paths, collisionKey, key, a) && KeyAt(paths, collisionKey, key, b);
      var j := if a == i then b else a;
      assert j != i && PortablePathsConflict(paths[i], paths[j], collisionKey);
    }
  }

  lemma AnotherConflicts(paths: seq<string>, collisionKey: string -> string, i: nat, key: string)
    requires i < |paths| && key in Keys(paths, collisionKey) && key != collisionKey(paths[i])
    requires KeysConflict(collisionKey(paths[i]), key)
    ensures ConflictsAt(paths, collisionKey, i)
  {
    var p :| p in paths && collisionKey(p) == key;
    var j: nat :| j < |paths| && paths[j] == p;
    assert PortablePathsConflict(paths[i], paths[j], collisionKey);
  }

  /** A crowded key, and a key with another below it, reports its own paths. */
  lemma OwnPathsAreReported(paths: seq<string>, collisionKey: string -> string, groups: map<string, set<string>>,
                            i: nat, other: string)
    requires Grouped(Buckets(paths, collisionKey), KeyOrder(paths, collisionKey), groups)
    requires i < |paths| && other in Keys(paths, collisionKey)
    requires var key := collisionKey(paths[i]); |Bucket(paths, collisionKey, key)| > 1 || Under(other, key)
    ensures collisionKey(paths[i]) in groups && paths[i] in groups[collisionKey(paths[i])]
  {
    var buckets, order, key := Buckets(paths, collisionKey), KeyOrder(paths, collisionKey), collisionKey(paths[i]);
    assert key in ToSet(order) && other in ToSet(order);
    BucketMembers(paths, collisionKey, key);
    assert GroupExists(buckets, order, key);
    assert GroupHolds(buckets, order, key, paths[i]);
  }

  /** `first` is seen before `second`. */
  ghost predicate SeenBefore(order: seq<string>, first: string, second: string) {
    exists i, j :: 0 <= i < j < |order| && order[i] == first && order[j] == second
  }

  /** A path under a folder-named path is reported in that path's group exactly when no other path
      shares the ancestor's key, or the ancestor's key was seen first. */
  lemma DescendantReportedExactly(paths: seq<string>, collisionKey: string -> string, groups: map<string, set<string>>,
                                  path: string, ancestor: string)
    requires Grouped(Buckets(paths, collisionKey), KeyOrder(paths, collisionKey), groups)
    requires path in paths && ancestor in paths && Under(collisionKey(path), collisionKey(ancestor))
    ensures collisionKey(ancestor) in groups && ancestor in groups[collisionKey(ancestor)]
    ensures path in groups[collisionKey(ancestor)] <==>
              !(Crowded(paths, collisionKey, collisionKey(ancestor))
                && SeenBefore(KeyOrder(paths, collisionKey), collisionKey(path), collisionKey(ancestor)))
  {
    var buckets, order := Buckets(paths, collisionKey), KeyOrder(paths, collisionKey);
    var d, a := collisionKey(path), collisionKey(ancestor);
    assert d in ToSet(order) && a in ToSet(order);
    BucketMembers(paths, collisionKey, a);
    BucketMembers(paths, collisionKey, d);
    CrowdedBucket(paths, collisionKey, a);
    assert GroupExists(buckets, order, a);
    forall x | x in buckets && path in buckets[x] ensures x == d { BucketMembers(paths, collisionKey, x); }
    assert path !in buckets[a] && path in buckets[d];
    assert GroupHolds(buckets, order, a, path) <==> Contributes(order, |buckets[a]| > 1, a, d);
  }

  /** A key that nothing shares and nothing lies under has no group. */
  lemma LoneLeafHasNoGroup(paths: seq<string>, collisionKey: string -> string, groups: map<string, set<string>>,
                           key: string)
    requires Grouped(Buckets(paths, collisionKey), KeyOrder(paths, collisionKey), groups)
    requires !Crowded(paths, collisionKey, key) && forall p :: p in paths ==> !Under(collisionKey(p), key)
    ensures key !in groups
  {
    CrowdedBucket(paths, collisionKey, key);
    forall d | d in KeyOrder(paths, collisionKey) ensures !Under(d, key) {
      assert d in ToSet(KeyOrder(paths, collisionKey));
    }
  }

  /** A descendant that no group reports: the second and third path share the key "ab", and "ab/x" came first. */
  lemma DescendantCanBeForgotten(paths: seq<string>, collisionKey: string -> string, groups: map<string, set<string>>)
    requires paths == ["ab/x", "AB", "Ab"]
    requires collisionKey("ab/x") == "ab/x" && collisionKey("AB") == collisionKey("Ab") == "ab"
    requires Grouped(Buckets(paths, collisionKey), KeyOrder(paths, collisionKey), groups)
    ensures "ab" in groups && "ab/x" !in groups["ab"]
    ensures "ab/x" !in groups
  {
    assert KeyAt(paths, collisionKey, "ab", 1) && KeyAt(paths, collisionKey, "ab", 2);
    OrderOfThree("ab/x", "AB", "Ab", collisionKey);
    DescendantReportedExactly(paths, collisionKey, groups, "ab/x", "AB");
    OnlyFirst(paths, collisionKey);
    LoneLeafHasNoGroup(paths, collisionKey, groups, "ab/x");
  }

  lemma OnlyFirst(paths: seq<string>, collisionKey: string -> string)
    requires |paths| == 3 && collisionKey(paths[1]) == collisionKey(paths[2]) == "ab"
    ensures !Crowded(paths, collisionKey, "ab/x")
  {}

  lemma KeyOrderSnoc(paths: seq<string>, collisionKey: string -> string, last: string)
    ensures KeyOrder(paths + [last], collisionKey) ==
              if collisionKey(last) in KeyOrder(paths, collisionKey) then KeyOrder(paths, collisionKey)
              else KeyOrder(paths, collisionKey) + [collisionKey(last)]
  {}

  lemma OrderOfThree(p: string, q: string, r: string, collisionKey: string -> string)
    requires collisionKey(p) != collisionKey(q) == collisionKey(r)
    ensures SeenBefore(KeyOrder([p, q, r], collisionKey), collisionKey(p), collisionKey(q))
  {
    KeyOrderSnoc([], collisionKey, p);
    KeyOrderSnoc([p], collisionKey, q);
    KeyOrderSnoc([p, q], collisionKey, r);
    assert [] + [p] == [p] && [p] + [q] == [p, q] && [p, q] + [r] == [p, q, r];
    var order := KeyOrder([p, q, r], collisionKey);
    assert order[0] == collisionKey(p) && order[1] == collisionKey(q);
  }

  // ----- the server-side detector

  /** The keys that several entries share. */
  function CrowdedGroups(buckets: map<string, seq<string>>): map<string, seq<string>> {
    map key | key in buckets && |buckets[key]| > 1 :: buckets[key]
  }

  ghost predicate PrefixGrouped(buckets: map<string, seq<string>>, done: set<string>,
                                groups: map<string, set<string>>)
  {
    && (forall k :: k in groups <==> k in buckets && exists d :: d in done && Under(d, k))
    && (forall k, path :: k in groups ==>
          (path in groups[k] <==>
             path in buckets[k] || exists d :: d in done && d in buckets && Under(d, k) && path in buckets[d]))
  }

  ghost predicate Passed(key: string, k: string, length: nat) {
    Under(key, k) && |k| < length
  }

  method AddPrefixes(buckets: map<string, seq<string>>, ghost done: set<string>, key: string,
                     before: map<string, set<string>>)
    returns (groups: map<string, set<string>>)
    requires key in buckets && PrefixGrouped(buckets, done, before)
    ensures PrefixGrouped(buckets, done + {key}, groups)
  {
    groups := before;
    var slash := 0;
    while slash < |key|
      invariant 0 <= slash <= |key|
      invariant forall k :: k in groups <==> k in before || (k in buckets && Passed(key, k, slash))
      invariant forall k :: k in groups && !Passed(key, k, slash) ==> groups[k] == before[k]
      invariant forall k :: k in groups && Passed(key, k, slash) ==>
                  groups[k] == (if k in before then before[k] else {}) + ToSet(buckets[k]) + ToSet(buckets[key])
    {
      var ancestor := key[..slash];
      assert forall k :: k != ancestor ==> (Passed(key, k, slash + 1) <==> Passed(key, k, slash));
      assert !Passed(key, ancestor, slash);
      assert Passed(key, ancestor, slash + 1) <==> key[slash] == '/';
      if key[slash] == '/' && ancestor in buckets {
        var members := if ancestor in groups then groups[ancestor] else {};
        groups := groups[ancestor := members + ToSet(buckets[ancestor]) + ToSet(buckets[key])];
      }
      slash := slash + 1;
    }
    PrefixesAreAdded(buckets, done, key, before, groups);
  }

  lemma PrefixesAreAdded(buckets: map<string, seq<string>>, done: set<string>, key: string,
                         before: map<string, set<string>>, groups: map<string, set<string>>)
    requires key in buckets && PrefixGrouped(buckets, done, before)
    requires forall k :: k in groups <==> k in before || (k in buckets && Passed(key, k, |key|))
    requires forall k :: k in groups && !Passed(key, k, |key|) ==> groups[k] == before[k]
    requires forall k :: k in groups && Passed(key, k, |key|) ==>
               groups[k] == (if k in before then before[k] else {}) + ToSet(buckets[k]) + ToSet(buckets[key])
    ensures PrefixGrouped(buckets, done + {key}, groups)
  {
    assert forall k :: Passed(key, k, |key|) <==> Under(key, k);
  }

  /** Same-key collisions and prefix collisions, over the buckets in key order. */
  method DetectCollisions(paths: seq<string>, collisionKey: string -> string)
    returns (sameKey: map<string, seq<string>>, prefix: map<string, set<string>>)
    ensures sameKey == CrowdedGroups(Buckets(paths, collisionKey))
    ensures PrefixGrouped(Buckets(paths, collisionKey), Keys(paths, collisionKey), prefix)
  {
    var grouped, _ := IndexPaths(paths, collisionKey);
    sameKey := CrowdedGroups(grouped);
    prefix := map[];
    var rest := grouped.Keys;
    ghost var done: set<string> := {};
    while rest != {}
      invariant done + rest == grouped.Keys
      invariant PrefixGrouped(grouped, done, prefix)
      decreases rest
    {
      var key :| key in rest;
      prefix := AddPrefixes(grouped, done, key, prefix);
      done := done + {key};
      rest := rest - {key};
    }
    assert done == Keys(paths, collisionKey);
  }

  ghost predicate Reports(sameKey: map<string, seq<string>>, prefix: map<string, set<string>>, p: string, q: string) {
    || (exists k :: k in sameKey && p in sameKey[k] && q in sameKey[k])
    || (exists k :: k in prefix && p in prefix[k] && q in prefix[k])
  }

  /** Every conflicting pair of entries is reported together in some group. */
  lemma DetectorIsComplete(paths: seq<string>, collisionKey: string -> string,
                           sameKey: map<string, seq<string>>, prefix: map<string, set<string>>, i: nat, j: nat)
    requires sameKey == CrowdedGroups(Buckets(paths, collisionKey))
    requires PrefixGrouped(Buckets(paths, collisionKey), Keys(paths, collisionKey), prefix)
    requires i < j < |paths| && PortablePathsConflict(paths[i], paths[j], collisionKey)
    ensures Reports(sameKey, prefix, paths[i], paths[j])
  {
    var p, q := paths[i], paths[j];
    var a, b := collisionKey(p), collisionKey(q);
    BucketMembers(paths, collisionKey, a);
    BucketMembers(paths, collisionKey, b);
    CrowdedBucket(paths, collisionKey, a);
    assert KeyAt(paths, collisionKey, a, i) && KeyAt(paths, collisionKey, b, j);
    if a == b {
      assert a in sameKey && p in sameKey[a] && q in sameKey[a];
    } else if Under(a, b) {
      assert b in prefix && p in prefix[b] && q in prefix[b];
    } else {
      assert a in prefix && p in prefix[a] && q in prefix[a];
    }
  }

  /** Every reported path conflicts with another entry of the input. */
  lemma DetectorIsSound(paths: seq<string>, collisionKey: string -> string,
                        sameKey: map<string, seq<string>>, prefix: map<string, set<string>>, k: string, p: string)
    requires sameKey == CrowdedGroups(Buckets(paths, collisionKey))
    requires PrefixGrouped(Buckets(paths, collisionKey), Keys(paths, collisionKey), prefix)
    requires (k in sameKey && p in sameKey[k]) || (k in prefix && p in prefix[k])
    ensures exists i: nat, j: nat :: i < |paths| && j < |paths| && i != j && paths[i] == p
              && PortablePathsConflict(paths[i], paths[j], collisionKey)
  {
    BucketMembers(paths, collisionKey, k);
    if k in sameKey && p in sameKey[k] {
      CrowdedBucket(paths, collisionKey, k);
      var a: nat, b: nat :| a < b && KeyAt(paths, collisionKey, k, a) && KeyAt(paths, collisionKey, k, b);
      var i: nat :| i < |paths| && paths[i] == p;
      var j := if i == a then b else a;
      assert PortablePathsConflict(paths[i], paths[j], collisionKey);
    } else {
      var d :| d in Keys(paths, collisionKey) && Under(d, k)
          && (p in Bucket(paths, collisionKey, k) || p in Bucket(paths, collisionKey, d));
      BucketMembers(paths, collisionKey, d);
      KeysOfPaths(paths, collisionKey, k);
      KeysOfPaths(paths, collisionKey, d);
      var i: nat :| i < |paths| && paths[i] == p;
      var j: nat :| KeyAt(paths, collisionKey, if collisionKey(p) == k then d else k, j);
      assert PortablePathsConflict(paths[i], paths[j], collisionKey);
    }
  }
}
