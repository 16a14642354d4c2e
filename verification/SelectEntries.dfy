/** Choosing one version of every object among the heads (plugin/src/sync/pull.ts). */
module SelectEntries {
  import opened Basics
  import Paths

  /** An object's value in the snapshot of one head; values are compared by content only. */
  datatype Entry<V> = Entry(value: V, head: Id)

  /** The snapshot of one head. */
  datatype Head<V> = Head(id: Id, snapshot: map<Id, V>)

  datatype Choice<V> = Choice(selected: Entry<V>, conflicts: seq<Entry<V>>)

  // ----- what the choice must be

  ghost predicate HoldsAt<V>(entries: seq<Entry<V>>, i: nat, value: V) {
    i < |entries| && entries[i].value == value
  }

  ghost predicate Held<V>(entries: seq<Entry<V>>, value: V) {
    exists i: nat :: HoldsAt(entries, i, value)
  }

  /** `entry` is the last of the entries with its value. */
  ghost predicate LastHolder<V>(entries: seq<Entry<V>>, entry: Entry<V>) {
    exists i: nat :: i < |entries| && entries[i] == entry && forall j: nat :: i < j ==>
        !HoldsAt(entries, j, entry.value)
  }

  /** One entry for each value, the last one. */
  ghost predicate Unique<V>(entries: seq<Entry<V>>, variants: seq<Entry<V>>) {
    && (forall i, j :: 0 <= i < j < |variants| ==> variants[i].value != variants[j].value)
    && (forall v :: v in variants ==> LastHolder(entries, v))
    && (forall i: nat :: i < |entries| ==> Held(variants, entries[i].value))
  }

  /** The value is not the one of the merge base. */
  predicate Changed<V(==)>(base: Option<Entry<V>>, value: V) {
    base.None? || base.value.value != value
  }

  ghost predicate AnyChanged<V>(base: Option<Entry<V>>, entries: seq<Entry<V>>) {
    exists i: nat :: i < |entries| && Changed(base, entries[i].value)
  }

  /** What a choice must satisfy for the entries the heads hold for one object. */
  ghost predicate Chosen<V>(rank: map<Id, nat>, base: Option<Entry<V>>, entries: seq<Entry<V>>, choice: Choice<V>)
    requires forall e :: e in entries ==> e.head in rank
  {
    && LastHolder(entries, choice.selected)
    && (AnyChanged(base, entries) ==> Changed(base, choice.selected.value))
    && (forall i: nat :: i < |entries| ==>
          || entries[i].value == choice.selected.value
          || !Changed(base, entries[i].value)
          || Held(choice.conflicts, entries[i].value))
    && (forall c :: c in choice.conflicts ==>
          && LastHolder(entries, c) && c.value != choice.selected.value && Changed(base, c.value)
          && c.head in rank && choice.selected.head in rank && !Before(rank, choice.selected.head, c.head))
    && (forall i, j :: 0 <= i < j < |choice.conflicts| ==> choice.conflicts[i].value != choice.conflicts[j].value)
  }

  // ----- the imperative form

  /** The entries for one object, in head order. */
  function EntriesOf<V>(heads: seq<Head<V>>, object': Id): seq<Entry<V>> {
    if heads == [] then []
    else
      var last := heads[|heads| - 1];
      if object' in last.snapshot
      then EntriesOf(heads[..|heads| - 1], object') + [Entry(last.snapshot[object'], last.id)]
      else EntriesOf(heads[..|heads| - 1], object')
  }

  lemma {:induction false} EntriesOfMembers<V>(heads: seq<Head<V>>, object': Id)
    ensures forall e :: e in EntriesOf(heads, object') <==>
              exists h :: h in heads && object' in h.snapshot && e == Entry(h.snapshot[object'], h.id)
    decreases |heads|
  {
    if heads != [] {
      var init, last := heads[..|heads| - 1], heads[|heads| - 1];
      assert heads == init + [last];
      EntriesOfMembers(init, object');
      forall e ensures e in EntriesOf(heads, object') <==>
                         exists h :: h in heads && object' in h.snapshot && e == Entry(h.snapshot[object'], h.id)
      {
        if h :| h in heads && object' in h.snapshot && e == Entry(h.snapshot[object'], h.id) && h != last {
          assert h in init;
        }
        if e in EntriesOf(init, object') {
          var h :| h in init && object' in h.snapshot && e == Entry(h.snapshot[object'], h.id);
          assert h in heads;
        }
      }
    }
  }

  /** The head holds this entry for the object. */
  ghost predicate HeadHolds<V>(heads: seq<Head<V>>, i: nat, object': Id, value: V) {
    i < |heads| && object' in heads[i].snapshot && heads[i].snapshot[object'] == value
  }

  ghost predicate LastHeadAt<V>(heads: seq<Head<V>>, object': Id, entry: Entry<V>, i: nat) {
    && HeadHolds(heads, i, object', entry.value) && heads[i].id == entry.head
    && forall j: nat :: i < j ==> !HeadHolds(heads, j, object', entry.value)
  }

  /** `entry` is what the last of the heads with its value holds. */
  ghost predicate LastHead<V>(heads: seq<Head<V>>, object': Id, entry: Entry<V>) {
    exists i: nat :: LastHeadAt(heads, object', entry, i)
  }

  lemma LastHolderSnoc<V>(entries: seq<Entry<V>>, last: Entry<V>, entry: Entry<V>)
    ensures LastHolder(entries + [last], entry) <==>
              entry == last || (LastHolder(entries, entry) && entry.value != last.value)
  {
    var all := entries + [last];
    assert HoldsAt(all, |entries|, last.value) && all[|entries|] == last;
    forall j: nat, v | j < |entries| ensures HoldsAt(all, j, v) <==> HoldsAt(entries, j, v) {}
    if LastHolder(entries, entry) && entry.value != last.value {
      var i: nat :| i < |entries| && entries[i] == entry
                    && forall j: nat :: i < j ==> !HoldsAt(entries, j, entry.value);
      assert all[i] == entry && forall j: nat :: i < j ==> !HoldsAt(all, j, entry.value);
    }
    if LastHolder(all, entry) && entry != last {
      var i: nat :| i < |all| && all[i] == entry && forall j: nat :: i < j ==> !HoldsAt(all, j, entry.value);
      assert entries[i] == entry && forall j: nat :: i < j ==> !HoldsAt(entries, j, entry.value);
    }
  }

  lemma LastHeadSnoc<V>(heads: seq<Head<V>>, last: Head<V>, object': Id, entry: Entry<V>)
    ensures LastHead(heads + [last], object', entry) <==>
              if object' in last.snapshot
              then entry == Entry(last.snapshot[object'], last.id)
                   || (LastHead(heads, object', entry) && entry.value != last.snapshot[object'])
              else LastHead(heads, object', entry)
  {
    var all := heads + [last];
    forall j: nat, v | j < |heads| ensures HeadHolds(all, j, object', v) <==> HeadHolds(heads, j, object', v) {}
    if object' in last.snapshot { assert HeadHolds(all, |heads|, object', last.snapshot[object']); }
    if i: nat :| LastHeadAt(heads, object', entry, i) && !HeadHolds(all, |heads|, object', entry.value) {
      assert LastHeadAt(all, object', entry, i);
    }
    if i: nat :| LastHeadAt(all, object', entry, i) && i < |heads| {
      assert LastHeadAt(heads, object', entry, i);
    }
    if object' in last.snapshot && entry == Entry(last.snapshot[object'], last.id) {
      assert LastHeadAt(all, object', entry, |heads|);
    }
  }

  /** An entry is the last with its value exactly when no later head holds that value. */
  lemma {:induction false} LastHolderIsLastHead<V>(heads: seq<Head<V>>, object': Id, entry: Entry<V>)
    ensures LastHolder(EntriesOf(heads, object'), entry) <==> LastHead(heads, object', entry)
    decreases |heads|
  {
    if heads != [] {
      var init, last := heads[..|heads| - 1], heads[|heads| - 1];
      assert heads == init + [last];
      LastHolderIsLastHead(init, object', entry);
      LastHeadSnoc(init, last, object', entry);
      if object' in last.snapshot {
        LastHolderSnoc(EntriesOf(init, object'), Entry(last.snapshot[object'], last.id), entry);
      }
    }
  }

  lemma NoEntries<V>(heads: seq<Head<V>>, object': Id)
    ensures EntriesOf(heads, object') == [] <==> forall h :: h in heads ==> object' !in h.snapshot
  {}

  lemma EntriesAreRanked<V>(rank: map<Id, nat>, heads: seq<Head<V>>, object': Id)
    requires forall h :: h in heads ==> h.id in rank
    ensures forall e :: e in EntriesOf(heads, object') ==> e.head in rank
  {}

  /** A JavaScript map from value to entry in insertion order: a later entry takes the earlier one's place. */
  method UniqueVariants<V(==)>(entries: seq<Entry<V>>) returns (variants: seq<Entry<V>>)
    ensures Unique(entries, variants)
    ensures variants == [] <==> entries == []
  {
    variants := [];
    for i := 0 to |entries|
      invariant Unique(entries[..i], variants)
      invariant variants == [] <==> i == 0
    {
      var k := 0;
      while k < |variants| && variants[k].value != entries[i].value
        invariant 0 <= k <= |variants|
        invariant forall j :: 0 <= j < k ==> variants[j].value != entries[i].value
      {
        k := k + 1;
      }
      UniqueNext(entries, i, variants, k);
      variants := if k < |variants| then variants[k := entries[i]] else variants + [entries[i]];
    }
    assert entries[..|entries|] == entries;
  }

  lemma UniqueNext<V>(entries: seq<Entry<V>>, i: nat, variants: seq<Entry<V>>, k: nat)
    requires i < |entries| && Unique(entries[..i], variants) && k <= |variants|
    requires forall j :: 0 <= j < k ==> variants[j].value != entries[i].value
    requires k < |variants| ==> variants[k].value == entries[i].value
    ensures Unique(entries[..i + 1], if k < |variants| then variants[k := entries[i]] else variants + [entries[i]])
  {
    var next := if k < |variants| then variants[k := entries[i]] else variants + [entries[i]];
    var seen, longer := entries[..i], entries[..i + 1];
    assert longer == seen + [entries[i]];
    assert next[k] == entries[i];
    forall v | v in next ensures LastHolder(longer, v) {
      if v == entries[i] {
        assert longer[i] == v;
      } else {
        var j :| 0 <= j < |next| && next[j] == v;
        assert variants[j] == v && v in variants && v.value != entries[i].value;
        StillLastHolder(seen, entries[i], v);
      }
    }
    forall j: nat | j < |longer| ensures Held(next, longer[j].value) {
      if j == i || longer[j].value == entries[i].value {
        assert HoldsAt(next, k, entries[i].value);
      } else {
        assert longer[j] == seen[j];
        var m: nat :| HoldsAt(variants, m, seen[j].value);
        assert HoldsAt(next, m, seen[j].value);
      }
    }
  }

  lemma StillLastHolder<V>(seen: seq<Entry<V>>, e: Entry<V>, v: Entry<V>)
    requires LastHolder(seen, v) && v.value != e.value
    ensures LastHolder(seen + [e], v)
  {
    var i: nat :| i < |seen| && seen[i] == v && forall j: nat :: i < j ==> !HoldsAt(seen, j, v.value);
    forall j: nat | i < j ensures !HoldsAt(seen + [e], j, v.value) {
      assert j < |seen| ==> (seen + [e])[j] == seen[j] && !HoldsAt(seen, j, v.value);
    }
    assert (seen + [e])[i] == v;
  }

  /** `variants.filter`. */
  method Filter<V(==)>(variants: seq<Entry<V>>, base: Option<Entry<V>>) returns (changed: seq<Entry<V>>)
    requires forall i, j :: 0 <= i < j < |variants| ==> variants[i].value != variants[j].value
    ensures forall v :: v in changed <==> v in variants && Changed(base, v.value)
    ensures forall i, j :: 0 <= i < j < |changed| ==> changed[i].value != changed[j].value
  {
    changed := [];
    for i := 0 to |variants|
      invariant forall v :: v in changed <==> v in variants[..i] && Changed(base, v.value)
      invariant forall k, j :: 0 <= k < |changed| && i <= j < |variants| ==> changed[k].value != variants[j].value
      invariant forall k, j :: 0 <= k < j < |changed| ==> changed[k].value != changed[j].value
    {
      if Changed(base, variants[i].value) {
        changed := changed + [variants[i]];
      }
    }
  }

  /** The last candidate in a stable sort by (timestamp, identifier). */
  method Newest<V>(rank: map<Id, nat>, candidates: seq<Entry<V>>) returns (winner: Entry<V>)
    requires candidates != [] && forall c :: c in candidates ==> c.head in rank
    ensures winner in candidates && forall c :: c in candidates ==> !Before(rank, winner.head, c.head)
  {
    winner := candidates[0];
    for i := 1 to |candidates|
      invariant winner in candidates
      invariant forall k :: 0 <= k < i ==> !Before(rank, winner.head, candidates[k].head)
    {
      var c := candidates[i];
      if rank[winner.head] < rank[c.head] || (rank[winner.head] == rank[c.head] && winner.head <= c.head) {
        winner := c;
      }
    }
  }

  lemma HeldMember<V>(variants: seq<Entry<V>>, v: Entry<V>)
    requires v in variants
    ensures Held(variants, v.value)
  {
    var i :| 0 <= i < |variants| && variants[i] == v;
    assert HoldsAt(variants, i, v.value);
  }

  lemma CandidatesCover<V>(base: Option<Entry<V>>, entries: seq<Entry<V>>, variants: seq<Entry<V>>,
                           changed: seq<Entry<V>>,
                           winner: Entry<V>, conflicts: seq<Entry<V>>)
    requires Unique(entries, variants)
    requires forall v :: v in changed <==> v in variants && Changed(base, v.value)
    requires forall v :: v in conflicts <==> v in changed && Changed(Some(winner), v.value)
    ensures AnyChanged(base, entries) ==> changed != []
    ensures forall i: nat :: i < |entries| ==>
              || entries[i].value == winner.value || !Changed(base, entries[i].value)
                  || Held(conflicts, entries[i].value)
  {
    forall i: nat | i < |entries| && Changed(base, entries[i].value)
      ensures changed != [] && (entries[i].value == winner.value || Held(conflicts, entries[i].value))
    {
      var v :| v in changed && v.value == entries[i].value;
      if v in conflicts { HeldMember(conflicts, v); }
    }
  }

  /** The body of the loop over the objects: no version is dropped, and the winner is the newest candidate. */
  method Choose<V(==)>(rank: map<Id, nat>, base: Option<Entry<V>>, entries: seq<Entry<V>>) returns (choice: Choice<V>)
    requires entries != [] && forall e :: e in entries ==> e.head in rank
    ensures Chosen(rank, base, entries, choice)
  {
    var variants := UniqueVariants(entries);
    assert forall v :: v in variants ==> v in entries;
    var changed := Filter(variants, base);
    var candidates := if changed == [] then variants else changed;
    var winner := Newest(rank, candidates);
    var conflicts := Filter(changed, Some(winner));
    choice := Choice(winner, conflicts);
    CandidatesCover(base, entries, variants, changed, winner, conflicts);
  }

  /** The selection for one object: the base entry when no head holds the object. */
  ghost predicate SelectedFor<V>(rank: map<Id, nat>, base: map<Id, Entry<V>>, heads: seq<Head<V>>, object': Id,
                                 choice: Choice<V>)
    requires forall h :: h in heads ==> h.id in rank
  {
    var entries := EntriesOf(heads, object');
    EntriesAreRanked(rank, heads, object');
    var baseEntry := if object' in base then Some(base[object']) else None;
    if entries == [] then object' in base && choice == Choice(base[object'], [])
    else Chosen(rank, baseEntry, entries, choice)
  }

  method ObjectIds<V>(base: map<Id, Entry<V>>, heads: seq<Head<V>>) returns (objects: set<Id>)
    ensures forall o :: o in objects <==> o in base || exists h :: h in heads && o in h.snapshot
  {
    objects := base.Keys;
    for i := 0 to |heads|
      invariant forall o :: o in objects <==> o in base || exists k :: 0 <= k < i && o in heads[k].snapshot
    {
      objects := objects + heads[i].snapshot.Keys;
    }
  }

  /** `selectEntries`: a selection for exactly the objects of the base and the heads. */
  method Select<V(==)>(rank: map<Id, nat>, base: map<Id, Entry<V>>, heads: seq<Head<V>>)
    returns (selected: map<Id, Choice<V>>)
    requires forall h :: h in heads ==> h.id in rank
    ensures forall o :: o in selected <==> o in base || exists h :: h in heads && o in h.snapshot
    ensures forall o :: o in selected ==> SelectedFor(rank, base, heads, o, selected[o])
    ensures forall o :: o in selected ==>
              if exists h :: h in heads && o in h.snapshot then LastHead(heads, o, selected[o].selected)
              else selected[o] == Choice(base[o], [])
  {
    var objects := ObjectIds(base, heads);
    selected := map[];
    var rest := objects;
    while rest != {}
      invariant rest <= objects && selected.Keys == objects - rest
      invariant forall o :: o in selected ==> SelectedFor(rank, base, heads, o, selected[o])
      invariant forall o :: o in selected ==> o in base || exists h :: h in heads && o in h.snapshot
      decreases rest
    {
      var object' :| object' in rest;
      rest := rest - {object'};
      EntriesAreRanked(rank, heads, object');
      NoEntries(heads, object');
      var entries := EntriesOf(heads, object');
      if entries == [] {
        selected := selected[object' := Choice(base[object'], [])];
      } else {
        var baseEntry := if object' in base then Some(base[object']) else None;
        var choice := Choose(rank, baseEntry, entries);
        selected := selected[object' := choice];
      }
    }
    forall o | o in selected && exists h :: h in heads && o in h.snapshot
      ensures LastHead(heads, o, selected[o].selected)
    {
      NoEntries(heads, o);
      LastHolderIsLastHead(heads, o, selected[o].selected);
    }
    forall o | o in selected && !(exists h :: h in heads && o in h.snapshot)
      ensures selected[o] == Choice(base[o], [])
    {
      NoEntries(heads, o);
    }
  }

  // ----- what follows

  /** No concurrent version is dropped: a head's value is selected, listed as a conflict, or the base's own. */
  lemma NothingDropped<V>(rank: map<Id, nat>, base: map<Id, Entry<V>>, heads: seq<Head<V>>, object': Id,
                          choice: Choice<V>, h: Head<V>)
    requires forall x :: x in heads ==> x.id in rank
    requires SelectedFor(rank, base, heads, object', choice) && h in heads && object' in h.snapshot
    ensures || h.snapshot[object'] == choice.selected.value
            || (exists c :: c in choice.conflicts && c.value == h.snapshot[object'])
            || (object' in base && h.snapshot[object'] == base[object'].value)
  {
    var entries := EntriesOf(heads, object');
    EntriesOfMembers(heads, object');
    var e := Entry(h.snapshot[object'], h.id);
    assert e in entries;
    var i :| 0 <= i < |entries| && entries[i] == e;
  }

  /** Nothing is invented: a selected or conflicting version is some head's, with that head's identifier. */
  lemma NothingInvented<V>(rank: map<Id, nat>, base: map<Id, Entry<V>>, heads: seq<Head<V>>, object': Id,
                           choice: Choice<V>, e: Entry<V>)
    requires forall x :: x in heads ==> x.id in rank
    requires SelectedFor(rank, base, heads, object', choice) && (e == choice.selected || e in choice.conflicts)
    ensures || (exists h :: h in heads && object' in h.snapshot && e == Entry(h.snapshot[object'], h.id))
            || (object' in base && e == base[object'] && forall h :: h in heads ==> object' !in h.snapshot)
  {
    var entries := EntriesOf(heads, object');
    EntriesOfMembers(heads, object');
    NoEntries(heads, object');
    if entries != [] {
      assert LastHolder(entries, e);
      assert e in entries;
    }
  }

  /** A value only one side changed to is selected without a conflict. */
  lemma OneSidedChangeWins<V>(rank: map<Id, nat>, base: Option<Entry<V>>, entries: seq<Entry<V>>, choice: Choice<V>,
                              value: V)
    requires entries != [] && (forall e :: e in entries ==> e.head in rank) && Chosen(rank, base, entries, choice)
    requires forall e :: e in entries ==> e.value == value || !Changed(base, e.value)
    requires exists e :: e in entries && e.value == value && Changed(base, value)
    ensures choice.selected.value == value && choice.conflicts == []
  {
    var e :| e in entries && e.value == value && Changed(base, value);
    var i :| 0 <= i < |entries| && entries[i] == e;
    assert choice.selected in entries;
    if choice.conflicts != [] { HasMember(choice.conflicts); }
  }

  ghost predicate NewestChanged<V>(rank: map<Id, nat>, base: Option<Entry<V>>, entries: seq<Entry<V>>, e: Entry<V>)
    requires forall x :: x in entries ==> x.head in rank
  {
    e in entries && Changed(base, e.value)
    && forall x :: x in entries && Changed(base, x.value) && x != e ==> Before(rank, x.head, e.head)
  }

  /** The newest changed entry wins exactly when no later head holds its value too. */
  lemma NewestWinsExactly<V>(rank: map<Id, nat>, base: Option<Entry<V>>, entries: seq<Entry<V>>, choice: Choice<V>,
                             newest: Entry<V>)
    requires entries != [] && (forall e :: e in entries ==> e.head in rank) && Chosen(rank, base, entries, choice)
    requires NewestChanged(rank, base, entries, newest)
    ensures choice.selected == newest <==> LastHolder(entries, newest)
  {
    if LastHolder(entries, newest) && choice.selected != newest {
      assert choice.selected in entries;
      assert AnyChanged(base, entries) by {
        var i :| 0 <= i < |entries| && entries[i] == newest;
      }
      var i :| 0 <= i < |entries| && entries[i] == newest;
      if newest.value == choice.selected.value {
        SameLastHolder(entries, newest, choice.selected);
      } else {
        var c :| c in choice.conflicts && c.value == newest.value;
        SameLastHolder(entries, newest, c);
      }
    }
  }

  lemma SameLastHolder<V>(entries: seq<Entry<V>>, a: Entry<V>, b: Entry<V>)
    requires LastHolder(entries, a) && LastHolder(entries, b) && a.value == b.value
    ensures a == b
  {
    var i: nat :| i < |entries| && entries[i] == a && forall j: nat :: i < j ==> !HoldsAt(entries, j, a.value);
    var k: nat :| k < |entries| && entries[k] == b && forall j: nat :: k < j ==> !HoldsAt(entries, j, b.value);
    assert HoldsAt(entries, i, a.value) && HoldsAt(entries, k, a.value);
  }

  /** With three heads the newest version can lose: an older head with the same value stands in for it. */
  lemma NewestCanLose(rank: map<Id, nat>, entries: seq<Entry<nat>>, choice: Choice<nat>)
    requires rank == map[1 := 10, 2 := 5, 3 := 1] && entries == [Entry(7, 1), Entry(8, 2), Entry(7, 3)]
    requires Chosen(rank, None, entries, choice)
    ensures choice.selected == Entry(8, 2) && choice.conflicts == [Entry(7, 3)]
  {
    SelectedIsEight(rank, entries, choice);
    LastHolders(entries);
    assert entries[2].value == 7 && AnyChanged(None, entries);
    var all := choice.conflicts;
    forall i | 0 <= i < |all| ensures all[i] == Entry(7, 3) {
      assert all[i] in choice.conflicts;
    }
    assert |all| > 1 ==> all[0].value == all[1].value;
  }

  lemma LastHolders(entries: seq<Entry<nat>>)
    requires entries == [Entry(7, 1), Entry(8, 2), Entry(7, 3)]
    ensures forall e: Entry<nat> :: LastHolder(entries, e) <==> e == Entry(8, 2) || e == Entry(7, 3)
  {
    assert HoldsAt(entries, 2, 7);
    assert entries[1] == Entry(8, 2) && entries[2] == Entry(7, 3);
  }

  lemma SelectedIsEight(rank: map<Id, nat>, entries: seq<Entry<nat>>, choice: Choice<nat>)
    requires rank == map[1 := 10, 2 := 5, 3 := 1] && entries == [Entry(7, 1), Entry(8, 2), Entry(7, 3)]
    requires Chosen(rank, None, entries, choice)
    ensures choice.selected == Entry(8, 2)
  {
    LastHolders(entries);
    assert entries[1].value == 8 && Before(rank, 3, 2);
  }

  // ----- the paths of the selection

  /** Neither entry is a tombstone, and their paths conflict. */
  ghost predicate LiveConflict(choices: seq<(string, bool)>, i: nat, j: nat, collisionKey: string -> string)
    requires i < |choices| && j < |choices|
  {
    !choices[i].1 && !choices[j].1 && Paths.PortablePathsConflict(choices[i].0, choices[j].0, collisionKey)
  }

  /** Where each live path stands among the choices. */
  ghost predicate PlacesOf(choices: seq<(string, bool)>, at: seq<nat>) {
    && |at| == |LivePaths(choices)|
    && (forall k :: 0 <= k < |at| ==> at[k] < |choices| && choices[at[k]] == (LivePaths(choices)[k], false))
    && (forall j, k :: 0 <= j < k < |at| ==> at[j] < at[k])
    && (forall i: nat {:trigger choices[i]} :: i < |choices| && !choices[i].1 ==> i in at)
  }

  lemma {:induction false} LivePlaces(choices: seq<(string, bool)>) returns (at: seq<nat>)
    ensures PlacesOf(choices, at)
  {
    at := [];
    if choices != [] {
      at := LivePlaces(choices[..|choices| - 1]);
      if !choices[|choices| - 1].1 { at := at + [|choices| - 1]; }
    }
  }

  lemma LiveConflictExactly(choices: seq<(string, bool)>, collisionKey: string -> string)
    ensures Paths.SomeConflict(LivePaths(choices), collisionKey) <==>
            exists i: nat, j: nat :: i < j < |choices| && LiveConflict(choices, i, j, collisionKey)
  {
    var at := LivePlaces(choices);
    var live := LivePaths(choices);
    if i: nat, j: nat :| i < j < |choices| && LiveConflict(choices, i, j, collisionKey) {
      var a: nat :| a < |at| && at[a] == i;
      var b: nat :| b < |at| && at[b] == j;
      assert a < b && Paths.PortablePathsConflict(live[a], live[b], collisionKey);
    }
    if a: nat, b: nat :| a < b < |live| && Paths.PortablePathsConflict(live[a], live[b], collisionKey) {
      assert LiveConflict(choices, at[a], at[b], collisionKey);
    }
  }

  /** `validateSelectedPaths`: accepted exactly when no two live selected paths conflict. */
  method ValidateSelectedPaths(choices: seq<(string, bool)>, collisionKey: string -> string) returns (ok: bool)
    ensures ok <==> !Paths.SomeConflict(LivePaths(choices), collisionKey)
    ensures ok <==> !exists i: nat, j: nat :: i < j < |choices| && LiveConflict(choices, i, j, collisionKey)
  {
    LiveConflictExactly(choices, collisionKey);
    var paths: map<string, string> := map[];
    var selectedPaths: seq<string> := [];
    for i := 0 to |choices|
      invariant selectedPaths == LivePaths(choices[..i])
      invariant forall key :: key in paths ==> exists k: nat :: Paths.KeyAt(selectedPaths, collisionKey, key, k)
      invariant LivePaths(choices[..i]) <= LivePaths(choices)
    {
      assert choices[..i + 1][..i] == choices[..i];
      LivePrefix(choices, i + 1);
      var (path, tombstone) := choices[i];
      if !tombstone {
        if collisionKey(path) in paths {
          ghost var k: nat :| Paths.KeyAt(selectedPaths, collisionKey, collisionKey(path), k);
          ghost var all := LivePaths(choices);
          assert selectedPaths + [path] == LivePaths(choices[..i + 1]);
          assert all[k] == selectedPaths[k] && all[|selectedPaths|] == path;
          assert Paths.PortablePathsConflict(all[k], all[|selectedPaths|], collisionKey);
          return false;
        }
        KeysGrow(selectedPaths, path, paths.Keys, collisionKey);
        paths := paths[collisionKey(path) := path];
        selectedPaths := selectedPaths + [path];
      }
    }
    assert choices[..|choices|] == choices;
    var groups := Paths.PortablePathConflictGroups(selectedPaths, collisionKey);
    Paths.GroupsReportConflicts(selectedPaths, collisionKey, groups);
    ok := groups == map[];
  }

  lemma KeysGrow(selected: seq<string>, path: string, keys: set<string>, collisionKey: string -> string)
    requires forall key :: key in keys ==> exists k: nat :: Paths.KeyAt(selected, collisionKey, key, k)
    ensures forall key :: key in keys || key == collisionKey(path) ==>
              exists k: nat :: Paths.KeyAt(selected + [path], collisionKey, key, k)
  {
    forall key | key in keys || key == collisionKey(path)
      ensures exists k: nat :: Paths.KeyAt(selected + [path], collisionKey, key, k)
    {
      if key == collisionKey(path) {
        assert Paths.KeyAt(selected + [path], collisionKey, key, |selected|);
      } else {
        var k: nat :| Paths.KeyAt(selected, collisionKey, key, k);
        assert Paths.KeyAt(selected + [path], collisionKey, key, k);
      }
    }
  }

  /** The selected paths that are not tombstones. */
  function LivePaths(choices: seq<(string, bool)>): seq<string> {
    if choices == [] then []
    else
      var (path, tombstone) := choices[|choices| - 1];
      LivePaths(choices[..|choices| - 1]) + (if tombstone then [] else [path])
  }

  lemma {:induction false} LivePrefix(choices: seq<(string, bool)>, i: nat)
    requires i <= |choices|
    ensures LivePaths(choices[..i]) <= LivePaths(choices)
    decreases |choices|
  {
    if i < |choices| {
      LivePrefix(choices[..|choices| - 1], i);
      assert choices[..|choices| - 1][..i] == choices[..i];
    } else {
      assert choices[..i] == choices;
    }
  }
}
