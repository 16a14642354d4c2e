/** Shared vocabulary of the model.

    The program identifies commits, devices, objects and uploads by fixed-length byte
    strings that are only compared.  Byte-wise order on equal lengths is numeric order,
    so an identifier is a natural number here. */
module Basics {

  type Id = nat

  type Byte = b: int | 0 <= b < 256

  type Bytes = seq<Byte>

  datatype Option<+T> = None | Some(value: T)

  datatype Result<+T, +E> = Ok(value: T) | Err(error: E) {
    predicate IsFailure() { Err? }

    function PropagateFailure<U>(): Result<U, E>
      requires Err?
    {
      Err(error)
    }

    function Extract(): T
      requires Ok?
    {
      value
    }
  }

  const I64_MAX: int := 0x7fff_ffff_ffff_ffff
  const U64_MAX: int := 0xffff_ffff_ffff_ffff

  function Min(a: int, b: int): (r: int)
    ensures r <= a && r <= b && (r == a || r == b)
  {
    if a <= b then a else b
  }

  predicate StrictlyIncreasing(s: seq<Id>) {
    forall i, j :: 0 <= i < j < |s| ==> s[i] < s[j]
  }

  predicate Distinct<T(==)>(s: seq<T>) {
    forall i, j :: 0 <= i < j < |s| ==> s[i] != s[j]
  }

  function ToSet<T(==)>(s: seq<T>): set<T> {
    set x | x in s
  }

  /** The sorted listing of a finite set of identifiers. */
  predicate Lists(s: seq<Id>, ids: set<Id>) {
    StrictlyIncreasing(s) && ToSet(s) == ids
  }

  lemma ListingTail(s: seq<Id>, ids: set<Id>)
    requires Lists(s, ids) && s != []
    ensures s[0] in ids && forall y :: y in ids ==> s[0] <= y
    ensures Lists(s[1..], ids - {s[0]})
  {
    assert s == [s[0]] + s[1..];
    forall y | y in ids ensures s[0] <= y { assert y in ToSet(s); }
    assert s[0] in ToSet(s);
  }

  lemma {:induction false} ListingIsUnique(s: seq<Id>, t: seq<Id>, ids: set<Id>)
    requires Lists(s, ids) && Lists(t, ids)
    ensures s == t
  {
    assert s != [] ==> s[0] in ToSet(s);
    assert t != [] ==> t[0] in ToSet(t);
    if s != [] {
      ListingTail(s, ids);
      ListingTail(t, ids);
      ListingIsUnique(s[1..], t[1..], ids - {s[0]});
    }
  }

  lemma {:induction false} DistinctLength<T>(s: seq<T>)
    requires Distinct(s)
    ensures |ToSet(s)| == |s|
  {
    if s != [] {
      DistinctLength(s[1..]);
      assert ToSet(s) == {s[0]} + ToSet(s[1..]);
    }
  }

  ghost predicate IsLeast(x: Id, ids: set<Id>) {
    x in ids && forall y :: y in ids ==> x <= y
  }

  ghost predicate IsGreatest(x: Id, ids: set<Id>) {
    x in ids && forall y :: y in ids ==> y <= x
  }

  lemma {:induction false} Extremes(ids: set<Id>) returns (least: Id, greatest: Id)
    requires ids != {}
    ensures IsLeast(least, ids) && IsGreatest(greatest, ids)
  {
    var x :| x in ids;
    least, greatest := x, x;
    var rest := ids - {x};
    assert forall y :: y in ids ==> y == x || y in rest;
    if rest != {} {
      var l, g := Extremes(rest);
      least, greatest := if l <= x then l else x, if g >= x then g else x;
    }
  }

  lemma NextIsNew<T>(s: seq<T>, i: nat)
    requires Distinct(s) && i < |s|
    ensures s[..i + 1] == s[..i] + [s[i]] && s[i] !in s[..i] && s[i] in s
  {}

  lemma HasMember<T>(s: seq<T>)
    requires s != []
    ensures exists x :: x in s
  {
    assert s[0] in s;
  }

  lemma SubsetSize<T>(a: set<T>, b: set<T>)
    requires a <= b
    ensures |a| <= |b|
    ensures |a| == |b| ==> a == b
  {
    assert b == a + (b - a);
  }

  /** `SELECT ... ORDER BY id`. */
  method SelectSorted(ids: set<Id>) returns (rows: seq<Id>)
    ensures Lists(rows, ids)
  {
    rows := [];
    var rest := ids;
    while rest != {}
      invariant rest <= ids && StrictlyIncreasing(rows) && ToSet(rows) == ids - rest
      invariant forall i, y :: 0 <= i < |rows| && y in rest ==> rows[i] < y
      decreases rest
    {
      ghost var l, _ := Extremes(rest);
      var least :| least in rest && forall y :: y in rest ==> least <= y;
      ghost var before := rows;
      rows := rows + [least];
      rest := rest - {least};
      assert ToSet(rows) == ToSet(before) + {least};
    }
  }

  // ----- ordering by (rank, identifier)

  ghost predicate Before(rank: map<Id, nat>, a: Id, b: Id)
    requires a in rank && b in rank
  {
    rank[a] < rank[b] || (rank[a] == rank[b] && a < b)
  }

  ghost predicate InOrder(rank: map<Id, nat>, ids: seq<Id>) {
    && (forall id :: id in ids ==> id in rank)
    && forall i, j :: 0 <= i < j < |ids| ==> Before(rank, ids[i], ids[j])
  }

  lemma OrderedInsertion(rank: map<Id, nat>, ids: seq<Id>, at: nat, id: Id)
    requires InOrder(rank, ids) && id in rank && at <= |ids|
    requires forall k :: 0 <= k < at ==> Before(rank, ids[k], id)
    requires at < |ids| ==> Before(rank, id, ids[at])
    ensures var longer := ids[..at] + [id] + ids[at..]; InOrder(rank, longer) && ToSet(longer) == ToSet(ids) + {id}
  {
    var longer := ids[..at] + [id] + ids[at..];
    forall x ensures x in longer <==> x in ids || x == id {
      assert ids == ids[..at] + ids[at..];
    }
    forall i, j | 0 <= i < j < |longer| ensures Before(rank, longer[i], longer[j]) {
      var a, b := if i < at then i else i - 1, if j < at then j else j - 1;
      if i == at { assert b == at || Before(rank, ids[at], ids[b]); }
    }
  }

  /** `ORDER BY rank, id`, and the client's sort by the same key. */
  method SortByRank(rank: map<Id, nat>, ids: set<Id>) returns (sorted: seq<Id>)
    requires ids <= rank.Keys
    ensures ToSet(sorted) == ids && InOrder(rank, sorted)
  {
    sorted := [];
    var rest := ids;
    while rest != {}
      invariant rest <= ids && ToSet(sorted) == ids - rest && InOrder(rank, sorted)
      decreases rest
    {
      var id :| id in rest;
      var at := 0;
      while at < |sorted| && (rank[sorted[at]] < rank[id] || (rank[sorted[at]] == rank[id] && sorted[at] < id))
        invariant 0 <= at <= |sorted|
        invariant forall k :: 0 <= k < at ==> Before(rank, sorted[k], id)
      {
        at := at + 1;
      }
      assert at < |sorted| ==> sorted[at] in ToSet(sorted);
      OrderedInsertion(rank, sorted, at, id);
      sorted := sorted[..at] + [id] + sorted[at..];
      rest := rest - {id};
    }
  }
}
