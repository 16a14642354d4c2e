/** The client's paging loop (plugin/src/sync/pull.ts) against the server's `changes`. */
module Paging {
  import opened Basics
  import opened CommitStore

  datatype PullError = Remote(error: StorageError) | NonProgressingPage | UnregisteredSigner | UnknownParent

  /** Every parent of every commit on a page is known already or stands earlier on the page, and
      only the last page can be empty.  This holds of any page of any reachable store, so it holds
      even when other devices commit between two requests. */
  lemma PageIsUsable(db: Db, known: set<Id>, maximum: nat, page: seq<Id>, hasMore: bool)
    requires Inv(db) && maximum > 0 && IsPage(db, known, maximum, page, hasMore)
    ensures page == [] ==> !hasMore
    ensures forall i, p :: 0 <= i < |page| && p in db.commits[page[i]].record.parents ==> p in known || p in page[..i]
  {
    forall i, p | 0 <= i < |page| && p in db.commits[page[i]].record.parents
      ensures p in known || p in page[..i]
    {
      var rank := RowRank(db);
      assert page[i] in page;
      assert RowFaithful(db, page[i]) && Graded(db, page[i]) && Edge(db, page[i], p);
      assert rank[p] < rank[page[i]];
      if p !in known {
        assert p in page;
        var j :| 0 <= j < |page| && page[j] == p;
        assert j < i;
        assert page[..i][j] == p;
      }
    }
  }

  /** The size of the largest `known` list a pull sends when `unknown` commits are missing. */
  function LastRequest(known: nat, unknown: nat): nat {
    known + (if unknown == 0 then 0 else (unknown - 1) / MAX_CHANGES_PER_RESPONSE * MAX_CHANGES_PER_RESPONSE)
  }

  ghost predicate SignersActive(db: Db, active: set<Id>, unknown: set<Id>) {
    forall id :: id in unknown && id in db.commits ==> db.commits[id].deviceId in active
  }

  lemma PageShrinksUnknown(db: Db, known: set<Id>, page: seq<Id>, hasMore: bool)
    requires IsPage(db, known, MAX_CHANGES_PER_RESPONSE, page, hasMore)
    ensures |db.commits.Keys - (known + ToSet(page))| == |db.commits.Keys - known| - |page|
    ensures |known + ToSet(page)| == |known| + |page|
    ensures hasMore ==> |page| == MAX_CHANGES_PER_RESPONSE && |db.commits.Keys - known| > |page|
    ensures !hasMore ==> db.commits.Keys <= known + ToSet(page) && |db.commits.Keys - known| <= MAX_CHANGES_PER_RESPONSE
  {
    PageIsDistinct(RowRank(db), page);
    SplitOff(db.commits.Keys, known, ToSet(page));
    var unknown := db.commits.Keys - known;
    if hasMore {
      var id :| id in unknown && id !in ToSet(page);
      SubsetSize(ToSet(page) + {id}, unknown);
    } else {
      SubsetSize(unknown, ToSet(page));
    }
  }

  lemma PageIsDistinct(rank: map<Id, nat>, page: seq<Id>)
    requires InOrder(rank, page)
    ensures |ToSet(page)| == |page|
  {
    forall i, j | 0 <= i < j < |page| ensures page[i] != page[j] { assert Before(rank, page[i], page[j]); }
    DistinctLength(page);
  }

  lemma SplitOff(all: set<Id>, known: set<Id>, page: set<Id>)
    requires page <= all - known
    ensures |all - (known + page)| == |all - known| - |page|
    ensures |known + page| == |known| + |page|
  {
    assert all - known == (all - (known + page)) + page;
  }

  /** Verifies and records one page; a page of a reachable store fails only on its signers. */
  method AbsorbPage(ghost db: Db, ghost page: seq<Id>, commits: seq<SignedCommit>, active: set<Id>, before: set<Id>)
    returns (r: Result<set<Id>, PullError>)
    requires Records(db, page, commits)
    requires forall i ::
               0 <= i < |page| ==> commits[i].commitId == page[i] && commits[i].deviceId == db.commits[page[i]].deviceId
    requires forall i, p :: 0 <= i < |page| && p in db.commits[page[i]].record.parents ==> p in before || p in page[..i]
    ensures r.Ok? <==> SignersActive(db, active, ToSet(page))
    ensures r.Ok? ==> r.value == before + ToSet(page)
    ensures r.Err? ==> r.error == UnregisteredSigner
  {
    var known := before;
    var i := 0;
    while i < |commits|
      invariant 0 <= i <= |commits| && known == before + ToSet(page[..i])
      invariant SignersActive(db, active, ToSet(page[..i]))
    {
      var decoded := commits[i];
      assert page[..i + 1] == page[..i] + [page[i]];
      if decoded.deviceId !in active {
        assert page[i] in ToSet(page);
        return Err(UnregisteredSigner);
      }
      if decoded.commitId !in known {
        if exists p :: p in decoded.parents && p !in known { return Err(UnknownParent); }
        known := known + {decoded.commitId};
      }
      i := i + 1;
    }
    assert page[..i] == page;
    r := Ok(known);
  }

  lemma RecordsAreFaithful(db: Db, page: seq<Id>, commits: seq<SignedCommit>)
    requires Inv(db) && Records(db, page, commits)
    ensures forall i ::
              0 <= i < |page| ==> commits[i].commitId == page[i] && commits[i].deviceId == db.commits[page[i]].deviceId
  {
    forall i | 0 <= i < |page| ensures commits[i].commitId == page[i]
        && commits[i].deviceId == db.commits[page[i]].deviceId {
      assert RowFaithful(db, page[i]);
    }
  }

  /** One request: fails on an oversized request or an unregistered signer, never on a
      non-progressing page or an unknown parent. */
  method PullPage(server: Storage, active: set<Id>, known: set<Id>)
    returns (r: Result<(set<Id>, bool), PullError>, ghost page: seq<Id>)
    requires Inv(server.Tables())
    ensures |known| > MAX_KNOWN_COMMITS ==> r == Err(Remote(LimitExceeded))
    ensures |known| <= MAX_KNOWN_COMMITS ==>
              && (exists more :: IsPage(server.Tables(), known, MAX_CHANGES_PER_RESPONSE, page, more))
              && (r.Err? ==> r.error == UnregisteredSigner)
              && (r.Ok? <==> SignersActive(server.Tables(), active, ToSet(page)))
              && (r.Ok? ==> r.value.0 == known + ToSet(page))
              && (r.Ok? ==> IsPage(server.Tables(), known, MAX_CHANGES_PER_RESPONSE, page, r.value.1))
  {
    ghost var db := server.Tables();
    var request := SelectSorted(known);
    DistinctLength(request);
    var answer;
    answer, page := server.Changes(request, MAX_CHANGES_PER_RESPONSE);
    if answer.Err? { return Err(Remote(answer.error)), page; }
    var (commits, more) := answer.value;
    PageIsUsable(db, known, MAX_CHANGES_PER_RESPONSE, page, more);
    if |commits| == 0 && more { return Err(NonProgressingPage), page; }
    RecordsAreFaithful(db, page, commits);
    var absorbed := AbsorbPage(db, page, commits, active, known);
    if absorbed.Err? { return Err(absorbed.error), page; }
    r := Ok((absorbed.value, more));
  }

  /** What the paging loop keeps while it still has pages to fetch. */
  ghost predicate Underway(db: Db, active: set<Id>, original: set<Id>, known: set<Id>) {
    && original <= known <= original + db.commits.Keys
    && SignersActive(db, active, known - original)
    && LastRequest(|known|, |db.commits.Keys - known|) == LastRequest(|original|, |db.commits.Keys - original|)
  }

  /** When a pull of the store from `original` succeeds. */
  ghost predicate Pullable(db: Db, active: set<Id>, original: set<Id>) {
    && LastRequest(|original|, |db.commits.Keys - original|) <= MAX_KNOWN_COMMITS
    && SignersActive(db, active, db.commits.Keys - original)
  }

  lemma FreshCompletes(db: Db, active: set<Id>, original: set<Id>, known: set<Id>, added: set<Id>)
    requires Underway(db, active, original, known) && SignersActive(db, active, added)
    requires |known| <= MAX_KNOWN_COMMITS && |db.commits.Keys - known| <= MAX_CHANGES_PER_RESPONSE
    requires db.commits.Keys <= known + added && added <= db.commits.Keys
    ensures Pullable(db, active, original) && known + added == original + db.commits.Keys
  {
    assert db.commits.Keys - original <= (known - original) + added;
  }

  lemma PageAdvances(db: Db, active: set<Id>, original: set<Id>, known: set<Id>, page: seq<Id>, more: bool)
    requires Underway(db, active, original, known) && |known| <= MAX_KNOWN_COMMITS
    requires IsPage(db, known, MAX_CHANGES_PER_RESPONSE, page, more) && SignersActive(db, active, ToSet(page))
    ensures more ==> Underway(db, active, original, known + ToSet(page))
    ensures more ==> |db.commits.Keys - (known + ToSet(page))| < |db.commits.Keys - known|
    ensures !more ==> Pullable(db, active, original) && known + ToSet(page) == original + db.commits.Keys
  {
    PageShrinksUnknown(db, known, page, more);
    PageIsDistinct(RowRank(db), page);
    var added := ToSet(page);
    assert added <= db.commits.Keys - known;
    if more {
    } else {
      FreshCompletes(db, active, original, known, added);
    }
  }

  /** Pages until the server has no more.  On a store that does not change meanwhile, the pull
      ends knowing every commit exactly when no request lists more than `MAX_KNOWN_COMMITS`
      identifiers and every missing commit was signed by an active device; it never stops on a
      non-progressing page or an unknown parent. */
  method PullPages(server: Storage, active: set<Id>, original: set<Id>)
    returns (r: Result<set<Id>, PullError>)
    requires Inv(server.Tables())
    ensures r.Ok? <==> Pullable(server.Tables(), active, original)
    ensures r.Ok? ==> r.value == original + server.commits.Keys
    ensures r.Err? ==> r.error == UnregisteredSigner || r.error == Remote(LimitExceeded)
  {
    ghost var db := server.Tables();
    var known := original;
    var hasMore := true;
    assert known - original == {};
    while hasMore
      invariant hasMore ==> Underway(db, active, original, known)
      invariant !hasMore ==> Pullable(db, active, original) && known == original + db.commits.Keys
      decreases hasMore, |db.commits.Keys - known|
    {
      var answer;
      ghost var page;
      answer, page := PullPage(server, active, known);
      if answer.Err? {
        return Err(answer.error);
      }
      PageAdvances(db, active, original, known, page, answer.value.1);
      known, hasMore := answer.value.0, answer.value.1;
    }
    r := Ok(known);
  }

  /** A store of at most `MAX_KNOWN_COMMITS` commits by active devices can always be pulled. */
  lemma SmallStoresArePullable(db: Db, active: set<Id>, known: set<Id>)
    requires |db.commits.Keys + known| <= MAX_KNOWN_COMMITS && SignersActive(db, active, db.commits.Keys)
    ensures Pullable(db, active, known)
  {
    assert db.commits.Keys + known == known + (db.commits.Keys - known);
  }

  /** A client that already knows one commit too many can never pull again. */
  lemma OversizedKnownSetBlocksPull(db: Db, active: set<Id>, known: set<Id>)
    requires |known| > MAX_KNOWN_COMMITS
    ensures !Pullable(db, active, known)
  {}
}
