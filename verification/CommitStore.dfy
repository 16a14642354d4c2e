/** The server's commit tables (crates/ll-server/src/storage/version.rs).

    The SQL tables of one vault are finite maps and sets.  Each method of `Storage` runs one
    transaction: it works on local copies and writes the fields back only where the source
    commits, so an early return leaves the tables as they were.  The signed record of a commit
    is represented by the decoded commit, because a record is accepted only when it is the
    exact encoding of what it decodes to. */
module CommitStore {
  import opened Basics

  const MAX_COMMITS_PER_VAULT := 1_000_000
  const MAX_HEADS := 1024
  const MAX_KNOWN_COMMITS := 2048
  const MAX_CHANGES_PER_RESPONSE := 3

  /** The client-encrypted body: the server never reads it. */
  datatype Body = Body(logicalTimestamp: nat, payload: nat)

  datatype SignedCommit = SignedCommit(
    commitId: Id,
    vaultId: Id,
    parents: seq<Id>,
    deviceId: Id,
    deviceSequence: nat,
    body: Body,
    signature: nat)

  datatype CommitRow = CommitRow(deviceId: Id, deviceSequence: nat, generation: nat, record: SignedCommit)

  /** `devices` maps a registered device to whether it is active; an edge is (child, parent). */
  datatype Db = Db(devices: map<Id, bool>, commits: map<Id, CommitRow>, edges: set<(Id, Id)>, heads: set<Id>)

  datatype StorageError =
    | DeviceNotFound | DeviceRevoked | InvalidCommit | CommitConflict
    | LimitExceeded | MissingParent | Database

  const EmptyDb := Db(map[], map[], {}, {})

  // ----- what the tables mean

  ghost predicate Edge(db: Db, child: Id, parent: Id) {
    (child, parent) in db.edges
  }

  /** The head set recomputed from nothing but the parent edges. */
  function Childless(db: Db): set<Id> {
    set id | id in db.commits && forall e :: e in db.edges ==> e.1 != id
  }

  function Sequences(db: Db, device: Id): set<nat> {
    set id | id in db.commits && db.commits[id].deviceId == device :: db.commits[id].deviceSequence
  }

  /** `SELECT MAX(device_sequence)`, zero when the device has no commit. */
  ghost function Highest(db: Db, device: Id): (top: nat)
    ensures forall s :: s in Sequences(db, device) ==> s <= top
    ensures top in Sequences(db, device) || (top == 0 && Sequences(db, device) == {})
    ensures forall id :: id in db.commits && db.commits[id].deviceId == device ==> db.commits[id].deviceSequence <= top
    ensures top > 0 ==>
              exists id :: id in db.commits && db.commits[id].deviceId == device && db.commits[id].deviceSequence == top
  {
    var all := Sequences(db, device);
    assert forall id :: id in db.commits && db.commits[id].deviceId == device ==> db.commits[id].deviceSequence in all;
    if all == {} then 0 else Greatest(all)
  }

  ghost function Greatest(ids: set<Id>): (top: Id)
    requires ids != {}
    ensures IsGreatest(top, ids)
  {
    assert exists x :: IsGreatest(x, ids) by { var _, g := Extremes(ids); }
    var x :| IsGreatest(x, ids); x
  }

  function Generations(db: Db, parents: seq<Id>): set<nat>
    requires forall p :: p in parents ==> p in db.commits
  {
    set p | p in parents :: db.commits[p].generation
  }

  /** One more than the largest generation among `parents`; zero for a root. */
  ghost function ParentGeneration(db: Db, parents: seq<Id>): nat
    requires forall p :: p in parents ==> p in db.commits
  {
    if parents == [] then 0
    else
      assert db.commits[parents[0]].generation in Generations(db, parents);
      1 + Greatest(Generations(db, parents))
  }

  // ----- the invariant of every reachable store

  ghost predicate EdgesClosed(db: Db) {
    forall child, parent :: Edge(db, child, parent) ==> child in db.commits && parent in db.commits
  }

  ghost predicate RowFaithful(db: Db, id: Id)
    requires id in db.commits
  {
    var row := db.commits[id];
    && row.record.commitId == id
    && row.record.deviceId == row.deviceId
    && row.record.deviceSequence == row.deviceSequence
    && Distinct(row.record.parents)
    && forall p :: Edge(db, id, p) <==> p in row.record.parents
  }

  /** Generation zero is the single root; every other commit is one past its highest parent. */
  ghost predicate Graded(db: Db, id: Id)
    requires id in db.commits && EdgesClosed(db)
  {
    && (forall p :: Edge(db, id, p) ==> db.commits[p].generation < db.commits[id].generation)
    && (db.commits[id].generation > 0 ==>
          exists p :: Edge(db, id, p) && db.commits[p].generation + 1 == db.commits[id].generation)
  }

  ghost predicate RootRow(db: Db, id: Id) {
    id in db.commits && db.commits[id].generation == 0
  }

  ghost predicate SingleRoot(db: Db) {
    && (forall a, b :: RootRow(db, a) && RootRow(db, b) ==> a == b)
    && (db.commits != map[] ==> exists a :: RootRow(db, a))
  }

  ghost predicate Slot(db: Db, id: Id, device: Id, sequence: nat) {
    id in db.commits && db.commits[id].deviceId == device && db.commits[id].deviceSequence == sequence
  }

  /** Two commits of one device never share a sequence number. */
  ghost predicate SequencesUnique(db: Db) {
    forall a, b, device, sequence :: Slot(db, a, device, sequence) && Slot(db, b, device, sequence) ==> a == b
  }

  /** The sequence numbers of a device are exactly 1, 2, ..., n. */
  ghost predicate SequencesDense(db: Db) {
    forall d: Id, k: nat :: k in Sequences(db, d) <==> 1 <= k <= Highest(db, d)
  }

  ghost predicate Inv(db: Db) {
    && EdgesClosed(db)
    && (forall id {:trigger RowFaithful(db, id)} {:trigger Graded(db, id)} ::
          id in db.commits ==> RowFaithful(db, id) && Graded(db, id))
    && SingleRoot(db)
    && SequencesUnique(db)
    && SequencesDense(db)
    && db.heads == Childless(db)
    && |db.heads| <= MAX_HEADS
    && |db.commits| <= MAX_COMMITS_PER_VAULT
  }

  // ----- accepting a commit, as a function of the tables

  datatype Outcome = Outcome(db: Db, reply: Result<set<Id>, StorageError>)

  ghost predicate SequenceAccepted(db: Db, device: Id, supplied: nat) {
    supplied == Highest(db, device) + 1 && supplied <= I64_MAX
  }

  function SequenceError(supplied: nat, expected: nat): StorageError {
    if expected > I64_MAX || supplied > I64_MAX then LimitExceeded else InvalidCommit
  }

  function Inserted(db: Db, c: SignedCommit, generation: nat): Db {
    db.(commits := db.commits[c.commitId := CommitRow(c.deviceId, c.deviceSequence, generation, c)],
        edges := db.edges + (set p | p in c.parents :: (c.commitId, p)),
        heads := db.heads - ToSet(c.parents) + {c.commitId})
  }

  /** What one `accept_commit` call does: the tables afterwards and the heads it reports. */
  ghost function Accept(db: Db, vault: Id, session: Id, c: SignedCommit): Outcome {
    if session !in db.devices then Outcome(db, Err(DeviceNotFound))
    else if !db.devices[session] then Outcome(db, Err(DeviceRevoked))
    else if c.deviceId != session || c.vaultId != vault then Outcome(db, Err(InvalidCommit))
    else if c.commitId in db.commits then
      Outcome(db, if db.commits[c.commitId].record != c then Err(CommitConflict)
                  else if |db.heads| > MAX_HEADS then Err(LimitExceeded)
                  else Ok(db.heads))
    else AcceptNew(db, c)
  }

  ghost function AcceptNew(db: Db, c: SignedCommit): Outcome {
    if |db.commits| >= MAX_COMMITS_PER_VAULT then Outcome(db, Err(LimitExceeded))
    else if (db.commits == map[]) != (c.parents == []) then Outcome(db, Err(InvalidCommit))
    else if !SequenceAccepted(db, c.deviceId, c.deviceSequence) then
      Outcome(db, Err(SequenceError(c.deviceSequence, Highest(db, c.deviceId) + 1)))
    else if exists p :: p in c.parents && p !in db.commits then Outcome(db, Err(MissingParent))
    else AcceptLinked(db, c, ParentGeneration(db, c.parents))
  }

  ghost function AcceptLinked(db: Db, c: SignedCommit, generation: nat): Outcome {
    if generation > I64_MAX then Outcome(db, Err(LimitExceeded))
    else if !Distinct(c.parents)
            || (exists p :: p in c.parents && Edge(db, c.commitId, p))
            || c.commitId in db.heads - ToSet(c.parents)
    then Outcome(db, Err(Database))
    else
      var after := Inserted(db, c, generation);
      if |after.heads| > MAX_HEADS then Outcome(db, Err(LimitExceeded)) else Outcome(after, Ok(after.heads))
  }

  // ----- paging through the commits

  function RowRank(db: Db): map<Id, nat> {
    map id | id in db.commits :: db.commits[id].generation
  }

  ghost predicate Records(db: Db, page: seq<Id>, records: seq<SignedCommit>) {
    |page| == |records| && forall i :: 0 <= i < |page| ==>
        page[i] in db.commits && records[i] == db.commits[page[i]].record
  }

  /** `page` is the first `maximum` commits outside `known` in (generation, id) order, and
      `hasMore` says whether any commit outside `known` is left over. */
  ghost predicate IsPage(db: Db, known: set<Id>, maximum: nat, page: seq<Id>, hasMore: bool) {
    && InOrder(RowRank(db), page)
    && |page| <= maximum && (hasMore ==> |page| == maximum)
    && (forall id :: id in page ==> id in db.commits && id !in known)
    && (forall id, i :: id in db.commits && id !in known && id !in page && 0 <= i < |page| ==>
          Before(RowRank(db), page[i], id))
    && (hasMore <==> !(db.commits.Keys - known <= ToSet(page)))
  }

  /** The state of the scan over the ordered rows: `page` holds the unknown ones before row `i`. */
  ghost predicate Scanned(db: Db, known: set<Id>, rows: seq<Id>, i: nat, page: seq<Id>) {
    && InOrder(RowRank(db), rows) && ToSet(rows) == db.commits.Keys && i <= |rows|
    && InOrder(RowRank(db), page)
    && (forall id :: id in page <==> id in rows[..i] && id !in known)
    && (forall k, j :: 0 <= k < |page| && i <= j < |rows| ==> Before(RowRank(db), page[k], rows[j]))
  }

  lemma ScanRow(db: Db, known: set<Id>, rows: seq<Id>, i: nat, page: seq<Id>)
    requires i < |rows| && Scanned(db, known, rows, i, page)
    ensures rows[i] in db.commits
    ensures Scanned(db, known, rows, i + 1, if rows[i] in known then page else page + [rows[i]])
  {
    assert rows[..i + 1] == rows[..i] + [rows[i]];
    assert rows[i] in ToSet(rows);
  }

  /** Scanning ordered rows and keeping the unknown ones yields the front of the unknown commits. */
  lemma PageFromRows(db: Db, known: set<Id>, rows: seq<Id>, i: nat, page: seq<Id>, maximum: nat)
    requires Scanned(db, known, rows, i, page) && |page| <= maximum
    requires i < |rows| ==> rows[i] !in known && |page| == maximum
    ensures IsPage(db, known, maximum, page, i < |rows|)
  {
    assert rows == rows[..i] + rows[i..];
    forall id, k | id in db.commits && id !in known && id !in page && 0 <= k < |page|
      ensures Before(RowRank(db), page[k], id)
    {
      assert id in ToSet(rows) && id in rows[i..];
      var j :| 0 <= j < |rows[i..]| && rows[i..][j] == id;
      assert rows[i + j] == id;
    }
    forall id | i == |rows| && id in db.commits.Keys - known ensures id in page {
      assert id in ToSet(rows) && id in rows[..i];
    }
    if i < |rows| {
      assert rows[i] in ToSet(rows);
      assert rows[i] in db.commits.Keys - known;
      assert forall k :: 0 <= k < |page| ==> Before(RowRank(db), page[k], rows[i]);
      assert rows[i] !in ToSet(page);
    }
  }

  // ----- the imperative form

  class Storage {
    const vaultId: Id
    var devices: map<Id, bool>
    var commits: map<Id, CommitRow>
    var edges: set<(Id, Id)>
    var heads: set<Id>

    constructor (vaultId: Id)
      ensures this.vaultId == vaultId && Tables() == EmptyDb
    {
      this.vaultId := vaultId;
      devices, commits, edges, heads := map[], map[], {}, {};
    }

    function Tables(): Db
      reads this
    {
      Db(devices, commits, edges, heads)
    }

    method AcceptCommit(session: Id, c: SignedCommit) returns (reply: Result<seq<Id>, StorageError>)
      modifies `commits, `edges, `heads
      ensures Tables() == Accept(old(Tables()), vaultId, session, c).db
      ensures reply.Ok? <==> Accept(old(Tables()), vaultId, session, c).reply.Ok?
      ensures reply.Ok? ==> Lists(reply.value, Accept(old(Tables()), vaultId, session, c).reply.value)
      ensures reply.Err? ==> reply.error == Accept(old(Tables()), vaultId, session, c).reply.error
    {
      if session !in devices { return Err(DeviceNotFound); }
      if !devices[session] { return Err(DeviceRevoked); }
      if c.deviceId != session || c.vaultId != vaultId { return Err(InvalidCommit); }

      if c.commitId in commits {
        if commits[c.commitId].record != c { return Err(CommitConflict); }
        reply := LoadHeads(heads);
        return;
      }
      reply := InsertCommit(c);
    }

    method InsertCommit(c: SignedCommit) returns (reply: Result<seq<Id>, StorageError>)
      modifies `commits, `edges, `heads
      ensures Tables() == AcceptNew(old(Tables()), c).db
      ensures reply.Ok? <==> AcceptNew(old(Tables()), c).reply.Ok?
      ensures reply.Ok? ==> Lists(reply.value, AcceptNew(old(Tables()), c).reply.value)
      ensures reply.Err? ==> reply.error == AcceptNew(old(Tables()), c).reply.error
    {
      if |commits| >= MAX_COMMITS_PER_VAULT { return Err(LimitExceeded); }
      if (|commits| == 0) != (|c.parents| == 0) { return Err(InvalidCommit); }
      var sequence := ValidateNextDeviceSequence(c.deviceId, c.deviceSequence);
      if sequence.Err? { return Err(sequence.error); }
      var generation := LoadParentGeneration(c.parents);
      if generation.Err? { return Err(generation.error); }
      reply := WriteRows(c, generation.value);
    }

    method WriteRows(c: SignedCommit, generation: nat) returns (reply: Result<seq<Id>, StorageError>)
      requires generation <= I64_MAX
      modifies `commits, `edges, `heads
      ensures Tables() == AcceptLinked(old(Tables()), c, generation).db
      ensures reply.Ok? <==> AcceptLinked(old(Tables()), c, generation).reply.Ok?
      ensures reply.Ok? ==> Lists(reply.value, AcceptLinked(old(Tables()), c, generation).reply.value)
      ensures reply.Err? ==> reply.error == AcceptLinked(old(Tables()), c, generation).reply.error
    {
      var linked := LinkParents(c.commitId, c.parents);
      if linked.Err? { return Err(linked.error); }
      var (newEdges, newHeads) := linked.value;
      if c.commitId in newHeads { return Err(Database); }
      newHeads := newHeads + {c.commitId};
      reply := LoadHeads(newHeads);
      if reply.Err? { return; }
      commits := commits[c.commitId := CommitRow(c.deviceId, c.deviceSequence, generation, c)];
      edges, heads := newEdges, newHeads;
    }

    /** Inserts the parent edges and removes the parents from the heads, one row at a time. */
    method LinkParents(id: Id, parents: seq<Id>) returns (r: Result<(set<(Id, Id)>, set<Id>), StorageError>)
      ensures r.Ok? <==> Distinct(parents) && forall p :: p in parents ==> !Edge(Tables(), id, p)
      ensures r.Ok? ==> r.value == (edges + (set p | p in parents :: (id, p)), heads - ToSet(parents))
      ensures r.Err? ==> r.error == Database
    {
      var newEdges, newHeads := edges, heads;
      var i := 0;
      while i < |parents|
        invariant 0 <= i <= |parents|
        invariant Distinct(parents[..i])
        invariant newEdges == edges + (set p | p in parents[..i] :: (id, p))
        invariant newHeads == heads - ToSet(parents[..i])
        invariant forall p :: p in parents[..i] ==> !Edge(Tables(), id, p)
      {
        var parent := parents[i];
        assert parents[..i + 1] == parents[..i] + [parent];
        if (id, parent) in newEdges {
          assert Edge(Tables(), id, parent) || parent in parents[..i];
          return Err(Database);
        }
        newEdges := newEdges + {(id, parent)};
        newHeads := newHeads - {parent};
        i := i + 1;
      }
      assert parents[..i] == parents;
      r := Ok((newEdges, newHeads));
    }

    /** The only sequence a device may use next is one past its highest stored one. */
    method ValidateNextDeviceSequence(device: Id, supplied: nat) returns (r: Result<(), StorageError>)
      ensures r.Ok? <==> SequenceAccepted(Tables(), device, supplied)
      ensures r.Err? ==> r.error == SequenceError(supplied, Highest(Tables(), device) + 1)
    {
      var all := Sequences(Tables(), device);
      var previous, rest := 0, all;
      while rest != {}
        invariant rest <= all
        invariant (rest == all && previous == 0) || previous in all
        invariant forall s :: s in all && s !in rest ==> s <= previous
        decreases rest
      {
        var s :| s in rest;
        if s > previous { previous := s; }
        rest := rest - {s};
      }
      assert previous == Highest(Tables(), device);
      var expected := previous + 1;
      if expected > I64_MAX || supplied > I64_MAX { return Err(LimitExceeded); }
      r := if supplied == expected then Ok(()) else Err(InvalidCommit);
    }

    method LoadParentGeneration(parents: seq<Id>) returns (r: Result<nat, StorageError>)
      ensures (exists p :: p in parents && p !in commits) ==> r == Err(MissingParent)
      ensures (forall p :: p in parents ==> p in commits) ==>
                r == (if ParentGeneration(Tables(), parents) > I64_MAX then Err(LimitExceeded)
                      else Ok(ParentGeneration(Tables(), parents)))
    {
      if |parents| == 0 { return Ok(0); }
      var maximum := -1;
      var i := 0;
      while i < |parents|
        invariant 0 <= i <= |parents|
        invariant forall p :: p in parents[..i] ==> p in commits && commits[p].generation <= maximum
        invariant i == 0 <==> maximum == -1
        invariant maximum >= -1
        invariant i > 0 ==> exists p :: p in parents[..i] && commits[p].generation == maximum
      {
        var parent := parents[i];
        assert parents[..i + 1] == parents[..i] + [parent];
        if parent !in commits { return Err(MissingParent); }
        if commits[parent].generation > maximum { maximum := commits[parent].generation; }
        i := i + 1;
      }
      assert parents[..i] == parents;
      ghost var all := Generations(Tables(), parents);
      assert maximum in all && IsGreatest(maximum, all);
      if maximum + 1 > I64_MAX { return Err(LimitExceeded); }
      r := Ok(maximum + 1);
    }

    /** One bounded parents-before-children batch of commits absent from `known`. */
    method Changes(known: seq<Id>, maximum: nat)
      returns (r: Result<(seq<SignedCommit>, bool), StorageError>, ghost page: seq<Id>)
      ensures r.Err? <==> |known| > MAX_KNOWN_COMMITS || maximum == 0 || maximum > MAX_CHANGES_PER_RESPONSE
      ensures r.Err? ==> r.error == LimitExceeded
      ensures r.Ok? ==> IsPage(Tables(), ToSet(known), maximum, page, r.value.1)
      ensures r.Ok? ==> Records(Tables(), page, r.value.0)
    {
      page := [];
      if |known| > MAX_KNOWN_COMMITS || maximum == 0 || maximum > MAX_CHANGES_PER_RESPONSE {
        return Err(LimitExceeded), page;
      }
      var rows := SortByRank(RowRank(Tables()), commits.Keys);
      var knownSet := ToSet(known);
      var records, hasMore := [], false;
      var i := 0;
      while i < |rows|
        invariant Scanned(Tables(), knownSet, rows, i, page) && Records(Tables(), page, records)
        invariant |page| <= maximum && !hasMore
      {
        var id := rows[i];
        if id !in knownSet {
          if |records| == maximum {
            hasMore := true;
            break;
          }
          ScanRow(Tables(), knownSet, rows, i, page);
          records := records + [commits[id].record];
          page := page + [id];
        } else {
          ScanRow(Tables(), knownSet, rows, i, page);
        }
        i := i + 1;
      }
      PageFromRows(Tables(), knownSet, rows, i, page, maximum);
      r := Ok((records, hasMore));
    }

    /** Rebuilds the head index from the immutable edges when the server starts. */
    method RepairHeads()
      modifies `heads
      ensures Tables() == old(Tables()).(heads := Childless(old(Tables())))
    {
      heads := {};
      var rest := commits.Keys;
      while rest != {}
        invariant rest <= commits.Keys
        invariant heads == Childless(Tables()) - rest
        decreases rest
      {
        var candidate :| candidate in rest;
        if forall e :: e in edges ==> e.1 != candidate {
          heads := heads + {candidate};
        }
        rest := rest - {candidate};
      }
    }
  }

  method LoadHeads(stored: set<Id>) returns (r: Result<seq<Id>, StorageError>)
    ensures r.Ok? <==> |stored| <= MAX_HEADS
    ensures r.Ok? ==> Lists(r.value, stored)
    ensures r.Err? ==> r.error == LimitExceeded
  {
    var rows := SelectSorted(stored);
    DistinctLength(rows);
    var loaded: seq<Id> := [];
    var i := 0;
    while i < |rows|
      invariant 0 <= i <= |rows| && loaded == rows[..i] && i <= MAX_HEADS
    {
      if |loaded| >= MAX_HEADS { return Err(LimitExceeded); }
      loaded := loaded + [rows[i]];
      i := i + 1;
    }
    r := Ok(loaded);
  }
}
