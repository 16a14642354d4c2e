/** The reconciler's diff between the records and the scanned files (plugin/src/sync/reconcile.ts). */
module Reconcile {
  import opened Basics
  import Paths

  /** A vault path; only equality and the collision key look inside. */
  datatype Path = Path(text: string)

  /** One listed file: `path` is `None` when its path is invalid, `hash` when it cannot be read. */
  datatype Listed = Listed(rawPath: Path, path: Option<Path>, hash: Option<Id>)

  datatype Scanned = Scanned(path: Path, hash: Id)

  datatype Record = Record(objectId: Id, path: Path, revision: nat, hash: Id, tombstone: bool)

  datatype Kind = Create | Modify | Rename | Delete | Merge

  datatype Operation = Operation(
    operationId: Id,
    kind: Kind,
    objectId: Id,
    path: Path,
    previousPath: Option<Path>,
    baseRevision: nat,
    revision: nat,
    hash: Option<Id>)

  datatype Issue = InvalidPath(path: Path) | ReadFailure(path: Path) | PortableCollision(paths: set<Path>)

  /** Active records by path, and scanned hashes by path. */
  type Records = map<Path, Record>
  type Files = map<Path, Id>

  // ----- the meaning of an operation list

  predicate Targets(op: Operation, path: Path) {
    !op.kind.Delete? && op.path == path
  }

  predicate Removes(op: Operation, path: Path) {
    (op.kind.Delete? && op.path == path) || (op.kind.Rename? && op.previousPath == Some(path))
  }

  predicate Touches(op: Operation, path: Path) {
    Targets(op, path) || Removes(op, path)
  }

  /** The path-to-hash map after one operation. */
  function ApplyOne(files: Files, op: Operation): Files {
    match op.kind
    case Delete => files - {op.path}
    case Rename =>
      var moved := if op.previousPath.Some? then files - {op.previousPath.value} else files;
      if op.hash.Some? then moved[op.path := op.hash.value] else moved
    case _ => if op.hash.Some? then files[op.path := op.hash.value] else files
  }

  function ApplyAll(files: Files, ops: seq<Operation>): Files
    decreases |ops|
  {
    if ops == [] then files else ApplyOne(ApplyAll(files, ops[..|ops| - 1]), ops[|ops| - 1])
  }

  function Hashes(records: Records): Files {
    map p | p in records :: records[p].hash
  }

  // ----- what the diff must be

  /** `record` is the only missing record, and `file` the only new file, with their common hash. */
  ghost predicate RenamePair(records: Records, files: Files, record: Path, file: Path) {
    && record in records && record !in files && file in files && file !in records
    && records[record].hash == files[file]
    && (forall r :: r in records && r !in files && records[r].hash == files[file] ==> r == record)
    && (forall f :: f in files && f !in records && files[f] == files[file] ==> f == file)
  }

  /** The operation is what the two maps call for, one revision above its base. */
  ghost predicate Called(records: Records, files: Files, op: Operation) {
    && op.revision == op.baseRevision + 1
    && match op.kind
       case Modify =>
         && op.path in records && op.path in files && records[op.path].hash != files[op.path]
         && op.objectId == records[op.path].objectId && op.baseRevision == records[op.path].revision
         && op.hash == Some(files[op.path]) && op.previousPath.None?
       case Rename =>
         && op.previousPath.Some? && RenamePair(records, files, op.previousPath.value, op.path)
         && op.objectId == records[op.previousPath.value].objectId
         && op.baseRevision == records[op.previousPath.value].revision && op.hash == Some(files[op.path])
       case Create =>
         && op.path in files && op.path !in records && (forall r :: !RenamePair(records, files, r, op.path))
         && op.baseRevision == 0 && op.hash == Some(files[op.path]) && op.previousPath.None?
       case Delete =>
         && op.path in records && op.path !in files && (forall f :: !RenamePair(records, files, op.path, f))
         && op.objectId == records[op.path].objectId && op.baseRevision == records[op.path].revision
         && op.hash.None? && op.previousPath.None?
       case Merge => false
  }

  /** No two operations touch one path. */
  ghost predicate Apart(ops: seq<Operation>) {
    forall i, j, p :: 0 <= i < j < |ops| && Touches(ops[i], p) ==> !Touches(ops[j], p)
  }

  ghost predicate Covered(ops: seq<Operation>, p: Path) {
    exists op :: op in ops && Touches(op, p)
  }

  /** Every difference between the maps is touched. */
  ghost predicate Complete(records: Records, files: Files, ops: seq<Operation>, deletions: bool) {
    && (forall p :: p in files && (p in records ==> records[p].hash != files[p]) ==> Covered(ops, p))
    && (deletions ==> forall p :: p in records && p !in files ==> Covered(ops, p))
  }

  ghost predicate Diff(records: Records, files: Files, ops: seq<Operation>, deletions: bool) {
    && (forall op :: op in ops ==> Called(records, files, op) && (op.kind.Delete? ==> deletions))
    && Apart(ops)
    && Complete(records, files, ops, deletions)
  }

  /** What the operations leave at one path. */
  ghost predicate LeftAt(files: Files, ops: seq<Operation>, result: Files, p: Path) {
    && (forall op :: op in ops && Targets(op, p) ==> p in result && Some(result[p]) == op.hash)
    && (forall op :: op in ops && Removes(op, p) && !Targets(op, p) ==> p !in result)
    && (!Covered(ops, p) ==> (p in result <==> p in files) && (p in files ==> result[p] == files[p]))
  }

  lemma {:induction false} ApplyAllAt(files: Files, ops: seq<Operation>, p: Path)
    requires Apart(ops) && forall op :: op in ops && !op.kind.Delete? ==> op.hash.Some?
    ensures LeftAt(files, ops, ApplyAll(files, ops), p)
    decreases |ops|
  {
    if ops != [] {
      var n := |ops| - 1;
      var init, last := ops[..n], ops[n];
      assert ops == init + [last];
      forall i, j, q | 0 <= i < j < |init| && Touches(init[i], q) ensures !Touches(init[j], q) {
        assert ops[i] == init[i] && ops[j] == init[j];
      }
      ApplyAllAt(files, init, p);
      forall op | op in init && Touches(op, p) ensures !Touches(last, p) {
        var i :| 0 <= i < |init| && init[i] == op;
        assert ops[i] == op;
      }
      ApplyOneAt(files, init, last, ApplyAll(files, init), p);
    }
  }

  lemma ApplyOneAt(files: Files, init: seq<Operation>, last: Operation, before: Files, p: Path)
    requires LeftAt(files, init, before, p) && (last.kind.Delete? || last.hash.Some?)
    requires forall op :: op in init && Touches(op, p) ==> !Touches(last, p)
    ensures LeftAt(files, init + [last], ApplyOne(before, last), p)
  {
    assert last in init + [last];
    if Covered(init, p) {
      var op :| op in init && Touches(op, p);
      assert op in init + [last];
    }
  }

  /** Applying the diff to the recorded files gives exactly the scanned files. */
  lemma DiffApplies(records: Records, files: Files, ops: seq<Operation>)
    requires Diff(records, files, ops, true)
    ensures ApplyAll(Hashes(records), ops) == files
  {
    var result := ApplyAll(Hashes(records), ops);
    forall p ensures p in result <==> p in files
             ensures p in files ==> p in result && result[p] == files[p]
    {
      ApplyAllAt(Hashes(records), ops, p);
      if Covered(ops, p) {
        var op :| op in ops && Touches(op, p);
        assert Called(records, files, op);
      }
    }
  }

  // ----- the imperative form

  /** Fresh identifiers; those of objects and of operations are never compared with each other. */
  class IdSource {
    ghost var used: set<Id>
    ghost var operations: set<Id>
    var next: Id

    ghost predicate Valid()
      reads this
    {
      (forall id :: id in used ==> id < next) && forall id :: id in operations ==> id < next
    }

    constructor (ghost used: set<Id>, ghost operations: set<Id>, next: Id)
      requires (forall id :: id in used ==> id < next) && forall id :: id in operations ==> id < next
      ensures Valid() && this.used == used && this.operations == operations
    {
      this.used, this.operations, this.next := used, operations, next;
    }

    method NewObjectId() returns (id: Id)
      requires Valid()
      modifies this`next, this`used
      ensures Valid() && id !in old(used) && used == old(used) + {id}
    {
      id := next;
      next := next + 1;
      used := used + {id};
    }

    method NewOperationId() returns (id: Id)
      requires Valid()
      modifies this`next, this`operations
      ensures Valid() && id !in old(operations) && operations == old(operations) + {id}
    {
      id := next;
      next := next + 1;
      operations := operations + {id};
    }
  }

  /** The operations have identifiers of their own that did not exist before. */
  ghost predicate NewlyNumbered(ops: seq<Operation>, before: set<Id>, now: set<Id>) {
    && before <= now
    && (forall op :: op in ops ==> op.operationId in now && op.operationId !in before)
    && forall i, j :: 0 <= i < j < |ops| ==> ops[i].operationId != ops[j].operationId
  }

  lemma NumberedSnoc(ops: seq<Operation>, before: set<Id>, now: set<Id>, op: Operation)
    requires NewlyNumbered(ops, before, now) && op.operationId !in now
    ensures NewlyNumbered(ops + [op], before, now + {op.operationId})
  {
    forall i | 0 <= i < |ops| ensures ops[i].operationId != op.operationId { assert ops[i] in ops; }
  }

  /** What the scan keeps while it consumes the two maps. */
  ghost predicate Progress(records: Records, files: Files, ops: seq<Operation>, missing: Records, fresh': Files) {
    && (forall p :: p in missing ==> p in records && missing[p] == records[p])
    && (forall p :: p in fresh' ==> p in files && fresh'[p] == files[p])
    && (forall op :: op in ops ==> Called(records, files, op))
    && Apart(ops)
    && (forall op, p :: op in ops && Touches(op, p) ==> p !in missing && p !in fresh')
    && (forall p :: p in files && p !in fresh' && (p in records ==> records[p].hash != files[p]) ==> Covered(ops, p))
    && (forall p :: p in records && p !in files && p !in missing ==> Covered(ops, p))
  }

  /** Distinct operations concern distinct objects. */
  ghost predicate OneOperationPerObject(ops: seq<Operation>) {
    forall i, j :: 0 <= i < j < |ops| ==> ops[i].objectId != ops[j].objectId
  }

  ghost predicate IdsAccounted(ops: seq<Operation>, missing: Records, used: set<Id>) {
    && OneOperationPerObject(ops)
    && (forall op :: op in ops ==> op.objectId in used)
    && (forall op, p :: op in ops && p in missing ==> missing[p].objectId != op.objectId)
    && (forall p :: p in missing ==> missing[p].objectId in used)
    && (forall p, q :: p in missing && q in missing && missing[p].objectId == missing[q].objectId ==> p == q)
  }

  lemma CoveredSnoc(ops: seq<Operation>, op: Operation)
    ensures forall p :: Covered(ops + [op], p) <==> Covered(ops, p) || Touches(op, p)
  {}

  /** Adding a called operation whose paths leave the two maps. */
  lemma ProgressSnoc(records: Records, files: Files, ops: seq<Operation>, missing: Records, fresh': Files,
                     op: Operation, missing2: Records, fresh2: Files)
    requires Progress(records, files, ops, missing, fresh') && Called(records, files, op)
    requires forall p :: p in missing2 <==> p in missing && !Touches(op, p)
    requires forall p :: p in missing2 ==> missing2[p] == missing[p]
    requires forall p :: p in fresh2 <==> p in fresh' && !Touches(op, p)
    requires forall p :: p in fresh2 ==> fresh2[p] == fresh'[p]
    requires forall p :: Touches(op, p) ==> p in missing || p in fresh'
    ensures Progress(records, files, ops + [op], missing2, fresh2)
  {
    var longer := ops + [op];
    CoveredSnoc(ops, op);
    forall i, j, p | 0 <= i < j < |longer| && Touches(longer[i], p) ensures !Touches(longer[j], p) {
      assert longer[i] == ops[i];
      if j < |ops| { assert longer[j] == ops[j]; }
    }
  }

  lemma IdsSnoc(ops: seq<Operation>, missing: Records, used: set<Id>, op: Operation, missing2: Records, used2: set<Id>)
    requires IdsAccounted(ops, missing, used) && used <= used2 && op.objectId in used2
    requires forall x :: x in ops ==> x.objectId != op.objectId
    requires forall p ::
               p in missing2 ==> p in missing && missing2[p] == missing[p] && missing2[p].objectId != op.objectId
    ensures IdsAccounted(ops + [op], missing2, used2)
  {}

  function FilesOf(safe: seq<Scanned>): Files {
    if safe == [] then map[] else FilesOf(safe[..|safe| - 1])[safe[|safe| - 1].path := safe[|safe| - 1].hash]
  }

  ghost predicate DistinctPaths(safe: seq<Scanned>) {
    forall i, j :: 0 <= i < j < |safe| ==> safe[i].path != safe[j].path
  }

  lemma {:induction false} FilesOfFile(safe: seq<Scanned>, k: nat)
    requires DistinctPaths(safe) && k < |safe|
    ensures safe[k].path in FilesOf(safe) && FilesOf(safe)[safe[k].path] == safe[k].hash
    decreases |safe|
  {
    if k < |safe| - 1 { FilesOfFile(safe[..|safe| - 1], k); }
  }

  lemma {:induction false} FilesOfPath(safe: seq<Scanned>, p: Path)
    requires p in FilesOf(safe)
    ensures exists k: nat :: SeenAt(safe, k, p)
    decreases |safe|
  {
    var n := |safe| - 1;
    if p == safe[n].path {
      assert SeenAt(safe, n, p);
    } else {
      FilesOfPath(safe[..n], p);
      var k: nat :| SeenAt(safe[..n], k, p);
      assert SeenAt(safe, k, p);
    }
  }

  lemma FilesOfAt(safe: seq<Scanned>)
    requires DistinctPaths(safe)
    ensures forall k :: 0 <= k < |safe| ==> safe[k].path in FilesOf(safe) && FilesOf(safe)[safe[k].path] == safe[k].hash
    ensures forall p :: p in FilesOf(safe) ==> exists k: nat :: SeenAt(safe, k, p)
  {
    forall k | 0 <= k < |safe| ensures safe[k].path in FilesOf(safe) && FilesOf(safe)[safe[k].path] == safe[k].hash {
      FilesOfFile(safe, k);
    }
    forall p | p in FilesOf(safe) ensures exists k: nat :: SeenAt(safe, k, p) { FilesOfPath(safe, p); }
  }

  function RevisedOperation(operationId: Id, kind: Kind, record: Record, path: Path, hash: Id): Operation {
    Operation(operationId, kind, record.objectId, path, if kind.Rename? then Some(record.path) else None,
              record.revision, record.revision + 1, Some(hash))
  }

  function CreateOperation(operationId: Id, id: Id, path: Path, hash: Id): Operation {
    Operation(operationId, Create, id, path, None, 0, 1, Some(hash))
  }

  function DeleteOperation(operationId: Id, record: Record): Operation {
    Operation(operationId, Delete, record.objectId, record.path, None, record.revision, record.revision + 1, None)
  }

  /** Every record is filed under its own path. */
  ghost predicate Filed(records: Records) {
    forall p :: p in records ==> records[p].path == p
  }

  /** A file whose content is as recorded leaves both maps. */
  lemma DropStep(records: Records, files: Files, ops: seq<Operation>, missing: Records, fresh': Files, used: set<Id>,
                 p: Path)
    requires Progress(records, files, ops, missing, fresh') && IdsAccounted(ops, missing, used)
    requires p in records && p in files && records[p].hash == files[p]
    ensures Progress(records, files, ops, missing - {p}, fresh' - {p}) && IdsAccounted(ops, missing - {p}, used)
  {}

  lemma ModifyStep(records: Records, files: Files, ops: seq<Operation>, missing: Records, fresh': Files, used: set<Id>,
                   operationId: Id, p: Path)
    requires Progress(records, files, ops, missing, fresh') && IdsAccounted(ops, missing, used) && Filed(records)
    requires p in missing && p in files && records[p].hash != files[p]
    ensures var op := RevisedOperation(operationId, Modify, records[p], p, files[p]);
            && Progress(records, files, ops + [op], missing - {p}, fresh' - {p})
            && IdsAccounted(ops + [op], missing - {p}, used)
  {
    var op := RevisedOperation(operationId, Modify, records[p], p, files[p]);
    forall q ensures Touches(op, q) <==> q == p {}
    ProgressSnoc(records, files, ops, missing, fresh', op, missing - {p}, fresh' - {p});
    IdsSnoc(ops, missing, used, op, missing - {p}, used);
  }

  lemma RenameStep(records: Records, files: Files, ops: seq<Operation>, missing: Records, fresh': Files, used: set<Id>,
                   operationId: Id, r: Path, f: Path)
    requires Progress(records, files, ops, missing, fresh') && IdsAccounted(ops, missing, used) && Filed(records)
    requires RenamePair(records, files, r, f) && r in missing && f in fresh'
    ensures var op := RevisedOperation(operationId, Rename, records[r], f, files[f]);
            && Progress(records, files, ops + [op], missing - {r}, fresh' - {f})
            && IdsAccounted(ops + [op], missing - {r}, used)
  {
    var op := RevisedOperation(operationId, Rename, records[r], f, files[f]);
    forall q ensures Touches(op, q) <==> q == r || q == f {}
    ProgressSnoc(records, files, ops, missing, fresh', op, missing - {r}, fresh' - {f});
    IdsSnoc(ops, missing, used, op, missing - {r}, used);
  }

  lemma CreateStep(records: Records, files: Files, ops: seq<Operation>, missing: Records, fresh': Files, used: set<Id>,
                   operationId: Id, f: Path, id: Id)
    requires Progress(records, files, ops, missing, fresh') && IdsAccounted(ops, missing, used)
    requires f in fresh' && f !in records && id !in used && forall r :: !RenamePair(records, files, r, f)
    ensures var op := CreateOperation(operationId, id, f, files[f]);
            && Progress(records, files, ops + [op], missing, fresh' - {f})
            && IdsAccounted(ops + [op], missing, used + {id})
  {
    var op := CreateOperation(operationId, id, f, files[f]);
    forall q ensures Touches(op, q) <==> q == f {}
    ProgressSnoc(records, files, ops, missing, fresh', op, missing, fresh' - {f});
    IdsSnoc(ops, missing, used, op, missing, used + {id});
  }

  lemma DeleteStep(records: Records, files: Files, ops: seq<Operation>, missing: Records, fresh': Files, used: set<Id>,
                   operationId: Id, r: Path)
    requires Progress(records, files, ops, missing, fresh') && IdsAccounted(ops, missing, used) && Filed(records)
    requires r in missing && r !in files && forall f :: !RenamePair(records, files, r, f)
    ensures var op := DeleteOperation(operationId, records[r]);
            && Progress(records, files, ops + [op], missing - {r}, fresh')
            && IdsAccounted(ops + [op], missing - {r}, used)
  {
    var op := DeleteOperation(operationId, records[r]);
    forall q ensures Touches(op, q) <==> q == r {}
    ProgressSnoc(records, files, ops, missing, fresh', op, missing - {r}, fresh');
    IdsSnoc(ops, missing, used, op, missing - {r}, used);
  }

  /** Modifications and renames: operations on recorded objects that keep a file. */
  ghost predicate OnlyRevisions(ops: seq<Operation>) {
    forall op :: op in ops ==> op.kind.Modify? || op.kind.Rename?
  }

  /** No deletions, and creations only with identifiers outside `used`. */
  ghost predicate CreatesAreNew(ops: seq<Operation>, used: set<Id>) {
    forall op :: op in ops ==> !op.kind.Delete? && (op.kind.Create? ==> op.objectId !in used)
  }

  // ----- files at a recorded path

  ghost predicate SeenAt(safe: seq<Scanned>, k: nat, p: Path) {
    k < |safe| && safe[k].path == p
  }

  ghost predicate Seen(safe: seq<Scanned>, i: nat, p: Path) {
    exists k: nat :: k < i && SeenAt(safe, k, p)
  }

  /** The first `i` files have been looked up. */
  ghost predicate Matched(records: Records, files: Files, safe: seq<Scanned>, i: nat, missing: Records, fresh': Files) {
    && (forall p :: p in missing <==> p in records && !Seen(safe, i, p))
    && (forall p :: p in fresh' <==> p in files && !(Seen(safe, i, p) && p in records))
  }

  lemma MatchedNext(records: Records, files: Files, safe: seq<Scanned>, i: nat, missing: Records, fresh': Files)
    requires Matched(records, files, safe, i, missing, fresh') && i < |safe| && DistinctPaths(safe)
    requires safe[i].path in files
    ensures var p := safe[i].path;
            if p in records then p in missing && Matched(records, files, safe, i + 1, missing - {p}, fresh' - {p})
            else Matched(records, files, safe, i + 1, missing, fresh')
  {
    assert SeenAt(safe, i, safe[i].path);
    forall p ensures Seen(safe, i + 1, p) <==> Seen(safe, i, p) || p == safe[i].path {
      if Seen(safe, i, p) {
        var k: nat :| k < i && SeenAt(safe, k, p);
      }
    }
    assert !Seen(safe, i, safe[i].path);
  }

  lemma MatchedAll(records: Records, safe: seq<Scanned>, missing: Records, fresh': Files)
    requires Matched(records, FilesOf(safe), safe, |safe|, missing, fresh') && DistinctPaths(safe)
    ensures Unmatched(records, FilesOf(safe), missing, fresh')
  {
    FilesOfAt(safe);
    forall p ensures Seen(safe, |safe|, p) <==> p in FilesOf(safe) {
      if p in FilesOf(safe) {
        var k: nat :| SeenAt(safe, k, p);
      }
      if Seen(safe, |safe|, p) {
        var k: nat :| k < |safe| && SeenAt(safe, k, p);
        assert safe[k].path in FilesOf(safe);
      }
    }
  }

  /** The records without a file, and the files without a record. */
  ghost predicate Unmatched(records: Records, files: Files, missing: Records, fresh': Files) {
    && (forall p :: p in missing <==> p in records && p !in files)
    && (forall p :: p in fresh' <==> p in files && p !in records)
  }

  /** Files at a recorded path: unchanged ones are dropped, changed ones are modifications. */
  method MatchPaths(records: Records, safe: seq<Scanned>, ids: IdSource)
    returns (ops: seq<Operation>, missing: Records, fresh': Files)
    requires ids.Valid() && DistinctPaths(safe) && Filed(records) && IdsAccounted([], records, ids.used)
    modifies ids`next, ids`operations
    ensures ids.Valid() && NewlyNumbered(ops, old(ids.operations), ids.operations)
    ensures Progress(records, FilesOf(safe), ops, missing, fresh') && IdsAccounted(ops, missing, ids.used)
    ensures Unmatched(records, FilesOf(safe), missing, fresh') && OnlyRevisions(ops)
  {
    ghost var used, before := ids.used, ids.operations;
    ghost var files := FilesOf(safe);
    FilesOfAt(safe);
    ops, missing, fresh' := [], records, FilesOf(safe);
    for i := 0 to |safe|
      invariant ids.Valid() && NewlyNumbered(ops, before, ids.operations)
      invariant Progress(records, files, ops, missing, fresh') && IdsAccounted(ops, missing, used)
      invariant Matched(records, files, safe, i, missing, fresh') && OnlyRevisions(ops)
    {
      var file := safe[i];
      MatchedNext(records, files, safe, i, missing, fresh');
      if file.path in records {
        var record := records[file.path];
        if record.hash != file.hash {
          ghost var now := ids.operations;
          var operationId := ids.NewOperationId();
          ModifyStep(records, files, ops, missing, fresh', used, operationId, file.path);
          NumberedSnoc(ops, before, now, RevisedOperation(operationId, Modify, record, file.path, file.hash));
          ops := ops + [RevisedOperation(operationId, Modify, record, file.path, file.hash)];
        } else {
          DropStep(records, files, ops, missing, fresh', used, file.path);
        }
        missing, fresh' := missing - {file.path}, fresh' - {file.path};
      }
    }
    MatchedAll(records, safe, missing, fresh');
  }

  // ----- renames

  ghost predicate HasHash(values: Files, h: Id, p: Path) {
    p in values && values[p] == h
  }

  ghost predicate GroupedByHash(values: Files, groups: map<Id, set<Path>>) {
    && (forall h :: h in groups <==> exists p :: HasHash(values, h, p))
    && (forall h, p :: h in groups ==> (p in groups[h] <==> HasHash(values, h, p)))
  }

  /** `groupBy`: the paths with each hash. */
  method GroupByHash(values: Files) returns (groups: map<Id, set<Path>>)
    ensures GroupedByHash(values, groups)
  {
    groups := map[];
    var rest := values.Keys;
    ghost var done: Files := map[];
    while rest != {}
      invariant rest <= values.Keys && done.Keys == values.Keys - rest
      invariant forall p :: p in done ==> done[p] == values[p]
      invariant GroupedByHash(done, groups)
      decreases rest
    {
      var p :| p in rest;
      var group := if values[p] in groups then groups[values[p]] else {};
      GroupOneMore(done, groups, p, values[p]);
      groups := groups[values[p] := group + {p}];
      done := done[p := values[p]];
      rest := rest - {p};
    }
    assert done == values;
  }

  lemma GroupOneMore(done: Files, groups: map<Id, set<Path>>, p: Path, h: Id)
    requires GroupedByHash(done, groups) && p !in done
    ensures GroupedByHash(done[p := h], groups[h := (if h in groups then groups[h] else {}) + {p}])
  {
    var longer := done[p := h];
    assert HasHash(longer, h, p);
    forall k, q ensures HasHash(longer, k, q) <==> HasHash(done, k, q) || (k == h && q == p) {}
  }

  lemma Singleton<T>(s: set<T>, x: T)
    requires x in s
    ensures |s| == 1 <==> s == {x}
  {
    assert s == {x} + (s - {x});
  }

  /** The hash has one vanished record and one new file. */
  predicate LonePair(missingByHash: map<Id, set<Path>>, newByHash: map<Id, set<Path>>, hash: Id) {
    && hash in missingByHash && |missingByHash[hash]| == 1
    && hash in newByHash && |newByHash[hash]| == 1
  }

  lemma RenamePairIsLone(records: Records, files: Files, missing: Records, fresh': Files,
                         missingByHash: map<Id, set<Path>>, newByHash: map<Id, set<Path>>, r: Path, f: Path)
    requires Unmatched(records, files, missing, fresh')
    requires forall p :: p in missing ==> missing[p] == records[p]
    requires forall p :: p in fresh' ==> fresh'[p] == files[p]
    requires GroupedByHash(Hashes(missing), missingByHash) && GroupedByHash(fresh', newByHash)
    requires RenamePair(records, files, r, f)
    ensures LonePair(missingByHash, newByHash, files[f])
  {
    var hash := files[f];
    assert HasHash(Hashes(missing), hash, r) && HasHash(fresh', hash, f);
    var lone := {r};
    forall x ensures x in missingByHash[hash] <==> x in lone {
      assert HasHash(Hashes(missing), hash, x) <==> x in missingByHash[hash];
    }
    assert missingByHash[hash] == {r};
    forall x ensures x in newByHash[hash] <==> x == f { assert HasHash(fresh', hash, x) <==> x in newByHash[hash]; }
    assert newByHash[hash] == {f};
  }

  lemma LoneGroupsPair(records: Records, files: Files, missing: Records, fresh': Files,
                       old': set<Path>, new': set<Path>, hash: Id, r: Path, f: Path)
    requires Unmatched(records, files, missing, fresh')
    requires forall p :: p in missing ==> missing[p] == records[p]
    requires forall p :: p in fresh' ==> fresh'[p] == files[p]
    requires forall p :: p in old' <==> HasHash(Hashes(missing), hash, p)
    requires forall p :: p in new' <==> HasHash(fresh', hash, p)
    requires |old'| == 1 && |new'| == 1 && r in old' && f in new'
    ensures RenamePair(records, files, r, f) && files[f] == hash
  {
    Singleton(old', r);
    Singleton(new', f);
    forall x | x in records && x !in files && records[x].hash == hash ensures x == r {
      assert HasHash(Hashes(missing), hash, x);
    }
    forall x | x in files && x !in records && files[x] == hash ensures x == f {
      assert HasHash(fresh', hash, x);
    }
  }

  /** Hashes outside `waiting` have no rename pair left in the maps; the others are untouched. */
  ghost predicate Renaming(records: Records, files: Files, waiting: set<Id>, missing: Records, fresh': Files) {
    && (forall p :: p in missing ==> p in records && p !in files)
    && (forall p :: p in fresh' ==> p in files && p !in records)
    && (forall p :: p in records && p !in files && records[p].hash in waiting ==> p in missing)
    && (forall p :: p in files && p !in records && files[p] in waiting ==> p in fresh')
    && (forall r, f :: RenamePair(records, files, r, f) && files[f] !in waiting ==> r !in missing && f !in fresh')
  }

  lemma RenamingSkip(records: Records, files: Files, waiting: set<Id>, missing: Records, fresh': Files, hash: Id)
    requires Renaming(records, files, waiting, missing, fresh')
    requires forall r, f :: RenamePair(records, files, r, f) ==> files[f] != hash
    ensures Renaming(records, files, waiting - {hash}, missing, fresh')
  {}

  lemma RenamingTake(records: Records, files: Files, waiting: set<Id>, missing: Records, fresh': Files, r: Path,
                     f: Path)
    requires Renaming(records, files, waiting, missing, fresh') && RenamePair(records, files, r, f)
    requires files[f] in waiting
    ensures r in missing && f in fresh'
    ensures Renaming(records, files, waiting - {files[f]}, missing - {r}, fresh' - {f})
  {}

  method TakeRename(records: Records, ghost files: Files, ops0: seq<Operation>, missing0: Records, fresh0: Files,
                    ghost waiting: set<Id>, ids: IdSource, ghost before: set<Id>, r: Path, f: Path)
    returns (ops: seq<Operation>, missing: Records, fresh': Files)
    requires Filed(records) && Progress(records, files, ops0, missing0, fresh0)
    requires IdsAccounted(ops0, missing0, ids.used)
    requires Renaming(records, files, waiting, missing0, fresh0) && RenamePair(records, files, r, f)
    requires files[f] in waiting
    requires ids.Valid() && NewlyNumbered(ops0, before, ids.operations)
    modifies ids`next, ids`operations
    ensures ids.Valid() && NewlyNumbered(ops, before, ids.operations)
    ensures Progress(records, files, ops, missing, fresh') && IdsAccounted(ops, missing, ids.used)
    ensures Renaming(records, files, waiting - {files[f]}, missing, fresh')
    ensures r in records && |ops| == |ops0| + 1
    ensures ops == ops0 + [RevisedOperation(ops[|ops0|].operationId, Rename, records[r], f, files[f])]
  {
    ghost var now := ids.operations;
    var operationId := ids.NewOperationId();
    RenamingTake(records, files, waiting, missing0, fresh0, r, f);
    RenameStep(records, files, ops0, missing0, fresh0, ids.used, operationId, r, f);
    NumberedSnoc(ops0, before, now, RevisedOperation(operationId, Rename, missing0[r], f, fresh0[f]));
    ops := ops0 + [RevisedOperation(operationId, Rename, missing0[r], f, fresh0[f])];
    missing, fresh' := missing0 - {r}, fresh0 - {f};
  }

  ghost predicate LonePairsAreRenames(records: Records, files: Files, missingByHash: map<Id, set<Path>>,
                                      newByHash: map<Id, set<Path>>)
  {
    && (forall r, f :: RenamePair(records, files, r, f) ==> LonePair(missingByHash, newByHash, files[f]))
    && (forall hash, r, f ::
          LonePair(missingByHash, newByHash, hash) && r in missingByHash[hash] && f in newByHash[hash] ==>
          RenamePair(records, files, r, f) && files[f] == hash)
  }

  method GroupUnmatched(ghost records: Records, ghost files: Files, missing: Records, fresh': Files)
    returns (missingByHash: map<Id, set<Path>>, newByHash: map<Id, set<Path>>)
    requires Unmatched(records, files, missing, fresh')
    requires forall p :: p in missing ==> missing[p] == records[p]
    requires forall p :: p in fresh' ==> fresh'[p] == files[p]
    ensures LonePairsAreRenames(records, files, missingByHash, newByHash)
  {
    missingByHash := GroupByHash(Hashes(missing));
    newByHash := GroupByHash(fresh');
    forall r, f | RenamePair(records, files, r, f) ensures LonePair(missingByHash, newByHash, files[f]) {
      RenamePairIsLone(records, files, missing, fresh', missingByHash, newByHash, r, f);
    }
    forall hash, r, f | LonePair(missingByHash, newByHash, hash) && r in missingByHash[hash] && f in newByHash[hash]
      ensures RenamePair(records, files, r, f) && files[f] == hash
    {
      LoneGroupsPair(records, files, missing, fresh', missingByHash[hash], newByHash[hash], hash, r, f);
    }
  }

  lemma RenamingStart(records: Records, files: Files, missing: Records, fresh': Files,
                      missingByHash: map<Id, set<Path>>, newByHash: map<Id, set<Path>>)
    requires Unmatched(records, files, missing, fresh') && LonePairsAreRenames(records, files, missingByHash, newByHash)
    ensures Renaming(records, files, missingByHash.Keys, missing, fresh')
  {}

  /** A vanished record and a new file with the same content, both the only ones, are a rename. */
  method MatchRenames(records: Records, ghost files: Files, ops0: seq<Operation>, missing0: Records, fresh0: Files,
                      ids: IdSource, ghost before: set<Id>)
    returns (ops: seq<Operation>, missing: Records, fresh': Files)
    requires Filed(records) && Progress(records, files, ops0, missing0, fresh0)
    requires IdsAccounted(ops0, missing0, ids.used)
    requires Unmatched(records, files, missing0, fresh0) && OnlyRevisions(ops0)
    requires ids.Valid() && NewlyNumbered(ops0, before, ids.operations)
    modifies ids`next, ids`operations
    ensures ids.Valid() && NewlyNumbered(ops, before, ids.operations)
    ensures Progress(records, files, ops, missing, fresh') && IdsAccounted(ops, missing, ids.used)
    ensures Renaming(records, files, {}, missing, fresh') && OnlyRevisions(ops)
  {
    ops, missing, fresh' := ops0, missing0, fresh0;
    var missingByHash, newByHash := GroupUnmatched(records, files, missing, fresh');
    RenamingStart(records, files, missing, fresh', missingByHash, newByHash);
    var waiting := missingByHash.Keys;
    while waiting != {}
      invariant waiting <= missingByHash.Keys
      invariant ids.Valid() && NewlyNumbered(ops, before, ids.operations)
      invariant Progress(records, files, ops, missing, fresh') && IdsAccounted(ops, missing, ids.used)
      invariant Renaming(records, files, waiting, missing, fresh') && OnlyRevisions(ops)
      decreases waiting
    {
      var hash :| hash in waiting;
      if LonePair(missingByHash, newByHash, hash) {
        var r :| r in missingByHash[hash];
        var f :| f in newByHash[hash];
        ops, missing, fresh' := TakeRename(records, files, ops, missing, fresh', waiting, ids, before, r, f);
      } else {
        RenamingSkip(records, files, waiting, missing, fresh', hash);
      }
      waiting := waiting - {hash};
    }
  }

  // ----- creations and deletions

  /** The files left are new; the loop makes each a creation with a fresh object. */
  method EmitCreates(records: Records, ghost files: Files, ops0: seq<Operation>, ghost missing: Records, fresh0: Files,
                     ids: IdSource, ghost before: set<Id>)
    returns (ops: seq<Operation>)
    requires NewlyNumbered(ops0, before, ids.operations)
    requires ids.Valid() && Progress(records, files, ops0, missing, fresh0) && IdsAccounted(ops0, missing, ids.used)
    requires Renaming(records, files, {}, missing, fresh0) && OnlyRevisions(ops0)
    modifies ids
    ensures ids.Valid() && old(ids.used) <= ids.used && NewlyNumbered(ops, before, ids.operations)
    ensures Progress(records, files, ops, missing, map[]) && IdsAccounted(ops, missing, ids.used)
    ensures CreatesAreNew(ops, old(ids.used))
  {
    ops := ops0;
    var rest := fresh0;
    while rest != map[]
      invariant ids.Valid() && old(ids.used) <= ids.used && NewlyNumbered(ops, before, ids.operations)
      invariant Progress(records, files, ops, missing, rest) && IdsAccounted(ops, missing, ids.used)
      invariant forall p :: p in rest ==> p in fresh0 && rest[p] == fresh0[p]
      invariant CreatesAreNew(ops, old(ids.used))
      decreases rest.Keys
    {
      var path :| path in rest;
      ghost var used, now := ids.used, ids.operations;
      var operationId := ids.NewOperationId();
      var id := ids.NewObjectId();
      CreateStep(records, files, ops, missing, rest, used, operationId, path, id);
      NumberedSnoc(ops, before, now, CreateOperation(operationId, id, path, rest[path]));
      ops := ops + [CreateOperation(operationId, id, path, rest[path])];
      rest := rest - {path};
    }
  }

  /** The records left have vanished. */
  method EmitDeletes(records: Records, ghost files: Files, ops0: seq<Operation>, missing0: Records,
                     ids: IdSource, ghost before: set<Id>)
    returns (ops: seq<Operation>)
    requires Filed(records) && Progress(records, files, ops0, missing0, map[]) && IdsAccounted(ops0, missing0, ids.used)
    requires Renaming(records, files, {}, missing0, map[])
    requires ids.Valid() && NewlyNumbered(ops0, before, ids.operations)
    modifies ids`next, ids`operations
    ensures ids.Valid() && NewlyNumbered(ops, before, ids.operations)
    ensures Progress(records, files, ops, map[], map[]) && IdsAccounted(ops, map[], ids.used)
    ensures forall op :: op in ops && op !in ops0 ==> op.kind.Delete?
  {
    ops := ops0;
    var rest := missing0;
    while rest != map[]
      invariant ids.Valid() && NewlyNumbered(ops, before, ids.operations)
      invariant Progress(records, files, ops, rest, map[]) && IdsAccounted(ops, rest, ids.used)
      invariant forall p :: p in rest ==> p in missing0
      invariant forall op :: op in ops && op !in ops0 ==> op.kind.Delete?
      decreases rest.Keys
    {
      var path :| path in rest;
      ghost var now := ids.operations;
      var operationId := ids.NewOperationId();
      DeleteStep(records, files, ops, rest, map[], ids.used, operationId, path);
      NumberedSnoc(ops, before, now, DeleteOperation(operationId, rest[path]));
      ops := ops + [DeleteOperation(operationId, rest[path])];
      rest := rest - {path};
    }
  }

  lemma ProgressGivesDiff(records: Records, files: Files, ops: seq<Operation>, missing: Records, deletions: bool)
    requires Progress(records, files, ops, missing, map[])
    requires if deletions then missing == map[] else forall op :: op in ops ==> !op.kind.Delete?
    ensures Diff(records, files, ops, deletions)
  {}

  /** The operations of one scan: the complete difference of the records and the files, one operation an object.
      Only creations use identifiers that did not exist before. */
  method DiffRecords(records: Records, safe: seq<Scanned>, initializedFromRemote: bool, ids: IdSource)
    returns (ops: seq<Operation>)
    requires ids.Valid() && DistinctPaths(safe) && Filed(records) && IdsAccounted([], records, ids.used)
    modifies ids
    ensures ids.Valid() && old(ids.used) <= ids.used && NewlyNumbered(ops, old(ids.operations), ids.operations)
    ensures Diff(records, FilesOf(safe), ops, initializedFromRemote) && OneOperationPerObject(ops)
    ensures forall op :: op in ops ==> op.objectId in ids.used && (op.kind.Create? ==> op.objectId !in old(ids.used))
  {
    ghost var files := FilesOf(safe);
    var missing, fresh';
    ghost var before := ids.operations;
    ops, missing, fresh' := MatchPaths(records, safe, ids);
    ops, missing, fresh' := MatchRenames(records, files, ops, missing, fresh', ids, before);
    ops := EmitCreates(records, files, ops, missing, fresh', ids, before);
    if initializedFromRemote {
      RenamingFewer(records, files, missing, fresh');
      ops := EmitDeletes(records, files, ops, missing, ids, before);
      missing := map[];
    }
    ProgressGivesDiff(records, files, ops, missing, initializedFromRemote);
  }

  lemma RenamingFewer(records: Records, files: Files, missing: Records, fresh': Files)
    requires Renaming(records, files, {}, missing, fresh')
    ensures Renaming(records, files, {}, missing, map[])
  {}

  // ----- listing the vault

  function PathTexts(files: seq<Scanned>): seq<string> {
    seq(|files|, i requires 0 <= i < |files| => files[i].path.text)
  }

  /** The readable files with a valid path, in listing order. */
  function Readable(listed: seq<Listed>): seq<Scanned> {
    if listed == [] then []
    else
      var last := listed[|listed| - 1];
      if last.path.Some? && last.hash.Some?
      then Readable(listed[..|listed| - 1]) + [Scanned(last.path.value, last.hash.value)]
      else Readable(listed[..|listed| - 1])
  }

  ghost predicate IsReadable(file: Listed, p: Path, hash: Id) {
    file.path == Some(p) && file.hash == Some(hash)
  }

  lemma {:induction false} ReadableMembers(listed: seq<Listed>)
    ensures forall s :: s in Readable(listed) <==> exists file :: file in listed && IsReadable(file, s.path, s.hash)
  {
    if listed != [] {
      var init, last := listed[..|listed| - 1], listed[|listed| - 1];
      ReadableMembers(init);
      assert listed == init + [last];
      forall s ensures s in Readable(listed) <==> exists file :: file in listed && IsReadable(file, s.path, s.hash) {
        if file :| file in listed && IsReadable(file, s.path, s.hash) { assert file in init || file == last; }
        if s in Readable(init) {
          var file :| file in init && IsReadable(file, s.path, s.hash);
          assert file in listed;
        }
        assert last in listed;
      }
    }
  }

  /** The files are the readable ones of the listing: each path with its content's hash. */
  ghost predicate IsListing(listed: seq<Listed>, files: Files) {
    forall p: Path, hash: Id {:trigger HasHash(files, hash, p)} ::
      HasHash(files, hash, p) <==> exists file :: file in listed && IsReadable(file, p, hash)
  }

  lemma ReadableIsListing(listed: seq<Listed>)
    requires DistinctPaths(Readable(listed))
    ensures IsListing(listed, FilesOf(Readable(listed)))
  {
    var safe := Readable(listed);
    ReadableMembers(listed);
    FilesOfAt(safe);
    forall p: Path, hash: Id
      ensures HasHash(FilesOf(safe), hash, p) <==> exists file :: file in listed && IsReadable(file, p, hash)
    {
      assert Scanned(p, hash) in safe <==> exists file :: file in listed && IsReadable(file, p, hash);
      if HasHash(FilesOf(safe), hash, p) {
        var k: nat :| SeenAt(safe, k, p);
        assert safe[k] == Scanned(p, hash);
      }
      if Scanned(p, hash) in safe {
        var k: nat :| k < |safe| && safe[k] == Scanned(p, hash);
      }
    }
  }

  lemma OneListing(listed: seq<Listed>, a: Files, b: Files)
    requires IsListing(listed, a) && IsListing(listed, b)
    ensures a == b
  {
    forall p | p in a ensures p in b && a[p] == b[p] { assert HasHash(a, a[p], p) && HasHash(b, a[p], p); }
    forall p | p in b ensures p in a { assert HasHash(b, b[p], p) && HasHash(a, b[p], p); }
  }

  /** Two readable files at different places of the listing conflict. */
  ghost predicate ListedConflict(listed: seq<Listed>, collisionKey: string -> string) {
    exists i: nat, j: nat :: i < j < |listed| && ConflictingAt(listed, i, j, collisionKey)
  }

  ghost predicate ConflictingAt(listed: seq<Listed>, i: nat, j: nat, collisionKey: string -> string)
    requires i < |listed| && j < |listed|
  {
    && listed[i].path.Some? && listed[i].hash.Some? && listed[j].path.Some? && listed[j].hash.Some?
    && Paths.PortablePathsConflict(listed[i].path.value.text, listed[j].path.value.text, collisionKey)
  }

  /** Where each readable file stands in the listing. */
  lemma {:induction false} ReadablePlaces(listed: seq<Listed>) returns (at: seq<nat>)
    ensures PlacesOf(listed, at)
  {
    at := [];
    if listed != [] {
      at := ReadablePlaces(listed[..|listed| - 1]);
      var last := listed[|listed| - 1];
      if last.path.Some? && last.hash.Some? { at := at + [|listed| - 1]; }
    }
  }

  ghost predicate PlacesOf(listed: seq<Listed>, at: seq<nat>) {
    && |at| == |Readable(listed)|
    && (forall k :: 0 <= k < |at| ==>
          at[k] < |listed| && IsReadable(listed[at[k]], Readable(listed)[k].path, Readable(listed)[k].hash))
    && (forall j, k :: 0 <= j < k < |at| ==> at[j] < at[k])
    && (forall i: nat {:trigger listed[i]} :: i < |listed| && listed[i].path.Some? && listed[i].hash.Some? ==> i in at)
  }

  lemma ListedConflictExactly(listed: seq<Listed>, collisionKey: string -> string)
    ensures ListedConflict(listed, collisionKey) <==> Paths.SomeConflict(PathTexts(Readable(listed)), collisionKey)
  {
    var at := ReadablePlaces(listed);
    var texts := PathTexts(Readable(listed));
    if i: nat, j: nat :| i < j < |listed| && ConflictingAt(listed, i, j, collisionKey) {
      var a: nat :| a < |at| && at[a] == i;
      var b: nat :| b < |at| && at[b] == j;
      assert a < b && Paths.PortablePathsConflict(texts[a], texts[b], collisionKey);
    }
    if a: nat, b: nat :| a < b < |texts| && Paths.PortablePathsConflict(texts[a], texts[b], collisionKey) {
      assert ConflictingAt(listed, at[a], at[b], collisionKey);
    }
  }

  /** One issue for every other file, in listing order. */
  function Unreadable(listed: seq<Listed>): seq<Issue> {
    if listed == [] then []
    else
      var rest, last := Unreadable(listed[..|listed| - 1]), listed[|listed| - 1];
      if last.path.None? then rest + [InvalidPath(last.rawPath)]
      else if last.hash.None? then rest + [ReadFailure(last.rawPath)]
      else rest
  }

  lemma {:induction false} UnreadableMembers(listed: seq<Listed>)
    ensures forall p ::
              InvalidPath(p) in Unreadable(listed) <==>
              exists file :: file in listed && file.rawPath == p && file.path.None?
    ensures forall p ::
              ReadFailure(p) in Unreadable(listed) <==>
              exists file :: file in listed && file.rawPath == p && file.path.Some? && file.hash.None?
    ensures forall issue :: issue in Unreadable(listed) ==> !issue.PortableCollision?
  {
    if listed != [] {
      UnreadableMembers(listed[..|listed| - 1]);
      assert listed == listed[..|listed| - 1] + [listed[|listed| - 1]];
    }
  }

  method ScanFiles(listed: seq<Listed>) returns (output: seq<Scanned>, issues: seq<Issue>)
    ensures output == Readable(listed) && issues == Unreadable(listed)
    ensures forall p, hash ::
              Scanned(p, hash) in output <==> exists file :: file in listed && IsReadable(file, p, hash)
    ensures forall p ::
              InvalidPath(p) in issues <==> exists file :: file in listed && file.rawPath == p && file.path.None?
    ensures forall p ::
              ReadFailure(p) in issues <==>
              exists file :: file in listed && file.rawPath == p && file.path.Some? && file.hash.None?
    ensures issues == [] <==> forall file :: file in listed ==> file.path.Some? && file.hash.Some?
  {
    ReadableMembers(listed);
    UnreadableMembers(listed);
    output, issues := [], [];
    for i := 0 to |listed|
      invariant output == Readable(listed[..i]) && issues == Unreadable(listed[..i])
      invariant issues == [] <==> forall k :: 0 <= k < i ==> listed[k].path.Some? && listed[k].hash.Some?
    {
      assert listed[..i + 1][..i] == listed[..i];
      var file := listed[i];
      if file.path.None? {
        issues := issues + [InvalidPath(file.rawPath)];
      } else if file.hash.None? {
        issues := issues + [ReadFailure(file.rawPath)];
      } else {
        output := output + [Scanned(file.path.value, file.hash.value)];
      }
    }
    assert listed[..|listed|] == listed;
  }

  ghost predicate Rejects(groups: map<string, set<string>>, p: string) {
    exists key :: key in groups && p in groups[key]
  }

  /** The union of the groups, one issue for each. */
  method ReportGroups(groups: map<string, set<string>>, before: seq<Issue>)
    returns (rejected: set<string>, issues: seq<Issue>)
    ensures forall p :: p in rejected <==> Rejects(groups, p)
    ensures before <= issues && (issues == before <==> groups == map[])
  {
    rejected, issues := {}, before;
    var rest := groups;
    while rest != map[]
      invariant forall key :: key in rest ==> key in groups && rest[key] == groups[key]
      invariant forall p :: p in rejected || Rejects(rest, p) <==> Rejects(groups, p)
      invariant before <= issues && (issues == before <==> rest == groups)
      decreases rest.Keys
    {
      var key :| key in rest;
      issues := issues + [PortableCollision(set p | p in rest[key] :: Path(p))];
      rejected := rejected + rest[key];
      ghost var was := rest;
      rest := rest - {key};
      forall p ensures p in was[key] || Rejects(rest, p) <==> Rejects(was, p) {
        if Rejects(was, p) && p !in was[key] {
          var k :| k in was && p in was[k];
          assert k in rest;
        }
      }
    }
  }

  /** The files in no group, in order. */
  ghost function Ungrouped(files: seq<Scanned>, groups: map<string, set<string>>): seq<Scanned> {
    if files == [] then []
    else
      var init, last := Ungrouped(files[..|files| - 1], groups), files[|files| - 1];
      if Rejects(groups, last.path.text) then init else init + [last]
  }

  lemma {:induction false} UngroupedMembers(files: seq<Scanned>, groups: map<string, set<string>>)
    ensures forall file :: file in Ungrouped(files, groups) <==> file in files && !Rejects(groups, file.path.text)
  {
    if files != [] {
      UngroupedMembers(files[..|files| - 1], groups);
      assert files == files[..|files| - 1] + [files[|files| - 1]];
    }
  }

  /** A file that conflicts with no other is in no group. */
  lemma ConflictFreeIsUngrouped(files: seq<Scanned>, collisionKey: string -> string, groups: map<string, set<string>>)
    requires Paths.Grouped(Paths.Buckets(PathTexts(files), collisionKey),
                           Paths.KeyOrder(PathTexts(files), collisionKey), groups)
    ensures forall i: nat :: i < |files| && !Paths.ConflictsAt(PathTexts(files), collisionKey, i) ==>
              files[i] in Ungrouped(files, groups)
  {
    UngroupedMembers(files, groups);
    forall i: nat | i < |files| && Rejects(groups, files[i].path.text)
      ensures Paths.ConflictsAt(PathTexts(files), collisionKey, i)
    {
      var key :| key in groups && files[i].path.text in groups[key];
      Paths.ReportedConflicts(PathTexts(files), collisionKey, groups, key, i);
    }
  }

  /** The files that remain are those in no group: no two of them conflict, every file that conflicts with no other
      remains, and nothing is rejected without an issue. */
  method RejectCollisions(files: seq<Scanned>, collisionKey: string -> string, before: seq<Issue>)
    returns (safe: seq<Scanned>, issues: seq<Issue>, ghost groups: map<string, set<string>>)
    ensures Paths.Grouped(Paths.Buckets(PathTexts(files), collisionKey), Paths.KeyOrder(PathTexts(files), collisionKey),
                          groups)
    ensures safe == Ungrouped(files, groups)
    ensures before <= issues && (issues == before <==> !Paths.SomeConflict(PathTexts(files), collisionKey))
    ensures issues == before ==> safe == files
    ensures !Paths.SomeConflict(PathTexts(safe), collisionKey)
    ensures forall i: nat :: i < |files| && !Paths.ConflictsAt(PathTexts(files), collisionKey, i) ==> files[i] in safe
  {
    var found := Paths.PortablePathConflictGroups(PathTexts(files), collisionKey);
    groups := found;
    Paths.GroupsReportConflicts(PathTexts(files), collisionKey, groups);
    var rejected;
    rejected, issues := ReportGroups(found, before);
    safe := FilterRejected(files, rejected, groups);
    ConflictFreeIsUngrouped(files, collisionKey, groups);
    UngroupedAreApart(files, collisionKey, groups);
    if groups == map[] { UngroupedIsAll(files); }
  }

  method FilterRejected(files: seq<Scanned>, rejected: set<string>, ghost groups: map<string, set<string>>)
    returns (safe: seq<Scanned>)
    requires forall p :: p in rejected <==> Rejects(groups, p)
    ensures safe == Ungrouped(files, groups)
  {
    safe := [];
    for i := 0 to |files|
      invariant safe == Ungrouped(files[..i], groups)
    {
      assert files[..i + 1][..i] == files[..i];
      if files[i].path.text !in rejected { safe := safe + [files[i]]; }
    }
    assert files[..|files|] == files;
  }

  lemma {:induction false} UngroupedIsAll(files: seq<Scanned>)
    ensures Ungrouped(files, map[]) == files
  {
    if files != [] { UngroupedIsAll(files[..|files| - 1]); }
  }

  /** The ungrouped files are those at the increasing positions `at`. */
  ghost predicate Picks(files: seq<Scanned>, groups: map<string, set<string>>, at: seq<nat>) {
    var safe := Ungrouped(files, groups);
    && |at| == |safe|
    && (forall k :: 0 <= k < |at| ==> at[k] < |files| && safe[k] == files[at[k]] && !Rejects(groups, safe[k].path.text))
    && (forall j, k :: 0 <= j < k < |at| ==> at[j] < at[k])
  }

  lemma {:induction false} UngroupedPicks(files: seq<Scanned>, groups: map<string, set<string>>) returns (at: seq<nat>)
    ensures Picks(files, groups, at)
  {
    at := [];
    if files != [] {
      at := UngroupedPicks(files[..|files| - 1], groups);
      if !Rejects(groups, files[|files| - 1].path.text) { at := at + [|files| - 1]; }
    }
  }

  lemma UngroupedAreApart(files: seq<Scanned>, collisionKey: string -> string, groups: map<string, set<string>>)
    requires Paths.Grouped(Paths.Buckets(PathTexts(files), collisionKey),
                           Paths.KeyOrder(PathTexts(files), collisionKey), groups)
    ensures !Paths.SomeConflict(PathTexts(Ungrouped(files, groups)), collisionKey)
  {
    var safe := Ungrouped(files, groups);
    var at := UngroupedPicks(files, groups);
    forall a, b | 0 <= a < b < |safe|
      ensures !Paths.PortablePathsConflict(PathTexts(safe)[a], PathTexts(safe)[b], collisionKey)
    {
      if Paths.PortablePathsConflict(PathTexts(safe)[a], PathTexts(safe)[b], collisionKey) {
        Paths.ConflictIsReported(PathTexts(files), collisionKey, groups, at[a], at[b]);
      }
    }
  }

  lemma NoConflictMeansDistinct(safe: seq<Scanned>, collisionKey: string -> string)
    requires !Paths.SomeConflict(PathTexts(safe), collisionKey)
    ensures DistinctPaths(safe)
  {
    forall i, j | 0 <= i < j < |safe| ensures safe[i].path != safe[j].path {
      assert !Paths.PortablePathsConflict(PathTexts(safe)[i], PathTexts(safe)[j], collisionKey);
    }
  }

  // ----- pending operations

  /** The last operation of each object. */
  function ByObject(ops: seq<Operation>): map<Id, Operation> {
    if ops == [] then map[]
    else ByObject(ops[..|ops| - 1])[ops[|ops| - 1].objectId := ops[|ops| - 1]]
  }

  lemma {:induction false} ByObjectMembers(ops: seq<Operation>)
    ensures forall id :: id in ByObject(ops) ==> ByObject(ops)[id].objectId == id && ByObject(ops)[id] in ops
    ensures forall op :: op in ops ==> op.objectId in ByObject(ops)
    decreases |ops|
  {
    if ops != [] {
      ByObjectMembers(ops[..|ops| - 1]);
      assert ops == ops[..|ops| - 1] + [ops[|ops| - 1]];
    }
  }

  ghost predicate HasObject(ops: seq<Operation>, id: Id) {
    exists op :: op in ops && op.objectId == id
  }

  /** Sorted by object; a scanned operation replaces every pending one on its object. */
  ghost predicate Merged(pending: seq<Operation>, scanned: seq<Operation>, result: seq<Operation>) {
    && (forall i, j :: 0 <= i < j < |result| ==> result[i].objectId < result[j].objectId)
    && (forall op :: op in scanned ==> op in result)
    && (forall op :: op in result ==> op in scanned || (op in pending && !HasObject(scanned, op.objectId)))
    && (forall op :: op in pending ==> HasObject(result, op.objectId))
  }

  lemma ByObjectSnoc(ops: seq<Operation>, op: Operation)
    ensures ByObject(ops + [op]) == ByObject(ops)[op.objectId := op]
  {}

  lemma {:induction false} ScannedWinsAt(pending: seq<Operation>, scanned: seq<Operation>, id: Id)
    requires OneOperationPerObject(scanned)
    ensures var next := ByObject(pending + scanned);
            && (forall op :: op in scanned && op.objectId == id ==> id in next && next[id] == op)
            && (id in next ==> next[id] in scanned || (next[id] in pending && !HasObject(scanned, id)))
    decreases |scanned|
  {
    if scanned == [] {
      assert pending + scanned == pending;
      ByObjectMembers(pending);
    } else {
      var init, last := scanned[..|scanned| - 1], scanned[|scanned| - 1];
      assert scanned == init + [last] && pending + scanned == pending + init + [last];
      ByObjectSnoc(pending + init, last);
      if id == last.objectId {
        forall op | op in scanned && op.objectId == id ensures op == last {
          var k :| 0 <= k < |scanned| && scanned[k] == op;
        }
      } else {
        ScannedWinsAt(pending, init, id);
      }
    }
  }

  lemma ScannedWins(pending: seq<Operation>, scanned: seq<Operation>)
    requires OneOperationPerObject(scanned)
    ensures forall op :: op in scanned ==>
              op.objectId in ByObject(pending + scanned) && ByObject(pending + scanned)[op.objectId] == op
    ensures var next := ByObject(pending + scanned);
            forall id :: id in next ==> next[id] in scanned || (next[id] in pending && !HasObject(scanned, id))
  {
    forall id { ScannedWinsAt(pending, scanned, id); }
  }

  lemma ListingOfOperations(next: map<Id, Operation>, ids: seq<Id>, result: seq<Operation>)
    requires Lists(ids, next.Keys) && |result| == |ids|
    requires forall id :: id in next ==> next[id].objectId == id
    requires forall k :: 0 <= k < |ids| ==> ids[k] in next && result[k] == next[ids[k]]
    ensures Sorted(next, result)
  {}

  method IndexByObject(pending: seq<Operation>, scanned: seq<Operation>) returns (next: map<Id, Operation>)
    ensures next == ByObject(pending + scanned)
  {
    next := ByObject(pending);
    ghost var ops := pending;
    for i := 0 to |scanned|
      invariant next == ByObject(ops) && ops == pending + scanned[..i]
    {
      ByObjectSnoc(ops, scanned[i]);
      next := next[scanned[i].objectId := scanned[i]];
      ops := ops + [scanned[i]];
    }
    assert scanned[..|scanned|] == scanned;
  }

  method MergeWithPending(pending: seq<Operation>, scanned: seq<Operation>) returns (result: seq<Operation>)
    requires OneOperationPerObject(scanned)
    ensures Merged(pending, scanned, result)
  {
    var next := IndexByObject(pending, scanned);
    ByObjectMembers(pending + scanned);
    result := ListByObject(next);
    ScannedWins(pending, scanned);
    MergedFromMap(pending, scanned, result);
  }

  lemma MergedFromMap(pending: seq<Operation>, scanned: seq<Operation>, result: seq<Operation>)
    requires Sorted(ByObject(pending + scanned), result)
    requires forall op :: op in scanned ==>
               op.objectId in ByObject(pending + scanned) && ByObject(pending + scanned)[op.objectId] == op
    requires var next := ByObject(pending + scanned);
             forall id :: id in next ==> next[id] in scanned || (next[id] in pending && !HasObject(scanned, id))
    ensures Merged(pending, scanned, result)
  {
    var next := ByObject(pending + scanned);
    ByObjectMembers(pending + scanned);
    forall op | op in pending ensures HasObject(result, op.objectId) {
      assert op in pending + scanned;
      assert next[op.objectId] in result;
    }
    forall op | op in scanned ensures op in result {
      assert op in pending + scanned;
    }
  }

  /** The values of the map, sorted by object. */
  ghost predicate Sorted(next: map<Id, Operation>, result: seq<Operation>) {
    && (forall i, j :: 0 <= i < j < |result| ==> result[i].objectId < result[j].objectId)
    && (forall op :: op in result <==> op.objectId in next && next[op.objectId] == op)
  }

  method ListByObject(next: map<Id, Operation>) returns (result: seq<Operation>)
    requires forall id :: id in next ==> next[id].objectId == id
    ensures Sorted(next, result)
  {
    var ids := SelectSorted(next.Keys);
    forall id | id in ids ensures id in next { assert id in ToSet(ids); }
    result := seq(|ids|, i requires 0 <= i < |ids| => next[ids[i]]);
    ListingOfOperations(next, ids, result);
  }

  lemma MergedIsOrdered(pending: seq<Operation>, scanned: seq<Operation>, result: seq<Operation>)
    requires Merged(pending, scanned, result)
    ensures OneOperationPerObject(result)
  {}

  /** `Diff` looks only at the set of operations, once each object has one. */
  lemma DiffOfSameOperations(records: Records, files: Files, ops: seq<Operation>, result: seq<Operation>,
                             deletions: bool)
    requires Diff(records, files, ops, deletions) && OneOperationPerObject(result)
    requires forall op :: op in result <==> op in ops
    ensures Diff(records, files, result, deletions)
  {
    forall i, j, p | 0 <= i < j < |result| && Touches(result[i], p) ensures !Touches(result[j], p) {
      assert result[i] in ops && result[j] in ops;
      var a :| 0 <= a < |ops| && ops[a] == result[i];
      var b :| 0 <= b < |ops| && ops[b] == result[j];
      assert a < b || b < a;
      assert Touches(ops[a], p);
    }
    forall p | Covered(ops, p) ensures Covered(result, p) {
      var op :| op in ops && Touches(op, p);
      assert op in result;
    }
  }

  // ----- left-over pending operations

  /** The object is recorded, and the files call for an operation on its record. */
  ghost predicate StillDiffers(records: Records, files: Files, deletions: bool, id: Id) {
    exists p :: p in records && records[p].objectId == id && RecordDiffers(records, files, deletions, p)
  }

  ghost predicate RecordDiffers(records: Records, files: Files, deletions: bool, p: Path)
    requires p in records
  {
    if p in files then records[p].hash != files[p] else deletions || exists f :: RenamePair(records, files, p, f)
  }

  lemma DifferingRecordIsScanned(records: Records, files: Files, scanned: seq<Operation>, deletions: bool, p: Path)
    requires Diff(records, files, scanned, deletions) && p in records && RecordDiffers(records, files, deletions, p)
    ensures HasObject(scanned, records[p].objectId)
  {}

  lemma RevisionIsOfDifferingRecord(records: Records, files: Files, deletions: bool, op: Operation)
    requires Called(records, files, op) && !op.kind.Create? && (op.kind.Delete? ==> deletions)
    ensures StillDiffers(records, files, deletions, op.objectId)
  {}

  /** An operation that was not rescanned cannot be part of the difference: it is not called for, or a
      rescanned creation has its path. */
  lemma LeftoverIsOutOfPlace(records: Records, files: Files, scanned: seq<Operation>, result: seq<Operation>,
                             deletions: bool, op: Operation)
    requires Diff(records, files, scanned, deletions)
    requires OneOperationPerObject(result) && forall x :: x in scanned ==> x in result
    requires op in result && !HasObject(scanned, op.objectId)
    ensures !Diff(records, files, result, deletions)
  {
    if Called(records, files, op) && (op.kind.Delete? ==> deletions) {
      if op.kind.Create? {
        assert Covered(scanned, op.path);
        var x :| x in scanned && Touches(x, op.path);
        var i :| 0 <= i < |result| && result[i] == op;
        var j :| 0 <= j < |result| && result[j] == x;
        assert Touches(result[i], op.path) && Touches(result[j], op.path);
        assert i < j || j < i;
      } else {
        RevisionIsOfDifferingRecord(records, files, deletions, op);
        var p :| p in records && records[p].objectId == op.objectId && RecordDiffers(records, files, deletions, p);
        DifferingRecordIsScanned(records, files, scanned, deletions, p);
        assert false;
      }
    }
  }

  /** The merged list is again the exact difference if and only if every pending operation is on a recorded
      object that still differs.  A left-over creation never is: its object has no record. */
  lemma MergedDiffExactly(records: Records, files: Files, pending: seq<Operation>, scanned: seq<Operation>,
                          result: seq<Operation>, deletions: bool)
    requires Diff(records, files, scanned, deletions) && Merged(pending, scanned, result)
    requires forall op, x :: op in scanned && op.kind.Create? && x in pending ==> op.objectId != x.objectId
    ensures Diff(records, files, result, deletions) <==>
            forall op :: op in pending ==> StillDiffers(records, files, deletions, op.objectId)
  {
    MergedIsOrdered(pending, scanned, result);
    if forall op :: op in pending ==> StillDiffers(records, files, deletions, op.objectId) {
      forall op | op in pending ensures HasObject(scanned, op.objectId) {
        var p :| p in records && records[p].objectId == op.objectId && RecordDiffers(records, files, deletions, p);
        DifferingRecordIsScanned(records, files, scanned, deletions, p);
      }
      DiffOfSameOperations(records, files, scanned, result, deletions);
    }
    if Diff(records, files, result, deletions) {
      forall op | op in pending ensures StillDiffers(records, files, deletions, op.objectId) {
        var y :| y in result && y.objectId == op.objectId;
        if !HasObject(scanned, op.objectId) {
          LeftoverIsOutOfPlace(records, files, scanned, result, deletions, y);
        } else {
          var x :| x in scanned && x.objectId == op.objectId;
          RevisionIsOfDifferingRecord(records, files, deletions, x);
        }
      }
    }
  }

  /** The identifiers that staged ciphertexts are filed under. */
  function Numbers(ops: seq<Operation>): set<Id> {
    set op | op in ops :: op.operationId
  }

  /** Pending operations: one for each object, each with its own number from before the scan. */
  ghost predicate NumberedBefore(pending: seq<Operation>, before: set<Id>) {
    && OneOperationPerObject(pending)
    && (forall op :: op in pending ==> op.operationId in before)
    && forall i, j :: 0 <= i < j < |pending| ==> pending[i].operationId != pending[j].operationId
  }

  lemma SameObjectSameOperation(pending: seq<Operation>, before: set<Id>, a: Operation, b: Operation)
    requires NumberedBefore(pending, before) && a in pending && b in pending
    requires a.objectId == b.objectId || a.operationId == b.operationId
    ensures a == b
  {
    var i :| 0 <= i < |pending| && pending[i] == a;
    var j :| 0 <= j < |pending| && pending[j] == b;
    assert i == j;
  }

  /** The merged list is again numbered. */
  lemma MergedIsNumbered(pending: seq<Operation>, scanned: seq<Operation>, result: seq<Operation>, before: set<Id>,
                         now: set<Id>)
    requires Merged(pending, scanned, result) && NewlyNumbered(scanned, before, now) && NumberedBefore(pending, before)
    ensures NumberedBefore(result, now)
  {
    MergedIsOrdered(pending, scanned, result);
    forall i, j | 0 <= i < j < |result| ensures result[i].operationId != result[j].operationId {
      var a, b := result[i], result[j];
      assert a in result && b in result && a.objectId != b.objectId;
      if a.operationId == b.operationId { SameNumberSameOperation(pending, scanned, before, now, a, b); }
    }
  }

  lemma SameNumberSameOperation(pending: seq<Operation>, scanned: seq<Operation>, before: set<Id>, now: set<Id>,
                                a: Operation, b: Operation)
    requires NewlyNumbered(scanned, before, now) && NumberedBefore(pending, before)
    requires (a in scanned || a in pending) && (b in scanned || b in pending) && a.operationId == b.operationId
    ensures a == b
  {
    if a in scanned {
      var i :| 0 <= i < |scanned| && scanned[i] == a;
      var j :| 0 <= j < |scanned| && scanned[j] == b;
      assert i == j;
    } else {
      SameObjectSameOperation(pending, before, a, b);
    }
  }

  lemma ScannedExactly(records: Records, files: Files, pending: seq<Operation>, scanned: seq<Operation>,
                       deletions: bool, op: Operation)
    requires Diff(records, files, scanned, deletions) && op in pending
    requires forall x, y :: x in scanned && x.kind.Create? && y in pending ==> x.objectId != y.objectId
    ensures HasObject(scanned, op.objectId) <==> StillDiffers(records, files, deletions, op.objectId)
  {
    if x :| x in scanned && x.objectId == op.objectId {
      RevisionIsOfDifferingRecord(records, files, deletions, x);
    }
    if p :| p in records && records[p].objectId == op.objectId && RecordDiffers(records, files, deletions, p) {
      DifferingRecordIsScanned(records, files, scanned, deletions, p);
    }
  }

  /** A pending operation keeps its number through a scan exactly when its object no longer differs, that is, when the
      scan does not call for it: whatever must still be published is numbered anew. */
  lemma NumberSurvivesExactly(records: Records, files: Files, pending: seq<Operation>, scanned: seq<Operation>,
                              result: seq<Operation>, deletions: bool, before: set<Id>, now: set<Id>, op: Operation)
    requires Diff(records, files, scanned, deletions) && Merged(pending, scanned, result)
    requires NewlyNumbered(scanned, before, now) && NumberedBefore(pending, before) && op in pending
    requires forall x, y :: x in scanned && x.kind.Create? && y in pending ==> x.objectId != y.objectId
    ensures op.operationId in Numbers(result) <==> !StillDiffers(records, files, deletions, op.objectId)
  {
    ScannedExactly(records, files, pending, scanned, deletions, op);
    if op.operationId in Numbers(result) {
      var r :| r in result && r.operationId == op.operationId;
      SameObjectSameOperation(pending, before, op, if r in pending then r else op);
    }
    if !HasObject(scanned, op.objectId) {
      var y :| y in result && y.objectId == op.objectId;
      SameObjectSameOperation(pending, before, op, y);
    }
  }

  /** A creation still pending when its file is scanned again gets a second creation of the same path. */
  lemma RescannedCreationIsDoubled(path: Path, hash: Id, first: Operation, second: Operation, result: seq<Operation>)
    requires first == CreateOperation(first.operationId, first.objectId, path, hash)
    requires second == CreateOperation(second.operationId, second.objectId, path, hash)
    requires first.objectId != second.objectId && Merged([first], [second], result)
    ensures Diff(map[], map[path := hash], [second], true)
    ensures first in result && second in result
    ensures !Diff(map[], map[path := hash], result, true)
  {}

  // ----- the whole scan

  /** The active records by path. */
  function Active(records: seq<Record>): (active: Records)
    ensures Filed(active)
  {
    if records == [] then map[]
    else
      var last := records[|records| - 1];
      if last.tombstone then Active(records[..|records| - 1]) else Active(records[..|records| - 1])[last.path := last]
  }

  /** Record `i` is alive at the path. */
  ghost predicate LiveAt(records: seq<Record>, i: nat, p: Path) {
    i < |records| && !records[i].tombstone && records[i].path == p
  }

  ghost predicate LastLive(records: seq<Record>, i: nat, p: Path) {
    LiveAt(records, i, p) && forall j: nat :: i < j ==> !LiveAt(records, j, p)
  }

  /** The records that are no tombstones, by path; the last one where several have a path. */
  ghost predicate IsActive(records: seq<Record>, active: Records) {
    && (forall p :: p in active <==> exists i: nat :: LiveAt(records, i, p))
    && (forall i: nat, p :: LastLive(records, i, p) ==> p in active && active[p] == records[i])
  }

  lemma {:induction false} ActiveIsActive(records: seq<Record>)
    ensures IsActive(records, Active(records))
  {
    if records != [] {
      var n := |records| - 1;
      var init, last := records[..n], records[n];
      ActiveIsActive(init);
      forall i: nat, p ensures LiveAt(records, i, p) <==> LiveAt(init, i, p) || (i == n && LiveAt(records, n, p)) {}
      forall p ensures p in Active(records) <==> exists i: nat :: LiveAt(records, i, p) {
        if i: nat :| LiveAt(init, i, p) { assert LiveAt(records, i, p); }
        assert LiveAt(records, n, p) <==> !last.tombstone && last.path == p;
      }
      forall i: nat, p | LastLive(records, i, p) ensures p in Active(records) && Active(records)[p] == records[i] {
        assert LiveAt(records, n, p) ==> i == n;
        if i < n {
          forall j: nat | i < j ensures !LiveAt(init, j, p) { assert !LiveAt(records, j, p); }
          assert LastLive(init, i, p);
        }
      }
    }
  }

  lemma {:induction false} LastOfLive(records: seq<Record>, p: Path, i: nat) returns (last: nat)
    requires LiveAt(records, i, p)
    ensures LastLive(records, last, p)
    decreases |records| - i
  {
    last := i;
    if j: nat :| i < j && LiveAt(records, j, p) { last := LastOfLive(records, p, j); }
  }

  lemma OneActive(records: seq<Record>, a: Records, b: Records)
    requires IsActive(records, a) && IsActive(records, b)
    ensures a == b
  {
    forall p | p in a ensures p in b && a[p] == b[p] {
      var i: nat :| LiveAt(records, i, p);
      var last := LastOfLive(records, p, i);
    }
    forall p | p in b ensures p in a {}
  }

  /** Identifiers of records and pending operations are in use. */
  ghost predicate IdsInUse(active: Records, pending: seq<Operation>, used: set<Id>, operations: set<Id>) {
    && IdsAccounted([], active, used) && NumberedBefore(pending, operations)
    && forall op :: op in pending ==> op.objectId in used
  }

  /** `Reconciler.scan`: the live records by path and the listed files, reconciled, or an issue for each file that is
      unreadable, invalid or in the way of another. */
  method Scan(listed: seq<Listed>, records: seq<Record>, pending: seq<Operation>, initializedFromRemote: bool,
              collisionKey: string -> string, ids: IdSource)
    returns (operations: seq<Operation>, issues: seq<Issue>)
    requires ids.Valid() && IdsInUse(Active(records), pending, ids.used, ids.operations)
    modifies ids
    ensures ids.Valid() && OneOperationPerObject(operations)
    ensures NumberedBefore(operations, ids.operations) && forall op :: op in operations ==> op.objectId in ids.used
    ensures issues == [] <==>
            && (forall file :: file in listed ==> file.path.Some? && file.hash.Some?)
            && !ListedConflict(listed, collisionKey)
    ensures issues == [] ==>
              forall active: Records, files: Files | IsActive(records, active) && IsListing(listed, files) ::
                Reconciled(active, files, pending, operations, initializedFromRemote)
  {
    ListedConflictExactly(listed, collisionKey);
    var scanned, safe;
    scanned, issues := ScanFiles(listed);
    ghost var groups;
    safe, issues, groups := RejectCollisions(scanned, collisionKey, issues);
    NoConflictMeansDistinct(safe, collisionKey);
    var active := Active(records);
    var ops := DiffRecords(active, safe, initializedFromRemote, ids);
    operations := MergeWithPending(pending, ops);
    MergedIsNumbered(pending, ops, operations, old(ids.operations), ids.operations);
    MergedDiffExactly(active, FilesOf(safe), pending, ops, operations, initializedFromRemote);
    forall op | op in pending
      ensures op.operationId in Numbers(operations) <==>
                !StillDiffers(active, FilesOf(safe), initializedFromRemote, op.objectId)
    {
      NumberSurvivesExactly(active, FilesOf(safe), pending, ops, operations, initializedFromRemote, old(ids.operations),
                            ids.operations, op);
    }
    if issues == [] {
      if pending == [] && initializedFromRemote { DiffApplies(active, FilesOf(safe), operations); }
      OnlyThese(listed, records);
    }
  }

  /** There is just one map of the records and one of the files. */
  lemma OnlyThese(listed: seq<Listed>, records: seq<Record>)
    requires DistinctPaths(Readable(listed))
    ensures forall a: Records, f: Files ::
              IsActive(records, a) && IsListing(listed, f) ==> a == Active(records) && f == FilesOf(Readable(listed))
  {
    ActiveIsActive(records);
    ReadableIsListing(listed);
    forall a: Records, f: Files | IsActive(records, a) && IsListing(listed, f)
      ensures a == Active(records) && f == FilesOf(Readable(listed))
    {
      OneActive(records, a, Active(records));
      OneListing(listed, f, FilesOf(Readable(listed)));
    }
  }

  /** The operations are the exact difference between the records and the files if and only if every pending operation
      is on a record that still differs; just the other pending ones keep their numbers; and without pending ones
      applying the operations to the records' paths and contents gives the files. */
  ghost predicate Reconciled(active: Records, files: Files, pending: seq<Operation>, operations: seq<Operation>,
                             deletions: bool)
  {
    && (Diff(active, files, operations, deletions) <==>
        forall op :: op in pending ==> StillDiffers(active, files, deletions, op.objectId))
    && (forall op :: op in pending ==>
          (op.operationId in Numbers(operations) <==> !StillDiffers(active, files, deletions, op.objectId)))
    && (pending == [] && deletions ==> ApplyAll(map p | p in active :: active[p].hash, operations) == files)
  }
}
