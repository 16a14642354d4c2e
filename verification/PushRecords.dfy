/** The records, manifest and signed commit of one push (plugin/src/sync/engine.ts): everything a push builds is
    valid for the encoders, so only a limit can stop it: on records, on the encrypted body, or on parents. */
module PushRecords {
  import opened Basics
  import opened BlobStore
  import opened Stage
  import R = Reconcile
  import M = Manifest
  import Body = BodyCodec
  import C = CommitRecord
  import L = EncodingLimits
  import Cbor

  /** The record of one object; `text` tells content (type 1) from attachments (type 5). */
  datatype SyncRecord = SyncRecord(
    objectId: Id,
    path: R.Path,
    revision: nat,
    text: bool,
    hash: Id,
    encryptedPathBlobId: Option<Digest>,
    contentBlobId: Option<Digest>,
    metadataBlobId: Option<Digest>,
    lastCommitId: Option<Id>,
    tombstone: bool)

  datatype PrepareError = NoEncryptedPath | FileChanged | UploadFailed | RecordMissing | MissingObject | TooLarge

  /** What one operation meets outside the state: the file's canonical hash and type as read now, the two newly
      encrypted objects, and whether each upload succeeds. */
  datatype Surroundings = Surroundings(hash: Option<Id>, text: bool, newPath: Bytes, newContent: Bytes, pathSent: bool,
                                       contentSent: bool)

  predicate PathChanges(kind: R.Kind) { kind.Create? || kind.Rename? }

  predicate ContentChanges(kind: R.Kind) { kind.Create? || kind.Modify? || kind.Merge? }

  /** A record the manifest accepts: revised, with a path, and with content exactly when it is alive. */
  predicate Publishable(record: SyncRecord) {
    record.revision > 0 && record.encryptedPathBlobId.Some? && (record.tombstone <==> record.contentBlobId.None?)
  }

  function OperationKeys(operationId: Id): set<Key> {
    {PathKey(operationId), ContentKey(operationId)}
  }

  /** When an operation can be prepared: the file still is what was scanned, the record has what is not encrypted
      anew, and the uploads succeed. */
  ghost predicate Preparable(op: R.Operation, existing: Option<SyncRecord>, around: Surroundings) {
    && (op.kind.Delete? || (around.hash.Some? && around.hash == op.hash))
    && match op.kind
       case Create => around.pathSent && around.contentSent
       case Rename => around.pathSent && existing.Some? && existing.value.contentBlobId.Some?
       case Delete => existing.Some? && existing.value.encryptedPathBlobId.Some?
       case _ => around.contentSent && existing.Some? && existing.value.encryptedPathBlobId.Some?
  }

  /** What the operation makes of the record: its path and revision are the operation's; a rename keeps the content, a
      modification the encrypted path, and a deletion both the path and the hash. */
  ghost predicate Reflects(r: SyncRecord, op: R.Operation, existing: Option<SyncRecord>, around: Surroundings) {
    && r.objectId == op.objectId && r.path == op.path && r.revision == op.revision && (r.tombstone <==> op.kind.Delete?)
    && (existing.Some? ==> r.metadataBlobId == existing.value.metadataBlobId
                             && r.lastCommitId == existing.value.lastCommitId)
    && (existing.None? ==> r.metadataBlobId.None? && r.lastCommitId.None?)
    && (op.kind.Delete? ==> r.contentBlobId.None? && existing.Some? && r.hash == existing.value.hash)
    && (!op.kind.Delete? ==> Some(r.hash) == around.hash == op.hash)
    && (op.kind.Rename? ==> existing.Some? && r.contentBlobId == existing.value.contentBlobId)
    && (op.kind.Rename? || op.kind.Delete? ==> existing.Some? && r.text == existing.value.text)
    && (op.kind.Create? || op.kind.Modify? || op.kind.Merge? ==> r.text == around.text)
    && (op.kind.Modify? || op.kind.Merge? || op.kind.Delete? ==>
          existing.Some? && r.encryptedPathBlobId == existing.value.encryptedPathBlobId)
  }

  /** `prepareOperation`: the record that results, published under its staged ciphertexts.  Whether it fails or not,
      every ciphertext staged before stays. */
  method PrepareOperation(staging: Staging, op: R.Operation, existing: Option<SyncRecord>, around: Surroundings)
    returns (r: Result<SyncRecord, PrepareError>)
    requires Keyed(staging.cache) && op.revision > 0
    requires existing.Some? ==> existing.value.objectId == op.objectId
    modifies staging
    ensures Keyed(staging.cache)
    ensures r.Ok? <==> Preparable(op, existing, around)
    ensures r.Ok? ==> Publishable(r.value) && Reflects(r.value, op, existing, around)
    ensures r.Ok? && (op.kind.Create? || op.kind.Rename?) ==>
              && PathKey(op.operationId) in staging.staged
              && r.value.encryptedPathBlobId == Some(staging.staged[PathKey(op.operationId)])
              && staging.staged[PathKey(op.operationId)] in staging.cache
    ensures r.Ok? && (op.kind.Create? || op.kind.Modify? || op.kind.Merge?) ==>
              && ContentKey(op.operationId) in staging.staged
              && r.value.contentBlobId == Some(staging.staged[ContentKey(op.operationId)])
              && staging.staged[ContentKey(op.operationId)] in staging.cache
    ensures Retains(old(staging.View()), staging.View())
    ensures staging.staged.Keys <= old(staging.staged.Keys) + OperationKeys(op.operationId)
  {
    if op.kind.Delete? {
      if existing.None? || existing.value.encryptedPathBlobId.None? { return Err(NoEncryptedPath); }
      return Ok(existing.value.(path := op.path, revision := op.revision, contentBlobId := None, tombstone := true));
    }
    if around.hash.None? || around.hash != op.hash { return Err(FileChanged); }
    var encryptedPathBlobId := if existing.Some? then existing.value.encryptedPathBlobId else None;
    if PathChanges(op.kind) {
      var ciphertext := staging.PutStaged(PathKey(op.operationId), around.newPath);
      if !around.pathSent { return Err(UploadFailed); }
      encryptedPathBlobId := Some(Of(ciphertext));
    }
    if op.kind.Rename? && existing.None? { return Err(RecordMissing); }
    var text := if op.kind.Rename? then existing.value.text else around.text;
    var contentBlobId := if existing.Some? then existing.value.contentBlobId else None;
    if ContentChanges(op.kind) {
      var ciphertext := staging.PutStaged(ContentKey(op.operationId), around.newContent);
      if !around.contentSent { return Err(UploadFailed); }
      contentBlobId := Some(Of(ciphertext));
    }
    if encryptedPathBlobId.None? || contentBlobId.None? { return Err(MissingObject); }
    r := Ok(SyncRecord(op.objectId, op.path, op.revision, text, around.hash.value, encryptedPathBlobId, contentBlobId,
                       if existing.Some? then existing.value.metadataBlobId else None,
                       if existing.Some? then existing.value.lastCommitId else None, false));
  }

  // ----- the manifest and the body

  /** How objects, commits and digests are written. */
  datatype Spelling = Spelling(id: Id -> M.Bytes16, commit: Id -> M.Bytes32, blob: Digest -> M.Bytes32)

  /** On these objects the written order is that of the numbers. */
  ghost predicate KeepsOrder(spelling: Spelling, objects: set<Id>) {
    forall a: Id, b: Id :: a in objects && b in objects && a < b ==> M.Less(spelling.id(a), spelling.id(b))
  }

  ghost predicate CommitsKeepOrder(spelling: Spelling, commits: set<Id>) {
    forall a: Id, b: Id :: a in commits && b in commits && a < b ==> M.Less(spelling.commit(a), spelling.commit(b))
  }

  /** The entry says of the record what a manifest says: objects are content exactly when they are text. */
  ghost predicate Describes(entry: M.ManifestEntry, spelling: Spelling, record: SyncRecord, hash: Id -> M.Bytes32) {
    && entry.objectId == spelling.id(record.objectId) && entry.revision == record.revision
    && (entry.objectType.Content? <==> record.text) && (entry.objectType.Attachment? <==> !record.text)
    && (forall path :: record.encryptedPathBlobId == Some(path) ==> entry.encryptedPathBlobId == spelling.blob(path))
    && (record.contentBlobId.None? <==> entry.contentBlobId.None?)
    && (forall content :: record.contentBlobId == Some(content) ==> entry.contentBlobId == Some(spelling.blob(content)))
    && (record.metadataBlobId.None? <==> entry.metadataBlobId.None?)
    && (forall other :: record.metadataBlobId == Some(other) ==> entry.metadataBlobId == Some(spelling.blob(other)))
    && entry.canonicalPlaintextHash == hash(record.hash) && (entry.tombstone <==> record.tombstone)
  }

  ghost predicate IsDescribed(m: M.Manifest, spelling: Spelling, record: SyncRecord, hash: Id -> M.Bytes32) {
    exists entry :: entry in m.entries && Describes(entry, spelling, record, hash)
  }

  function EntryOf(spelling: Spelling, record: SyncRecord, hash: Id -> M.Bytes32): (entry: M.ManifestEntry)
    requires Publishable(record) && record.revision <= U64_MAX
    ensures Describes(entry, spelling, record, hash)
  {
    M.ManifestEntry(
      spelling.id(record.objectId), record.revision, if record.text then M.Content else M.Attachment,
      spelling.blob(record.encryptedPathBlobId.value),
      if record.contentBlobId.Some? then Some(spelling.blob(record.contentBlobId.value)) else None,
      if record.metadataBlobId.Some? then Some(spelling.blob(record.metadataBlobId.value)) else None,
      hash(record.hash), record.tombstone)
  }

  type Records = map<Id, SyncRecord>

  /** Records filed under their own identifier, all of them publishable, below 2^64 revisions. */
  ghost predicate AllPublishable(records: Records) {
    forall id :: id in records ==>
        records[id].objectId == id && Publishable(records[id]) && records[id].revision <= U64_MAX
  }

  /** The entries of the listed records. */
  ghost predicate EntriesFor(entries: seq<M.ManifestEntry>, ids: seq<Id>, records: Records, spelling: Spelling,
                             hash: Id -> M.Bytes32)
    requires AllPublishable(records)
  {
    && |entries| == |ids|
    && forall i :: 0 <= i < |ids| ==> ids[i] in records && entries[i] == EntryOf(spelling, records[ids[i]], hash)
  }

  lemma EntriesAreValid(m: M.Manifest, ids: seq<Id>, records: Records, spelling: Spelling, hash: Id -> M.Bytes32)
    requires AllPublishable(records) && KeepsOrder(spelling, ToSet(ids)) && StrictlyIncreasing(ids)
    requires EntriesFor(m.entries, ids, records, spelling, hash) && |ids| <= M.MAX_MANIFEST_ENTRIES
    ensures M.ValidManifest(m)
  {
    forall i | 0 <= i < |m.entries| - 1 ensures M.Less(m.entries[i].objectId, m.entries[i + 1].objectId) {
      assert ids[i] in ToSet(ids) && ids[i + 1] in ToSet(ids) && ids[i] < ids[i + 1];
    }
  }

  lemma EveryRecordHasAnEntry(entries: seq<M.ManifestEntry>, ids: seq<Id>, records: Records, spelling: Spelling,
                              hash: Id -> M.Bytes32)
    requires AllPublishable(records) && Lists(ids, records.Keys) && EntriesFor(entries, ids, records, spelling, hash)
    ensures |entries| == |records|
    ensures forall id :: id in records ==> EntryOf(spelling, records[id], hash) in entries
  {
    DistinctLength(ids);
    assert |records.Keys| == |records|;
    forall id | id in records ensures EntryOf(spelling, records[id], hash) in entries {
      assert id in ToSet(ids);
      var i :| 0 <= i < |ids| && ids[i] == id;
      assert entries[i] == EntryOf(spelling, records[id], hash);
    }
  }

  /** `manifestInput`, entries sorted by identifier: one for each record, and valid exactly up to the entry limit. */
  method ManifestInput(vaultId: M.Bytes16, records: Records, spelling: Spelling, hash: Id -> M.Bytes32)
    returns (m: M.Manifest)
    requires AllPublishable(records) && KeepsOrder(spelling, records.Keys)
    ensures |m.entries| == |records| && m.vaultId == vaultId
    ensures forall id :: id in records ==> IsDescribed(m, spelling, records[id], hash)
    ensures M.ValidManifest(m) <==> |records| <= M.MAX_MANIFEST_ENTRIES
  {
    var ids := SelectSorted(records.Keys);
    forall i | 0 <= i < |ids| ensures ids[i] in records { assert ids[i] in ToSet(ids); }
    m := M.Manifest(vaultId, seq(|ids|, i requires 0 <= i < |ids| => EntryOf(spelling, records[ids[i]], hash)));
    EveryRecordHasAnEntry(m.entries, ids, records, spelling, hash);
    forall id | id in records ensures IsDescribed(m, spelling, records[id], hash) {
      assert EntryOf(spelling, records[id], hash) in m.entries;
    }
    if |ids| <= M.MAX_MANIFEST_ENTRIES { EntriesAreValid(m, ids, records, spelling, hash); }
  }

  function KindOf(kind: R.Kind): (k: M.OperationKind)
    ensures (k.Create? <==> kind.Create?) && (k.Modify? <==> kind.Modify?) && (k.Rename? <==> kind.Rename?)
    ensures (k.DeleteTombstone? <==> kind.Delete?) && (k.Merge? <==> kind.Merge?)
  {
    match kind
    case Create => M.Create case Modify => M.Modify case Rename => M.Rename
    case Delete => M.DeleteTombstone case Merge => M.Merge
  }

  /** The operation as the reconciler makes it: a creation starts at revision one, the others follow a revision. */
  predicate WellBased(change: R.Operation) {
    change.revision == change.baseRevision + 1 && change.revision <= U64_MAX
        && (change.kind.Create? <==> change.baseRevision == 0)
  }

  /** What the reconciler calls for is well based: only creations start without a recorded revision. */
  lemma ReconciledIsWellBased(records: R.Records, files: R.Files, op: R.Operation)
    requires R.Called(records, files, op) && op.revision <= U64_MAX
    requires forall p :: p in records ==> records[p].revision > 0
    ensures WellBased(op)
  {}

  /** The operation says of the change what a body says: which object changes how from which revision, the encrypted
      path when it is new, and the content when that is. */
  ghost predicate Carries(op: M.Operation, spelling: Spelling, change: R.Operation, record: SyncRecord) {
    && op.objectId == spelling.id(change.objectId)
    && op.baseRevision == change.baseRevision && op.revision == change.revision
    && (match op.kind
        case Create => change.kind.Create? case Modify => change.kind.Modify? case Rename => change.kind.Rename?
        case DeleteTombstone => change.kind.Delete? case Merge => change.kind.Merge?)
    && (if change.kind.Create? || change.kind.Rename?
        then op.encryptedPathBlobId.Some? && record.encryptedPathBlobId.Some?
             && op.encryptedPathBlobId.value == spelling.blob(record.encryptedPathBlobId.value)
        else op.encryptedPathBlobId.None?)
    && (if change.kind.Create? || change.kind.Modify? || change.kind.Merge?
        then op.contentBlobId.Some? && record.contentBlobId.Some?
             && op.contentBlobId.value == spelling.blob(record.contentBlobId.value)
        else op.contentBlobId.None?)
  }

  /** `operationToCommit`. */
  function ToCommit(spelling: Spelling, change: R.Operation, record: SyncRecord): (op: M.Operation)
    requires Publishable(record) && record.tombstone == change.kind.Delete? && WellBased(change)
    ensures M.ValidOperation(op) && Carries(op, spelling, change, record)
  {
    M.Operation(
      KindOf(change.kind), spelling.id(change.objectId), change.baseRevision, change.revision,
      if PathChanges(change.kind) then Some(spelling.blob(record.encryptedPathBlobId.value)) else None,
      if ContentChanges(change.kind) then Some(spelling.blob(record.contentBlobId.value)) else None)
  }

  /** Pending operations sorted by object, one for each, as `mergeWithPending` leaves them, each with its record. */
  ghost predicate AllPrepared(changes: seq<R.Operation>, records: Records) {
    && (forall i :: 0 <= i < |changes| ==>
          && changes[i].objectId in records && WellBased(changes[i])
          && Publishable(records[changes[i].objectId])
          && records[changes[i].objectId].tombstone == changes[i].kind.Delete?)
    && (forall i :: 0 <= i < |changes| - 1 ==> changes[i].objectId < changes[i + 1].objectId)
  }

  ghost predicate CarriesAll(ops: seq<M.Operation>, spelling: Spelling, changes: seq<R.Operation>, records: Records)
    requires AllPrepared(changes, records)
  {
    && |ops| == |changes|
    && forall i :: 0 <= i < |ops| ==> Carries(ops[i], spelling, changes[i], records[changes[i].objectId])
  }

  function CommitOperations(spelling: Spelling, changes: seq<R.Operation>, records: Records): (ops: seq<M.Operation>)
    requires AllPrepared(changes, records)
    ensures CarriesAll(ops, spelling, changes, records)
  {
    seq(|changes|, i requires 0 <= i < |changes| => ToCommit(spelling, changes[i], records[changes[i].objectId]))
  }

  /** The body of a push: one operation for each pending one, no merge base, no conflicts. */
  function PushBody(spelling: Spelling, changes: seq<R.Operation>, records: Records, timestamp: M.U64,
                    root: M.Bytes32, blob: M.Bytes32): (body: M.CommitBody)
    requires AllPrepared(changes, records)
    ensures body.logicalTimestamp == timestamp && CarriesAll(body.operations, spelling, changes, records)
    ensures body.manifestRoot == root && body.manifestBlobId == blob
    ensures body.mergeBase.None? && body.conflictObjects == []
  {
    M.CommitBody(timestamp, CommitOperations(spelling, changes, records), root, blob, None, [])
  }

  /** The body of a push is valid up to the operation limit. */
  lemma PushBodyIsValid(spelling: Spelling, changes: seq<R.Operation>, records: Records, timestamp: M.U64,
                        root: M.Bytes32, blob: M.Bytes32)
    requires AllPrepared(changes, records) && KeepsOrder(spelling, records.Keys) && timestamp > 0
    ensures M.ValidBody(PushBody(spelling, changes, records, timestamp, root, blob)) <==> |changes| <= M.MAX_OPERATIONS
  {
    var operations := CommitOperations(spelling, changes, records);
    forall i | 0 <= i < |operations| - 1 ensures M.KeyLess(operations[i], operations[i + 1]) {
      var a, b := changes[i].objectId, changes[i + 1].objectId;
      assert a < b && a in records.Keys && b in records.Keys;
    }
  }

  /** The length of an integer, or of the head of an array of so many items. */
  function IntegerSize(n: nat): nat {
    if n < 24 then 1 else if n < 0x100 then 2 else if n < 0x1_0000 then 3 else if n < 0x1_0000_0000 then 5 else 9
  }

  /** What one operation takes: the two revisions, and 34 bytes for each new object. */
  function ChangeSize(change: R.Operation): nat {
    19 + IntegerSize(change.baseRevision) + IntegerSize(change.revision)
       + (match change.kind case Create => 68 case Delete => 2 case _ => 35)
  }

  function ChangesSize(changes: seq<R.Operation>): nat {
    if changes == [] then 0 else ChangeSize(changes[0]) + ChangesSize(changes[1..])
  }

  /** How long the encoded body of a push is. */
  function PushSize(changes: seq<R.Operation>, timestamp: nat): nat {
    79 + IntegerSize(timestamp) + IntegerSize(|changes|) + ChangesSize(changes)
  }

  lemma OperationSizeIs(op: M.Operation, spelling: Spelling, change: R.Operation, record: SyncRecord)
    requires Carries(op, spelling, change, record)
    ensures |Cbor.EncodeTokens(Body.OperationTokens(op))| == ChangeSize(change)
  {
    L.SizeOf7(Body.OperationTokens(op));
  }

  lemma {:induction false} OperationsSizeIs(ops: seq<M.Operation>, spelling: Spelling, changes: seq<R.Operation>,
                                            records: Records)
    requires AllPrepared(changes, records) && CarriesAll(ops, spelling, changes, records)
    ensures |Cbor.EncodeTokens(Body.OperationsTokens(ops))| == ChangesSize(changes)
  {
    if ops != [] {
      OperationsSizeIs(ops[1..], spelling, changes[1..], records);
      OperationSizeIs(ops[0], spelling, changes[0], records[changes[0].objectId]);
      Cbor.EncodeConcat(Body.OperationTokens(ops[0]), Body.OperationsTokens(ops[1..]));
    }
  }

  lemma HeaderSizeIs(body: M.CommitBody)
    ensures |Cbor.EncodeTokens(Body.BodyHeader(body))| ==
            5 + IntegerSize(body.logicalTimestamp) + IntegerSize(|body.operations|)
  {
    L.SizeOf7(Body.BodyHeader(body));
  }

  /** How long the encoding is depends on nothing but the operations' kinds and revisions and the clock. */
  lemma SizeIsThat(spelling: Spelling, changes: seq<R.Operation>, records: Records, timestamp: M.U64,
                   root: M.Bytes32, blob: M.Bytes32)
    requires AllPrepared(changes, records)
    ensures |Body.BodyBytes(PushBody(spelling, changes, records, timestamp, root, blob))| ==
            PushSize(changes, timestamp)
  {
    var body := PushBody(spelling, changes, records, timestamp, root, blob);
    Body.BodyInParts(body);
    HeaderSizeIs(body);
    OperationsSizeIs(body.operations, spelling, changes, records);
    L.MiddleSize(body);
    assert Body.ConflictTokens(body.conflictObjects) == [];
  }

  /** The limits a push has to keep: the heads become parents, and the encrypted body is bounded. */
  predicate PushFits(changes: seq<R.Operation>, timestamp: nat, sequence: nat, parents: nat) {
    && timestamp <= U64_MAX && sequence <= U64_MAX && parents <= C.MAX_COMMIT_PARENTS
    && PushSize(changes, timestamp) + C.ENVELOPE_OVERHEAD <= M.MAX_COMMIT_BODY_BYTES
  }

  function Written(spelling: Spelling, parents: seq<Id>): (written: seq<M.Bytes32>)
    ensures |written| == |parents|
  {
    seq<M.Bytes32>(|parents|, i requires 0 <= i < |parents| => spelling.commit(parents[i]))
  }

  lemma PushIsCreatableExactly(spelling: Spelling, changes: seq<R.Operation>, records: Records, timestamp: M.U64,
                               sequence: M.U64, root: M.Bytes32, blob: M.Bytes32, parents: seq<Id>)
    requires AllPrepared(changes, records) && KeepsOrder(spelling, records.Keys)
    requires StrictlyIncreasing(parents) && CommitsKeepOrder(spelling, ToSet(parents))
    requires timestamp > 0 && sequence > 0
    ensures C.Creatable(Written(spelling, parents), sequence,
                        PushBody(spelling, changes, records, timestamp, root, blob)) <==>
              PushFits(changes, timestamp, sequence, |parents|)
  {
    var body := PushBody(spelling, changes, records, timestamp, root, blob);
    SizeIsThat(spelling, changes, records, timestamp, root, blob);
    PushBodyIsValid(spelling, changes, records, timestamp, root, blob);
    if |Body.BodyBytes(body)| <= M.MAX_COMMIT_BODY_BYTES { L.OperationLimitIsNeverReached(body); }
    var written := Written(spelling, parents);
    forall i | 0 <= i < |written| - 1 ensures M.Less(written[i], written[i + 1]) {
      assert parents[i] in ToSet(parents) && parents[i + 1] in ToSet(parents) && parents[i] < parents[i + 1];
    }
  }

  /** The signed commit of a push: created exactly when the push keeps its limits. */
  method CreatePush(core: C.Core, random: C.Random, spelling: Spelling, changes: seq<R.Operation>, records: Records,
                    timestamp: nat, sequence: nat, root: M.Bytes32, blob: M.Bytes32, parents: seq<Id>)
    returns (r: Result<Bytes, PrepareError>)
    requires C.AppendsTag(core.cipher) && AllPrepared(changes, records) && KeepsOrder(spelling, records.Keys)
    requires StrictlyIncreasing(parents) && CommitsKeepOrder(spelling, ToSet(parents))
    requires timestamp > 0 && sequence > 0
    ensures r.Ok? <==> PushFits(changes, timestamp, sequence, |parents|)
    ensures r.Ok? ==>
              var commit := C.CommitOf(core, random, Written(spelling, parents), sequence,
                                       PushBody(spelling, changes, records, timestamp, root, blob));
              C.IsRecord(r.value, C.RecordOf(commit, core.signer), core.signer)
    ensures r.Err? ==> r.error == TooLarge
  {
    if timestamp > U64_MAX || sequence > U64_MAX { return Err(TooLarge); }
    PushIsCreatableExactly(spelling, changes, records, timestamp, sequence, root, blob, parents);
    var record := C.CreateSignedCommit(core, random, Written(spelling, parents), sequence,
                                       PushBody(spelling, changes, records, timestamp, root, blob));
    r := if record.Ok? then Ok(record.value) else Err(TooLarge);
  }

  /** The core and the ways of writing things that the engine is built with. */
  datatype Codec = Codec(core: C.Core, spelling: Spelling, canonicalHash: Id -> M.Bytes32,
                         root: M.Manifest -> M.Bytes32)

  /** The manifest of the prepared records: one entry for each, saying what the record says. */
  ghost predicate IsManifest(codec: Codec, next: Records, manifest: M.Manifest) {
    && M.ValidManifest(manifest) && manifest.vaultId == codec.core.vaultId && |manifest.entries| == |next|
    && forall id :: id in next ==> IsDescribed(manifest, codec.spelling, next[id], codec.canonicalHash)
  }

  /** The bytes are the record of the signed commit of the changes that refers to this manifest of the records. */
  ghost predicate Publishes(codec: Codec, record: Bytes, manifest: M.Manifest, blob: Digest,
                            changes: seq<R.Operation>, next: Records, clock: M.U64, sequence: M.U64, parents: seq<Id>,
                            random: C.Random)
    requires AllPrepared(changes, next)
  {
    && IsManifest(codec, next, manifest)
    && var body := PushBody(codec.spelling, changes, next, clock, codec.root(manifest), codec.spelling.blob(blob));
       var commit := C.CommitOf(codec.core, random, Written(codec.spelling, parents), sequence, body);
       C.IsRecord(record, C.RecordOf(commit, codec.core.signer), codec.core.signer)
  }

  /** The manifest of the prepared records, staged under `key` and uploaded, and the signed commit that refers to it:
      created exactly when the upload succeeds and the push keeps its limits. */
  method CreateCommit(staging: Staging, codec: Codec, changes: seq<R.Operation>, next: Records, key: Key,
                      encrypted: Bytes, sent: bool, clock: nat, sequence: nat, parents: seq<Id>, random: C.Random)
    returns (r: Result<Bytes, PrepareError>)
    requires Keyed(staging.cache) && AllPublishable(next) && AllPrepared(changes, next)
    requires C.AppendsTag(codec.core.cipher) && KeepsOrder(codec.spelling, next.Keys)
    requires StrictlyIncreasing(parents) && CommitsKeepOrder(codec.spelling, ToSet(parents))
    requires clock > 0 && sequence > 0
    modifies staging
    ensures Keyed(staging.cache) && Retains(old(staging.View()), staging.View())
    ensures staging.staged.Keys <= old(staging.staged.Keys) + {key}
    ensures r.Ok? <==>
              && sent && |next| <= M.MAX_MANIFEST_ENTRIES
              && PushFits(changes, clock, sequence, |parents|)
    ensures r.Ok? ==>
              && key in staging.staged && staging.staged[key] in staging.cache
              && exists manifest ::
                   Publishes(codec, r.value, manifest, staging.staged[key], changes, next, clock, sequence, parents,
                             random)
  {
    var manifest := ManifestInput(codec.core.vaultId, next, codec.spelling, codec.canonicalHash);
    var plain := M.EncodeManifest(manifest);
    if M.ValidManifest(manifest) { L.ValidManifestsFit(manifest); }
    if plain.Err? { return Err(TooLarge); }
    var ciphertext := staging.PutStaged(key, encrypted);
    if !sent { return Err(UploadFailed); }
    r := CreatePush(codec.core, random, codec.spelling, changes, next, clock, sequence, codec.root(manifest),
                    codec.spelling.blob(Of(ciphertext)), parents);
    assert r.Ok? ==>
        Publishes(codec, r.value, manifest, Of(ciphertext), changes, next, clock, sequence, parents, random);
  }
}
