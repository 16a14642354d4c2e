/** Crash-safe resumable uploads as a state machine over durable steps
    (crates/ll-server/src/storage/blob.rs).

    Every file operation and every database transaction is one step.  Operations on different
    uploads interleave freely, operations on one upload hold its lock, and a crash may fall between
    any two steps: it forgets the operations in progress and leaves the disk as it is.  Bytes written
    but not yet synced are arbitrary. */
module BlobStore {
  import opened Basics

  const MAX_OBJECT_BYTES := 512 * 1024 * 1024
  const MAX_CHUNK_BYTES := 256 * 1024
  const MAX_ACTIVE_UPLOADS := 1024
  const MAX_ACTIVE_UPLOADS_PER_DEVICE := 32

  /** An ideal hash: equal digests have equal contents, and some digests have no content at all. */
  datatype Digest = Of(content: Bytes) | Unmatched(n: nat)

  datatype Upload = Upload(device: Id, expectedSize: nat, expectedHash: Digest, receivedSize: nat)

  datatype Disk = Disk(
    parts: map<Id, Bytes>,
    objects: map<Digest, Bytes>,
    uploads: map<Id, Upload>,
    blobs: map<Digest, nat>)

  /** How far the operation that holds an upload's lock has come. */
  datatype Phase =
    | Creating
    | Writing(chunk: Bytes)
    | Synced(chunk: Bytes)
    | Verified
    | Published
    | Recorded

  /** `accepted` is the history variable: the chunks acknowledged for each upload, in order. */
  datatype Store = Store(disk: Disk, running: map<Id, Phase>, accepted: map<Id, Bytes>)

  const EmptyStore := Store(Disk(map[], map[], map[], map[]), map[], map[])

  datatype Step =
    | CreateFile(id: Id)
    | InsertRow(id: Id, device: Id, size: nat, hash: Digest)
    | Truncate(id: Id, chunk: Bytes)
    | Tear(id: Id, junk: Bytes)
    | SyncChunk(id: Id)
    | AdvanceRow(id: Id)
    | VerifyPart(id: Id)
    | FindObject(id: Id)
    | Rename(id: Id)
    | RecordBlob(id: Id)
    | RemovePart(id: Id)
    | Crash

  predicate Matches(content: Bytes, u: Upload) {
    |content| == u.expectedSize && u.expectedHash == Of(content)
  }

  /** Only how much was received may differ. */
  lemma SameKeyExactly(u: Upload, device: Id, size: nat, hash: Digest)
    ensures SameKey(u, device, size, hash) <==> u == Upload(device, size, hash, u.receivedSize)
  {}

  predicate SameKey(u: Upload, device: Id, size: nat, hash: Digest) {
    u.device == device && u.expectedSize == size && u.expectedHash == hash
  }

  predicate Complete(s: Store, id: Id) {
    id in s.disk.uploads && s.disk.uploads[id].receivedSize == s.disk.uploads[id].expectedSize
  }

  predicate Enabled(s: Store, step: Step) {
    match step
    case CreateFile(id) => id !in s.running && id !in s.disk.parts && id !in s.disk.uploads && id !in s.accepted
    case InsertRow(id, device, size, hash) =>
      && id in s.running && s.running[id].Creating? && size <= MAX_OBJECT_BYTES
      && id !in s.disk.uploads
      && forall x :: x in s.disk.uploads ==> !SameKey(s.disk.uploads[x], device, size, hash)
    case Truncate(id, chunk) =>
      && id !in s.running && id in s.disk.uploads && id in s.disk.parts
      && 0 < |chunk| <= MAX_CHUNK_BYTES
      && s.disk.uploads[id].receivedSize + |chunk| <= s.disk.uploads[id].expectedSize
      && s.disk.uploads[id].receivedSize <= |s.disk.parts[id]|
    case Tear(id, _) => id in s.running && s.running[id].Writing?
    case SyncChunk(id) => id in s.running && s.running[id].Writing?
    case AdvanceRow(id) => id in s.running && s.running[id].Synced?
    case VerifyPart(id) =>
      && id !in s.running && Complete(s, id)
      && s.disk.uploads[id].expectedHash !in s.disk.objects
      && id in s.disk.parts && Matches(s.disk.parts[id], s.disk.uploads[id])
    case FindObject(id) =>
      && id !in s.running && Complete(s, id)
      && s.disk.uploads[id].expectedHash in s.disk.objects
      && Matches(s.disk.objects[s.disk.uploads[id].expectedHash], s.disk.uploads[id])
    case Rename(id) => id in s.running && s.running[id].Verified?
    case RecordBlob(id) => id in s.running && s.running[id].Published?
    case RemovePart(id) => id in s.running && s.running[id].Recorded?
    case Crash => true
  }

  /** The effect of an enabled step; a step that is not enabled changes nothing. */
  function Next(s: Store, step: Step): Store {
    if !Enabled(s, step) then s
    else
      var disk := s.disk;
      match step
      case CreateFile(id) => s.(disk := disk.(parts := disk.parts[id := []]), running := s.running[id := Creating])
      case InsertRow(id, device, size, hash) =>
        s.(disk := disk.(uploads := disk.uploads[id := Upload(device, size, hash, 0)]),
           running := s.running - {id}, accepted := s.accepted[id := []])
      case Truncate(id, chunk) =>
        if id !in disk.parts || id !in disk.uploads || disk.uploads[id].receivedSize > |disk.parts[id]| then s else
        s.(disk := disk.(parts := disk.parts[id := disk.parts[id][..disk.uploads[id].receivedSize]]),
           running := s.running[id := Writing(chunk)])
      case Tear(id, junk) => WithTail(s, id, junk)
      case SyncChunk(id) =>
        WithTail(s, id, s.running[id].chunk).(running := s.running[id := Synced(s.running[id].chunk)])
      case AdvanceRow(id) =>
        if id !in disk.uploads || id !in s.accepted then s else
        var u, chunk := disk.uploads[id], s.running[id].chunk;
        s.(disk := disk.(uploads := disk.uploads[id := u.(receivedSize := u.receivedSize + |chunk|)]),
           running := s.running - {id}, accepted := s.accepted[id := s.accepted[id] + chunk])
      case VerifyPart(id) => s.(running := s.running[id := Verified])
      case FindObject(id) => s.(running := s.running[id := Published])
      case Rename(id) =>
        if id !in disk.uploads || id !in disk.parts then s else
        s.(disk := disk.(objects := disk.objects[disk.uploads[id].expectedHash := disk.parts[id]],
                         parts := disk.parts - {id}),
           running := s.running[id := Published])
      case RecordBlob(id) =>
        if id !in disk.uploads then s else
        var u := disk.uploads[id];
        s.(disk := disk.(blobs := if u.expectedHash in disk.blobs then disk.blobs
                                  else disk.blobs[u.expectedHash := u.expectedSize],
                         uploads := disk.uploads - {id}),
           running := s.running[id := Recorded])
      case RemovePart(id) => s.(disk := disk.(parts := disk.parts - {id}), running := s.running - {id})
      case Crash => s.(running := map[])
  }

  /** The part file holds the recorded prefix followed by `tail`. */
  function WithTail(s: Store, id: Id, tail: Bytes): Store {
    if id !in s.disk.parts || id !in s.disk.uploads || s.disk.uploads[id].receivedSize > |s.disk.parts[id]| then s
    else
      var prefix := s.disk.parts[id][..s.disk.uploads[id].receivedSize];
      s.(disk := s.disk.(parts := s.disk.parts[id := prefix + tail]))
  }

  function Execute(s: Store, steps: seq<Step>): Store
    decreases |steps|
  {
    if steps == [] then s else Next(Execute(s, steps[..|steps| - 1]), steps[|steps| - 1])
  }

  // ----- the invariant

  /** The part file starts with the acknowledged chunks, and holds nothing else once complete. */
  ghost predicate PartHolds(s: Store, id: Id)
    requires id in s.accepted
  {
    && id in s.disk.parts && s.accepted[id] <= s.disk.parts[id]
    && (Complete(s, id) ==> s.disk.parts[id] == s.accepted[id])
  }

  /** Every acknowledged byte is in the part file, or the upload is complete and published. */
  ghost predicate RowOk(s: Store, id: Id)
    requires id in s.disk.uploads
  {
    var u := s.disk.uploads[id];
    && id in s.accepted && |s.accepted[id]| == u.receivedSize <= u.expectedSize <= MAX_OBJECT_BYTES
    && (|| PartHolds(s, id)
        || (Matches(s.accepted[id], u) && u.expectedHash in s.disk.objects))
  }

  ghost predicate PhaseOk(s: Store, id: Id)
    requires id in s.running
  {
    match s.running[id]
    case Creating => id !in s.disk.uploads && id !in s.accepted && id in s.disk.parts && s.disk.parts[id] == []
    case Writing(chunk) =>
      && id in s.disk.uploads && RowOk(s, id) && PartHolds(s, id)
      && 0 < |chunk| && s.disk.uploads[id].receivedSize + |chunk| <= s.disk.uploads[id].expectedSize
    case Synced(chunk) =>
      && id in s.disk.uploads && RowOk(s, id) && id in s.disk.parts && s.disk.parts[id] == s.accepted[id] + chunk
      && 0 < |chunk| && s.disk.uploads[id].receivedSize + |chunk| <= s.disk.uploads[id].expectedSize
    case Verified =>
      && Complete(s, id) && RowOk(s, id) && id in s.disk.parts && Matches(s.disk.parts[id], s.disk.uploads[id])
      && s.disk.parts[id] == s.accepted[id]
    case Published =>
      && Complete(s, id) && RowOk(s, id) && s.disk.uploads[id].expectedHash in s.disk.objects
      && Matches(s.disk.objects[s.disk.uploads[id].expectedHash], s.disk.uploads[id])
    case Recorded => id !in s.disk.uploads
  }

  ghost predicate BlobOk(s: Store, hash: Digest)
    requires hash in s.disk.blobs
  {
    hash in s.disk.objects && |s.disk.objects[hash]| == s.disk.blobs[hash] <= MAX_OBJECT_BYTES
  }

  ghost predicate OneRowPerKey(s: Store) {
    forall a, b :: a in s.disk.uploads && b in s.disk.uploads ==>
      var u := s.disk.uploads[b]; SameKey(s.disk.uploads[a], u.device, u.expectedSize, u.expectedHash) ==> a == b
  }

  ghost predicate Safe(s: Store) {
    && (forall id {:trigger RowOk(s, id)} :: id in s.disk.uploads ==> RowOk(s, id))
    && (forall id {:trigger PhaseOk(s, id)} :: id in s.running ==> PhaseOk(s, id))
    && (forall hash :: hash in s.disk.objects ==> hash == Of(s.disk.objects[hash]))
    && (forall hash {:trigger BlobOk(s, hash)} :: hash in s.disk.blobs ==> BlobOk(s, hash))
    && OneRowPerKey(s)
  }

  /** Only upload `id` changed, and published objects stayed as they were. */
  ghost predicate OnlyTouches(s: Store, t: Store, id: Id) {
    && (forall x :: x != id ==> (x in t.disk.uploads <==> x in s.disk.uploads))
    && (forall x :: x != id && x in s.disk.uploads ==> t.disk.uploads[x] == s.disk.uploads[x])
    && (forall x :: x != id ==> (x in t.disk.parts <==> x in s.disk.parts))
    && (forall x :: x != id && x in s.disk.parts ==> t.disk.parts[x] == s.disk.parts[x])
    && (forall x :: x != id ==> (x in t.running <==> x in s.running))
    && (forall x :: x != id && x in s.running ==> t.running[x] == s.running[x])
    && (forall x :: x != id ==> (x in t.accepted <==> x in s.accepted))
    && (forall x :: x != id && x in s.accepted ==> t.accepted[x] == s.accepted[x])
    && (forall h :: h in s.disk.objects ==> h in t.disk.objects && t.disk.objects[h] == s.disk.objects[h])
  }

  lemma OthersStaySafe(s: Store, t: Store, id: Id)
    requires Safe(s) && OnlyTouches(s, t, id)
    requires id in t.disk.uploads ==> RowOk(t, id)
    requires id in t.running ==> PhaseOk(t, id)
    ensures forall x {:trigger RowOk(t, x)} :: x in t.disk.uploads ==> RowOk(t, x)
    ensures forall x {:trigger PhaseOk(t, x)} :: x in t.running ==> PhaseOk(t, x)
  {
    forall x {:trigger RowOk(t, x)} | x in t.disk.uploads ensures RowOk(t, x) {
      if x != id { assert RowOk(s, x); }
    }
    forall x {:trigger PhaseOk(t, x)} | x in t.running ensures PhaseOk(t, x) {
      if x != id { assert PhaseOk(s, x); }
    }
  }

  lemma BlobsStaySafe(s: Store, t: Store)
    requires Safe(s) && t.disk.blobs == s.disk.blobs
    requires forall h :: h in s.disk.objects ==> h in t.disk.objects && t.disk.objects[h] == s.disk.objects[h]
    ensures forall hash {:trigger BlobOk(t, hash)} :: hash in t.disk.blobs ==> BlobOk(t, hash)
  {
    forall hash {:trigger BlobOk(t, hash)} | hash in t.disk.blobs ensures BlobOk(t, hash) { assert BlobOk(s, hash); }
  }

  lemma RowStepIsSafe(s: Store, step: Step)
    requires Safe(s) && Enabled(s, step) && (step.CreateFile? || step.InsertRow? || step.AdvanceRow?)
    ensures Safe(Next(s, step))
  {
    var t, id := Next(s, step), step.id;
    assert id in s.running ==> PhaseOk(s, id);
    OthersStaySafe(s, t, id);
    BlobsStaySafe(s, t);
  }

  lemma FileStepIsSafe(s: Store, step: Step)
    requires Safe(s) && Enabled(s, step) && (step.Truncate? || step.Tear? || step.SyncChunk?)
    ensures Safe(Next(s, step))
  {
    var t, id := Next(s, step), step.id;
    assert id in s.running ==> PhaseOk(s, id);
    assert id in s.disk.uploads && RowOk(s, id);
    OthersStaySafe(s, t, id);
    BlobsStaySafe(s, t);
  }

  lemma PublishStepIsSafe(s: Store, step: Step)
    requires Safe(s) && Enabled(s, step) && (step.VerifyPart? || step.FindObject? || step.Rename? || step.RemovePart?)
    ensures Safe(Next(s, step))
  {
    var t, id := Next(s, step), step.id;
    assert id in s.running ==> PhaseOk(s, id);
    assert id in s.disk.uploads ==> RowOk(s, id);
    OthersStaySafe(s, t, id);
    BlobsStaySafe(s, t);
  }

  lemma RecordIsSafe(s: Store, id: Id)
    requires Safe(s) && Enabled(s, RecordBlob(id))
    ensures Safe(Next(s, RecordBlob(id)))
  {
    var t := Next(s, RecordBlob(id));
    assert PhaseOk(s, id);
    OthersStaySafe(s, t, id);
    forall hash {:trigger BlobOk(t, hash)} | hash in t.disk.blobs ensures BlobOk(t, hash) {
      assert hash in s.disk.blobs ==> BlobOk(s, hash);
    }
  }

  lemma CrashIsSafe(s: Store)
    requires Safe(s)
    ensures Safe(Next(s, Crash))
  {
    var t := Next(s, Crash);
    forall id {:trigger RowOk(t, id)} | id in t.disk.uploads ensures RowOk(t, id) { assert RowOk(s, id); }
    BlobsStaySafe(s, t);
  }

  lemma StepIsSafe(s: Store, step: Step)
    requires Safe(s)
    ensures Safe(Next(s, step))
  {
    if Enabled(s, step) {
      match step
      case CreateFile(_) => RowStepIsSafe(s, step);
      case InsertRow(_, _, _, _) => RowStepIsSafe(s, step);
      case AdvanceRow(_) => RowStepIsSafe(s, step);
      case Truncate(_, _) => FileStepIsSafe(s, step);
      case Tear(_, _) => FileStepIsSafe(s, step);
      case SyncChunk(_) => FileStepIsSafe(s, step);
      case VerifyPart(_) => PublishStepIsSafe(s, step);
      case FindObject(_) => PublishStepIsSafe(s, step);
      case Rename(_) => PublishStepIsSafe(s, step);
      case RemovePart(_) => PublishStepIsSafe(s, step);
      case RecordBlob(id) => RecordIsSafe(s, id);
      case Crash => CrashIsSafe(s);
    }
  }

  /** Every state of every run, crashes included, keeps the acknowledged bytes and the published blobs. */
  lemma {:induction false} RunIsSafe(steps: seq<Step>)
    ensures Safe(Execute(EmptyStore, steps))
    decreases |steps|
  {
    if steps != [] {
      RunIsSafe(steps[..|steps| - 1]);
      StepIsSafe(Execute(EmptyStore, steps[..|steps| - 1]), steps[|steps| - 1]);
    }
  }

  // ----- what the invariant gives

  /** After any crash every unfinished upload can be continued at its recorded offset, and every
      complete upload whose bytes hash to the promised digest can be committed. */
  lemma ResumeIsPossible(s: Store, id: Id)
    requires Safe(s) && s.running == map[] && id in s.disk.uploads
    ensures forall chunk |
              0 < |chunk| <= MAX_CHUNK_BYTES
                  && |chunk| <= s.disk.uploads[id].expectedSize - s.disk.uploads[id].receivedSize ::
              Enabled(s, Truncate(id, chunk))
    ensures id in s.accepted && (Matches(s.accepted[id], s.disk.uploads[id]) ==>
              Enabled(s, VerifyPart(id)) || Enabled(s, FindObject(id)))
  {
    assert RowOk(s, id);
  }

  lemma StepKeepsObjects(s: Store, step: Step, hash: Digest)
    requires Safe(s) && hash in s.disk.objects
    ensures hash in Next(s, step).disk.objects && Next(s, step).disk.objects[hash] == s.disk.objects[hash]
  {
    if step.Rename? && Enabled(s, step) { assert PhaseOk(s, step.id); }
  }

  /** A published object is never changed or lost by any later run. */
  lemma {:induction false} PublishedObjectsPersist(s: Store, steps: seq<Step>, hash: Digest)
    requires Safe(s) && hash in s.disk.objects
    ensures Safe(Execute(s, steps))
    ensures hash in Execute(s, steps).disk.objects && Execute(s, steps).disk.objects[hash] == s.disk.objects[hash]
    decreases |steps|
  {
    if steps != [] {
      var before := Execute(s, steps[..|steps| - 1]);
      PublishedObjectsPersist(s, steps[..|steps| - 1], hash);
      StepIsSafe(before, steps[|steps| - 1]);
      StepKeepsObjects(before, steps[|steps| - 1], hash);
    }
  }

  /** A row keeps its key and all its acknowledged bytes until its object is recorded as a blob. */
  ghost predicate StillHeld(s: Store, t: Store, id: Id)
    requires id in s.disk.uploads && id in s.accepted
  {
    var u := s.disk.uploads[id];
    && id in t.accepted && s.accepted[id] <= t.accepted[id]
    && (id in t.disk.uploads ==> SameKey(t.disk.uploads[id], u.device, u.expectedSize, u.expectedHash))
    && (id !in t.disk.uploads ==> u.expectedHash in t.disk.blobs)
  }

  lemma StepStillHolds(s: Store, t: Store, id: Id, step: Step)
    requires Safe(t) && id in s.disk.uploads && id in s.accepted && StillHeld(s, t, id)
    ensures StillHeld(s, Next(t, step), id)
  {
    if Enabled(t, step) && !step.Crash? {
      assert step.id in t.running ==> PhaseOk(t, step.id);
    }
  }

  lemma {:induction false} AcknowledgedBytesPersist(s: Store, steps: seq<Step>, id: Id)
    requires Safe(s) && id in s.disk.uploads
    ensures Safe(Execute(s, steps))
    ensures id in s.accepted && StillHeld(s, Execute(s, steps), id)
    decreases |steps|
  {
    assert RowOk(s, id);
    if steps != [] {
      var before := Execute(s, steps[..|steps| - 1]);
      AcknowledgedBytesPersist(s, steps[..|steps| - 1], id);
      StepIsSafe(before, steps[|steps| - 1]);
      StepStillHolds(s, before, id, steps[|steps| - 1]);
    }
  }

  lemma ExecuteOneMore(s: Store, steps: seq<Step>, step: Step)
    ensures Execute(s, steps + [step]) == Next(Execute(s, steps), step)
  {
    assert (steps + [step])[..|steps|] == steps;
  }
}
