/** The upload operations themselves (crates/ll-server/src/storage/blob.rs), each as the sequence of
    durable steps it performs.  `steps` lists them, so a crash inside a call leaves the state after
    some prefix of `steps`, which the state machine of `BlobStore` shows to be safe. */
module BlobStorage {
  import opened Basics
  import opened BlobStore

  const MINIMUM_FREE_DISK_BYTES := 64 * 1024 * 1024
  const VERIFY_BUFFER_BYTES := 64 * 1024

  datatype BlobError =
    | LimitExceeded | DeviceNotFound | DeviceRevoked | InsufficientStorage
    | UploadNotFound | OffsetMismatch | IntegrityFailure | BlobNotFound | Io

  /** Streams the file through the hasher one buffer at a time. */
  method VerifyFile(file: Bytes, expectedSize: nat, expectedHash: Digest) returns (ok: bool)
    ensures ok <==> |file| == expectedSize && expectedHash == Of(file)
  {
    if |file| != expectedSize { return false; }
    var hashed: Bytes, position := [], 0;
    while position < |file|
      invariant 0 <= position <= |file| && hashed == file[..position]
    {
      var count := Min(VERIFY_BUFFER_BYTES, |file| - position);
      assert file[..position + count] == file[..position] + file[position..position + count];
      hashed := hashed + file[position..position + count];
      position := position + count;
    }
    assert hashed == file;
    ok := expectedHash == Of(hashed);
  }

  /** The answer to a range request, from the object files and the blob rows. */
  function ReadAnswer(objects: map<Digest, Bytes>, blobs: map<Digest, nat>, hash: Digest, offset: nat, maximum: nat)
    : Result<(nat, bool, Bytes), BlobError>
  {
    if !(0 < maximum <= MAX_CHUNK_BYTES) then Err(LimitExceeded)
    else if hash !in blobs then Err(BlobNotFound)
    else if offset > blobs[hash] then Err(OffsetMismatch)
    else if hash !in objects then Err(IntegrityFailure)
    else
      var total, end := blobs[hash], Min(offset + maximum, blobs[hash]);
      if end > |objects[hash]| then Err(Io) else Ok((total, end == total, objects[hash][offset..end]))
  }

  class Storage {
    var devices: map<Id, bool>
    var parts: map<Id, Bytes>
    var objects: map<Digest, Bytes>
    var uploads: map<Id, Upload>
    var blobs: map<Digest, nat>
    ghost var accepted: map<Id, Bytes>

    constructor (devices: map<Id, bool>)
      ensures State() == EmptyStore && Safe(State()) && this.devices == devices
    {
      this.devices := devices;
      parts, objects, uploads, blobs, accepted := map[], map[], map[], map[], map[];
    }

    function DiskState(): Disk
      reads this
    {
      Disk(parts, objects, uploads, blobs)
    }

    /** Between calls no upload lock is held. */
    ghost function State(): Store
      reads this
    {
      Store(DiskState(), map[], accepted)
    }

    predicate Active(device: Id)
      reads this
    {
      device in devices && devices[device]
    }

    ghost function DeviceError(device: Id): BlobError
      reads this
    {
      if device in devices then DeviceRevoked else DeviceNotFound
    }

    method RequireActive(device: Id) returns (r: Result<(), BlobError>)
      ensures r.Ok? <==> Active(device)
      ensures r.Err? ==> r.error == DeviceError(device)
    {
      if device !in devices { return Err(DeviceNotFound); }
      r := if devices[device] then Ok(()) else Err(DeviceRevoked);
    }

    ghost predicate Owns(device: Id, id: Id)
      reads this
    {
      id in uploads && uploads[id].device == device
    }

    function CountForDevice(device: Id): nat
      reads this
    {
      |set id | id in uploads && uploads[id].device == device|
    }

    ghost predicate HasUpload(device: Id, size: nat, hash: Digest)
      reads this
    {
      exists id :: id in uploads && uploads[id] == Upload(device, size, hash, uploads[id].receivedSize)
    }

    /** Resumes the upload with the same key, or allocates one.  `newId` is the new UUID and
        `available` the free disk space the operating system reports. */
    method BeginUpload(device: Id, size: nat, hash: Digest, available: nat, newId: Id)
      returns (r: Result<(Id, nat), BlobError>, ghost steps: seq<Step>)
      requires Safe(State())
      requires newId !in parts && newId !in uploads && newId !in accepted
      modifies `parts, `uploads, `accepted
      ensures Safe(State()) && State() == Execute(old(State()), steps)
      ensures r.Ok? <==>
                && size <= MAX_OBJECT_BYTES && Active(device) && available >= size + MINIMUM_FREE_DISK_BYTES
                && old(HasUpload(device, size, hash)
                       || (|uploads| < MAX_ACTIVE_UPLOADS
                           && |set id | id in uploads && uploads[id].device == device| < MAX_ACTIVE_UPLOADS_PER_DEVICE))
      ensures r.Err? || old(HasUpload(device, size, hash)) ==> State() == old(State())
      ensures r.Err? ==>
                r.error == if size > MAX_OBJECT_BYTES then LimitExceeded
                           else if !Active(device) then DeviceError(device)
                           else if available < size + MINIMUM_FREE_DISK_BYTES then InsufficientStorage
                           else LimitExceeded
      ensures r.Ok? ==>
                r.value.0 in uploads && uploads[r.value.0] == Upload(device, size, hash, r.value.1)
      ensures r.Ok? && !old(HasUpload(device, size, hash)) ==>
                && r.value == (newId, 0)
                && uploads == old(uploads)[newId := Upload(device, size, hash, 0)]
                && accepted == old(accepted)[newId := []]
    {
      steps := [];
      if size > MAX_OBJECT_BYTES { return Err(LimitExceeded), []; }
      var active := RequireActive(device);
      if active.Err? { return Err(active.error), []; }
      if available < size + MINIMUM_FREE_DISK_BYTES { return Err(InsufficientStorage), []; }
      if id :| id in uploads && SameKey(uploads[id], device, size, hash) {
        return Ok((id, uploads[id].receivedSize)), [];
      }
      if |uploads| >= MAX_ACTIVE_UPLOADS || CountForDevice(device) >= MAX_ACTIVE_UPLOADS_PER_DEVICE {
        return Err(LimitExceeded), [];
      }
      steps := [CreateFile(newId), InsertRow(newId, device, size, hash)];
      BeginTrace(State(), device, size, hash, newId);
      ExecuteIsSafe(State(), steps);
      parts := parts[newId := []];
      uploads := uploads[newId := Upload(device, size, hash, 0)];
      accepted := accepted[newId := []];
      r := Ok((newId, 0));
    }

    /** A complete upload is committed exactly when the object already published under its digest, or
        else the bytes acknowledged for it, have the promised size and digest. */
    ghost predicate CommitAllowed(device: Id, id: Id)
      reads this
    {
      && Active(device) && Owns(device, id) && uploads[id].receivedSize == uploads[id].expectedSize
      && (if uploads[id].expectedHash in objects then Matches(objects[uploads[id].expectedHash], uploads[id])
          else id in accepted && Matches(accepted[id], uploads[id]))
    }

    method CommitUpload(device: Id, id: Id) returns (r: Result<Digest, BlobError>, ghost steps: seq<Step>)
      requires Safe(State())
      modifies `parts, `objects, `uploads, `blobs
      ensures Safe(State()) && State() == Execute(old(State()), steps)
      ensures r.Ok? <==> old(CommitAllowed(device, id))
      ensures r.Err? ==> State() == old(State())
      ensures r.Err? ==>
                r.error == if !Active(device) then DeviceError(device)
                           else if !Owns(device, id) then UploadNotFound
                           else IntegrityFailure
      ensures r.Ok? ==>
                var u := old(uploads)[id];
                && r.value == u.expectedHash && r.value in blobs && blobs[r.value] == u.expectedSize
                && r.value in objects && Matches(objects[r.value], u)
                && uploads == old(uploads) - {id} && id !in parts
                && objects == old(objects)[r.value := objects[r.value]]
                && blobs == old(blobs)[r.value := u.expectedSize]
    {
      steps := [];
      var active := RequireActive(device);
      if active.Err? { return Err(active.error), []; }
      if id !in uploads || uploads[id].device != device { return Err(UploadNotFound), []; }
      var record := uploads[id];
      if record.receivedSize != record.expectedSize { return Err(IntegrityFailure), []; }
      assert RowOk(State(), id);
      ghost var start, content := State(), [];
      var destination := record.expectedHash;
      if destination in objects {
        var ok := VerifyFile(objects[destination], record.expectedSize, record.expectedHash);
        if !ok { return Err(IntegrityFailure), []; }
        steps, content := [FindObject(id), RecordBlob(id), RemovePart(id)], objects[destination];
        FindTrace(start, id);
      } else {
        if id !in parts { return Err(Io), []; }
        var ok := VerifyFile(parts[id], record.expectedSize, record.expectedHash);
        if !ok { return Err(IntegrityFailure), []; }
        steps, content := [VerifyPart(id), Rename(id), RecordBlob(id), RemovePart(id)], parts[id];
        RenameTrace(start, id);
      }
      assert destination in start.disk.blobs ==> BlobOk(start, destination);
      ExecuteIsSafe(start, steps);
      RecordUpload(id, content);
      r := Ok(destination);
    }

    /** Moves the verified part into place unless the object is there already, records the blob,
        drops the row, and removes what is left of the part. */
    method RecordUpload(id: Id, ghost content: Bytes)
      requires id in uploads
      requires if uploads[id].expectedHash in objects then content == objects[uploads[id].expectedHash]
               else id in parts && content == parts[id]
      modifies `parts, `objects, `uploads, `blobs
      ensures DiskState() == Committed(old(State()), id, content).disk
    {
      var record := uploads[id];
      var destination := record.expectedHash;
      ghost var before := DiskState();
      if destination !in objects {
        objects := objects[destination := parts[id]];
        parts := parts - {id};
      }
      assert objects == before.objects[destination := content];
      if destination !in blobs {
        blobs := blobs[destination := record.expectedSize];
      }
      uploads := uploads - {id};
      if id in parts {
        parts := parts - {id};
      }
      assert parts == before.parts - {id};
    }

    /** One bounded range of a published blob: exactly `ReadAnswer`. */
    method ReadBlobChunk(hash: Digest, offset: nat, maximum: nat)
      returns (r: Result<(nat, bool, Bytes), BlobError>)
      requires Safe(State())
      ensures r == ReadAnswer(objects, blobs, hash, offset, maximum)
      ensures r.Ok? <==> 0 < maximum <= MAX_CHUNK_BYTES && hash in blobs && offset <= blobs[hash]
      ensures r.Err? ==>
                r.error == if !(0 < maximum <= MAX_CHUNK_BYTES) then LimitExceeded
                           else if hash in blobs then OffsetMismatch else BlobNotFound
      ensures r.Ok? ==>
                && hash in objects && r.value.0 == |objects[hash]| && offset <= |objects[hash]|
                && r.value.2 == objects[hash][offset..Min(offset + maximum, |objects[hash]|)]
                && (r.value.1 <==> offset + |r.value.2| == |objects[hash]|)
    {
      if maximum == 0 || maximum > MAX_CHUNK_BYTES { return Err(LimitExceeded); }
      if hash !in blobs { return Err(BlobNotFound); }
      var total := blobs[hash];
      if offset > total { return Err(OffsetMismatch); }
      assert BlobOk(State(), hash);
      if hash !in objects { return Err(IntegrityFailure); }
      var file := objects[hash];
      var count := Min(total - offset, maximum);
      if offset + count > |file| { return Err(Io); }
      r := Ok((total, offset + count == total, file[offset..offset + count]));
    }

    /** Accepts the chunk exactly when it fits at the recorded offset. */
    ghost predicate AppendAllowed(device: Id, id: Id, offset: nat, chunk: Bytes)
      reads this
    {
      && 0 < |chunk| <= MAX_CHUNK_BYTES && Active(device) && Owns(device, id)
      && uploads[id].receivedSize == offset && offset + |chunk| <= uploads[id].expectedSize
    }

    method AppendUploadChunk(device: Id, id: Id, offset: nat, chunk: Bytes)
      returns (r: Result<nat, BlobError>, ghost steps: seq<Step>)
      requires Safe(State())
      modifies `parts, `uploads, `accepted
      ensures Safe(State()) && State() == Execute(old(State()), steps)
      ensures r.Ok? <==> old(AppendAllowed(device, id, offset, chunk))
      ensures r.Err? ==> State() == old(State())
      ensures r.Err? ==>
                r.error == if !(0 < |chunk| <= MAX_CHUNK_BYTES) then LimitExceeded
                           else if !Active(device) then DeviceError(device)
                           else if !Owns(device, id) then UploadNotFound
                           else if uploads[id].receivedSize != offset then OffsetMismatch
                           else LimitExceeded
      ensures r.Ok? ==>
                && r.value == offset + |chunk|
                && uploads == old(uploads)[id := old(uploads)[id].(receivedSize := r.value)]
                && id in old(accepted) && accepted == old(accepted)[id := old(accepted)[id] + chunk]
    {
      steps := [];
      if |chunk| == 0 || |chunk| > MAX_CHUNK_BYTES { return Err(LimitExceeded), []; }
      var active := RequireActive(device);
      if active.Err? { return Err(active.error), []; }
      if id !in uploads || uploads[id].device != device { return Err(UploadNotFound), []; }
      var record := uploads[id];
      if record.receivedSize != offset { return Err(OffsetMismatch), []; }
      var newOffset := offset + |chunk|;
      if newOffset > record.expectedSize { return Err(LimitExceeded), []; }
      assert RowOk(State(), id);
      if id !in parts { return Err(Io), []; }
      if |parts[id]| < offset { return Err(IntegrityFailure), []; }

      steps := AppendSteps(id, chunk);
      assert steps[..4] == steps;
      TraceTo4(State(), id, chunk);
      ExecuteIsSafe(State(), steps);
      WriteChunk(id, chunk);
      r := Ok(newOffset);
    }

    /** Repairs a torn tail, writes and syncs the chunk, then advances the row.  The asserted disks
        are those of `TraceTo2`, `TraceTo3` and `TraceTo4`. */
    method WriteChunk(id: Id, chunk: Bytes)
      requires id in uploads && id in parts && id in accepted && uploads[id].receivedSize <= |parts[id]|
      modifies `parts, `uploads, `accepted
      ensures parts == old(parts)[id := old(parts)[id][..old(uploads)[id].receivedSize] + chunk]
      ensures uploads == old(uploads)[id := old(uploads)[id].(receivedSize := old(uploads)[id].receivedSize + |chunk|)]
      ensures accepted == old(accepted)[id := old(accepted)[id] + chunk]
    {
      var record := uploads[id];
      var offset := record.receivedSize;
      ghost var before, prefix := DiskState(), parts[id][..offset];
      if |parts[id]| > offset {
        parts := parts[id := parts[id][..offset]];
      }
      assert parts[id] == prefix;
      assert DiskState() == before.(parts := before.parts[id := prefix]);
      assert parts[id][..offset] == prefix;
      parts := parts[id := parts[id][..offset] + chunk];
      assert parts == before.parts[id := prefix + chunk];
      assert DiskState() == before.(parts := before.parts[id := prefix + chunk]);
      uploads := uploads[id := record.(receivedSize := offset + |chunk|)];
      accepted := accepted[id := accepted[id] + chunk];
    }
  }

  function AppendSteps(id: Id, chunk: Bytes): seq<Step> {
    [Truncate(id, chunk), Tear(id, chunk), SyncChunk(id), AdvanceRow(id)]
  }

  lemma {:induction false} ExecuteIsSafe(s: Store, steps: seq<Step>)
    requires Safe(s)
    ensures Safe(Execute(s, steps))
    decreases |steps|
  {
    if steps != [] {
      ExecuteIsSafe(s, steps[..|steps| - 1]);
      StepIsSafe(Execute(s, steps[..|steps| - 1]), steps[|steps| - 1]);
    }
  }

  // The state after each durable step of an append.

  function Truncated(s: Store, id: Id, prefix: Bytes, chunk: Bytes): Store {
    s.(disk := s.disk.(parts := s.disk.parts[id := prefix]), running := s.running[id := Writing(chunk)])
  }

  function Written(s: Store, id: Id, prefix: Bytes, chunk: Bytes): Store {
    s.(disk := s.disk.(parts := s.disk.parts[id := prefix + chunk]), running := s.running[id := Writing(chunk)])
  }

  function SyncedTo(s: Store, id: Id, prefix: Bytes, chunk: Bytes): Store {
    s.(disk := s.disk.(parts := s.disk.parts[id := prefix + chunk]), running := s.running[id := Synced(chunk)])
  }

  lemma TruncateTo(s: Store, id: Id, chunk: Bytes)
    requires Enabled(s, Truncate(id, chunk))
    ensures Next(s, Truncate(id, chunk)) == Truncated(s, id, s.disk.parts[id][..s.disk.uploads[id].receivedSize], chunk)
  {}

  lemma TearTo(s: Store, id: Id, prefix: Bytes, chunk: Bytes)
    requires id in s.disk.uploads && s.disk.uploads[id].receivedSize == |prefix|
    ensures Next(Truncated(s, id, prefix, chunk), Tear(id, chunk)) == Written(s, id, prefix, chunk)
  {
    var t := Truncated(s, id, prefix, chunk);
    assert t.disk.parts[id][..|prefix|] == prefix;
    assert t.disk.parts[id := prefix + chunk] == s.disk.parts[id := prefix + chunk];
  }

  lemma SyncTo(s: Store, id: Id, prefix: Bytes, chunk: Bytes)
    requires id in s.disk.uploads && s.disk.uploads[id].receivedSize == |prefix|
    ensures Next(Written(s, id, prefix, chunk), SyncChunk(id)) == SyncedTo(s, id, prefix, chunk)
  {
    var t := Written(s, id, prefix, chunk);
    assert t.disk.parts[id][..|prefix|] == prefix;
    assert t.disk.parts[id := prefix + chunk] == s.disk.parts[id := prefix + chunk];
    assert t.running[id := Synced(chunk)] == s.running[id := Synced(chunk)];
  }

  lemma AdvanceTo(s: Store, id: Id, prefix: Bytes, chunk: Bytes)
    requires s.running == map[] && id in s.disk.uploads && id in s.accepted
    ensures var u := s.disk.uploads[id];
            Next(SyncedTo(s, id, prefix, chunk), AdvanceRow(id)) ==
              Store(s.disk.(parts := s.disk.parts[id := prefix + chunk],
                            uploads := s.disk.uploads[id := u.(receivedSize := u.receivedSize + |chunk|)]),
                    map[], s.accepted[id := s.accepted[id] + chunk])
  {
    assert SyncedTo(s, id, prefix, chunk).running - {id} == map[];
  }

  lemma ExecutePrefix(s: Store, steps: seq<Step>, k: nat)
    requires k < |steps|
    ensures Execute(s, steps[..k + 1]) == Next(Execute(s, steps[..k]), steps[k])
  {
    assert steps[..k + 1] == steps[..k] + [steps[k]];
    ExecuteOneMore(s, steps[..k], steps[k]);
  }

  lemma TraceTo2(s: Store, id: Id, chunk: Bytes)
    requires Enabled(s, Truncate(id, chunk))
    ensures var u, steps := s.disk.uploads[id], AppendSteps(id, chunk);
            var prefix := s.disk.parts[id][..u.receivedSize];
            && Execute(s, steps[..1]) == Truncated(s, id, prefix, chunk)
            && Execute(s, steps[..2]) == Written(s, id, prefix, chunk)
  {
    ExecutePrefix(s, AppendSteps(id, chunk), 0);
    ExecutePrefix(s, AppendSteps(id, chunk), 1);
    TruncateTo(s, id, chunk);
    TearTo(s, id, s.disk.parts[id][..s.disk.uploads[id].receivedSize], chunk);
  }

  lemma TraceTo3(s: Store, id: Id, chunk: Bytes)
    requires Enabled(s, Truncate(id, chunk))
    ensures Execute(s, AppendSteps(id, chunk)[..3]) ==
              SyncedTo(s, id, s.disk.parts[id][..s.disk.uploads[id].receivedSize], chunk)
  {
    TraceTo2(s, id, chunk);
    ExecutePrefix(s, AppendSteps(id, chunk), 2);
    SyncTo(s, id, s.disk.parts[id][..s.disk.uploads[id].receivedSize], chunk);
  }

  lemma TraceTo4(s: Store, id: Id, chunk: Bytes)
    requires s.running == map[] && Enabled(s, Truncate(id, chunk)) && id in s.accepted
    ensures var u := s.disk.uploads[id];
            Execute(s, AppendSteps(id, chunk)[..4]) ==
              Store(s.disk.(parts := s.disk.parts[id := s.disk.parts[id][..u.receivedSize] + chunk],
                            uploads := s.disk.uploads[id := u.(receivedSize := u.receivedSize + |chunk|)]),
                    map[], s.accepted[id := s.accepted[id] + chunk])
  {
    TraceTo3(s, id, chunk);
    ExecutePrefix(s, AppendSteps(id, chunk), 3);
    AdvanceTo(s, id, s.disk.parts[id][..s.disk.uploads[id].receivedSize], chunk);
  }

  // The states after the steps of a begin and of a commit.

  lemma BeginTrace(s: Store, device: Id, size: nat, hash: Digest, id: Id)
    requires s.running == map[] && size <= MAX_OBJECT_BYTES
    requires id !in s.disk.parts && id !in s.disk.uploads && id !in s.accepted
    requires forall x :: x in s.disk.uploads ==> !SameKey(s.disk.uploads[x], device, size, hash)
    ensures Execute(s, [CreateFile(id), InsertRow(id, device, size, hash)]) ==
              Store(s.disk.(parts := s.disk.parts[id := []],
                            uploads := s.disk.uploads[id := Upload(device, size, hash, 0)]),
                    map[], s.accepted[id := []])
  {
    var steps := [CreateFile(id), InsertRow(id, device, size, hash)];
    ExecutePrefix(s, steps, 0);
    ExecutePrefix(s, steps, 1);
    assert steps[..2] == steps;
    var s1 := s.(disk := s.disk.(parts := s.disk.parts[id := []]), running := map[id := Creating]);
    assert Next(s, steps[0]) == s1;
    assert s1.running - {id} == map[];
  }

  /** The state once upload `id`, published as `content`, has been recorded and cleaned up. */
  function Committed(s: Store, id: Id, content: Bytes): Store
    requires id in s.disk.uploads
  {
    var u := s.disk.uploads[id];
    s.(disk := Disk(s.disk.parts - {id}, s.disk.objects[u.expectedHash := content], s.disk.uploads - {id},
                    if u.expectedHash in s.disk.blobs then s.disk.blobs
                    else s.disk.blobs[u.expectedHash := u.expectedSize]))
  }

  lemma FinishTrace(s: Store, id: Id)
    requires s.running == map[id := Published] && id in s.disk.uploads
    requires s.disk.uploads[id].expectedHash in s.disk.objects
    ensures Next(Next(s, RecordBlob(id)), RemovePart(id)) ==
              Committed(s.(running := map[]), id, s.disk.objects[s.disk.uploads[id].expectedHash])
  {
    var t := Next(s, RecordBlob(id));
    assert t.running == map[id := Recorded];
    assert t.running - {id} == map[];
    var hash := s.disk.uploads[id].expectedHash;
    assert s.disk.objects[hash := s.disk.objects[hash]] == s.disk.objects;
  }

  lemma FindTrace(s: Store, id: Id)
    requires s.running == map[] && Enabled(s, FindObject(id))
    ensures Execute(s, [FindObject(id), RecordBlob(id), RemovePart(id)]) ==
              Committed(s, id, s.disk.objects[s.disk.uploads[id].expectedHash])
  {
    var steps := [FindObject(id), RecordBlob(id), RemovePart(id)];
    ExecutePrefix(s, steps, 0);
    ExecutePrefix(s, steps, 1);
    ExecutePrefix(s, steps, 2);
    assert steps[..3] == steps;
    var s1 := s.(running := map[id := Published]);
    assert Next(s, steps[0]) == s1;
    FinishTrace(s1, id);
    assert s1.(running := map[]) == s;
  }

  lemma RenameTrace(s: Store, id: Id)
    requires s.running == map[] && Enabled(s, VerifyPart(id))
    ensures Execute(s, [VerifyPart(id), Rename(id), RecordBlob(id), RemovePart(id)]) ==
              Committed(s, id, s.disk.parts[id])
  {
    var steps := [VerifyPart(id), Rename(id), RecordBlob(id), RemovePart(id)];
    ExecuteFour(s, steps);
    var s1 := s.(running := map[id := Verified]);
    assert Next(s, steps[0]) == s1;
    RenameTo(s1, id);
    var s2 := Next(s1, steps[1]);
    FinishTrace(s2, id);
    assert s2.disk.parts - {id} == s.disk.parts - {id};
    var hash := s.disk.uploads[id].expectedHash;
    assert s2.disk.objects[hash := s.disk.parts[id]] == s2.disk.objects;
  }

  lemma RenameTo(s: Store, id: Id)
    requires s.running == map[id := Verified] && id in s.disk.uploads && id in s.disk.parts
    ensures Next(s, Rename(id)) ==
              s.(disk := s.disk.(objects := s.disk.objects[s.disk.uploads[id].expectedHash := s.disk.parts[id]],
                                 parts := s.disk.parts - {id}),
                 running := map[id := Published])
  {
    assert s.running[id := Published] == map[id := Published];
  }

  lemma ExecuteFour(s: Store, steps: seq<Step>)
    requires |steps| == 4
    ensures Execute(s, steps) == Next(Next(Next(Next(s, steps[0]), steps[1]), steps[2]), steps[3])
  {
    ExecutePrefix(s, steps, 0);
    ExecutePrefix(s, steps, 1);
    ExecutePrefix(s, steps, 2);
    ExecutePrefix(s, steps, 3);
    assert steps[..4] == steps;
  }
}
