/** The client's upload loop (plugin/src/sync/engine.ts) and download loop
    (plugin/src/transport/session.ts) against the server's blob operations. */
module Transfer {
  import opened Basics
  import opened BlobStore
  import B = BlobStorage

  const UPLOAD_CHUNK_BYTES := 256 * 1024
  const MAX_BLOB_CHUNK_BYTES := 256 * 1024
  const MAX_SAFE_INTEGER := 0x1f_ffff_ffff_ffff

  datatype TransferError =
    | Remote(error: B.BlobError) | ConnectionLost | Closed | InconsistentRange | InvalidRange | InvalidLength

  /** What was accepted for this upload is a prefix of the content its digest stands for. */
  ghost predicate HonestRow(u: Upload, accepted: map<Id, Bytes>, id: Id) {
    u.expectedHash.Of? && |u.expectedHash.content| == u.expectedSize ==>
      id in accepted && accepted[id] <= u.expectedHash.content
  }

  /** A device's uploads hold nothing but what it once set out to send. */
  ghost predicate HonestUploads(uploads: map<Id, Upload>, accepted: map<Id, Bytes>, device: Id) {
    forall id :: id in uploads && uploads[id].device == device ==> HonestRow(uploads[id], accepted, id)
  }

  ghost predicate HonestDevice(server: B.Storage, device: Id)
    reads server
  {
    HonestUploads(server.uploads, server.accepted, device)
  }

  datatype Request =
    | Begin(size: nat, hash: Digest, available: nat, newId: Id)
    | Append(id: Id, offset: nat, chunk: Bytes)
    | Commit(id: Id)

  /** No request by another device, whatever it sends, puts foreign bytes into a device's uploads. */
  method ServeOther(server: B.Storage, other: Id, request: Request, ghost device: Id)
    requires Safe(server.State()) && other != device && HonestDevice(server, device)
    requires request.Begin? ==>
               request.newId !in server.parts && request.newId !in server.uploads && request.newId !in server.accepted
    modifies server`parts, server`objects, server`uploads, server`blobs, server`accepted
    ensures Safe(server.State()) && HonestDevice(server, device)
  {
    match request
    case Begin(size, hash, available, newId) =>
      var r, _ := server.BeginUpload(other, size, hash, available, newId);
    case Append(id, offset, chunk) =>
      var r, _ := server.AppendUploadChunk(other, id, offset, chunk);
    case Commit(id) =>
      var r, _ := server.CommitUpload(other, id);
  }

  /** The server has room for, or already holds, an upload of this ciphertext. */
  ghost predicate Admitted(server: B.Storage, device: Id, ciphertext: Bytes, available: nat)
    reads server
  {
    && |ciphertext| <= MAX_OBJECT_BYTES && server.Active(device)
    && available >= |ciphertext| + B.MINIMUM_FREE_DISK_BYTES
    && (server.HasUpload(device, |ciphertext|, Of(ciphertext))
        || (|server.uploads| < MAX_ACTIVE_UPLOADS && server.CountForDevice(device) < MAX_ACTIVE_UPLOADS_PER_DEVICE))
  }

  /** The chunks that `size` bytes take. */
  function ChunksFor(size: nat): nat {
    (size + UPLOAD_CHUNK_BYTES - 1) / UPLOAD_CHUNK_BYTES
  }

  /** From whatever offset the server reports, the upload ends with the ciphertext stored, byte for byte, as a blob
      under its own digest.  The connection delivers the first `replies` replies; if `served`, the request after
      them still reaches the server.  Wherever it breaks, the device's uploads stay honest, and with enough replies
      the upload succeeds exactly when it is admitted. */
  method UploadCiphertext(server: B.Storage, device: Id, ciphertext: Bytes, available: nat, newId: Id,
                          replies: nat, served: bool)
    returns (r: Result<Digest, TransferError>)
    requires Safe(server.State()) && HonestDevice(server, device)
    requires newId !in server.parts && newId !in server.uploads && newId !in server.accepted
    modifies server`parts, server`objects, server`uploads, server`blobs, server`accepted
    ensures Safe(server.State()) && HonestDevice(server, device)
    ensures r.Ok? ==> old(Admitted(server, device, ciphertext, available))
    ensures r.Err? && r.error != ConnectionLost ==>
              !old(Admitted(server, device, ciphertext, available)) && r.error.Remote?
                  && server.State() == old(server.State())
    ensures r == Err(ConnectionLost) ==> replies < ChunksFor(|ciphertext|) + 2
    ensures r.Ok? ==>
              && r.value == Of(ciphertext)
              && r.value in server.objects && server.objects[r.value] == ciphertext
              && r.value in server.blobs && server.blobs[r.value] == |ciphertext|
              && !server.HasUpload(device, |ciphertext|, Of(ciphertext))
  {
    if replies == 0 && !served { return Err(ConnectionLost); }
    var begun := BeginCiphertext(server, device, ciphertext, available, newId);
    if replies == 0 { return Err(ConnectionLost); }
    if begun.Err? { return Err(Remote(begun.error)); }
    var (id, offset) := begun.value;
    var left := SendChunks(server, device, ciphertext, id, offset, replies - 1, served);
    if left.None? || (left.value == 0 && !served) { return Err(ConnectionLost); }
    var committed := CommitCiphertext(server, device, ciphertext, id);
    r := if left.value == 0 then Err(ConnectionLost) else Ok(committed);
  }

  /** The first request: an upload begun or resumed holds the beginning of the ciphertext. */
  method BeginCiphertext(server: B.Storage, device: Id, ciphertext: Bytes, available: nat, newId: Id)
    returns (r: Result<(Id, nat), B.BlobError>)
    requires Safe(server.State()) && HonestDevice(server, device)
    requires newId !in server.parts && newId !in server.uploads && newId !in server.accepted
    modifies server`parts, server`uploads, server`accepted
    ensures Safe(server.State()) && HonestDevice(server, device)
    ensures r.Ok? <==> old(Admitted(server, device, ciphertext, available))
    ensures r.Err? ==> server.State() == old(server.State())
    ensures r.Ok? ==>
              var (id, offset) := r.value;
              && server.Active(device) && offset <= |ciphertext|
              && id in server.uploads && server.uploads[id] == Upload(device, |ciphertext|, Of(ciphertext), offset)
              && id in server.accepted && server.accepted[id] == ciphertext[..offset]
  {
    var begun, _ := server.BeginUpload(device, |ciphertext|, Of(ciphertext), available, newId);
    r := begun;
    if r.Ok? {
      var id := r.value.0;
      assert RowOk(server.State(), id) && HonestRow(server.uploads[id], server.accepted, id);
    }
  }

  /** A completely accepted ciphertext is committed; the asserted fact is what the client checks. */
  method CommitCiphertext(server: B.Storage, device: Id, ciphertext: Bytes, id: Id) returns (hash: Digest)
    requires Safe(server.State()) && HonestDevice(server, device) && server.Active(device)
    requires id in server.uploads && server.uploads[id] == Upload(device, |ciphertext|, Of(ciphertext), |ciphertext|)
    requires id in server.accepted && server.accepted[id] == ciphertext
    modifies server`parts, server`objects, server`uploads, server`blobs
    ensures Safe(server.State()) && HonestDevice(server, device)
    ensures hash == Of(ciphertext) && hash in server.objects && server.objects[hash] == ciphertext
    ensures hash in server.blobs && server.blobs[hash] == |ciphertext| && !server.HasUpload(device, |ciphertext|, hash)
  {
    hash := Of(ciphertext);
    assert hash in server.objects ==> hash == Of(server.objects[hash]);
    var committed, _ := server.CommitUpload(device, id);
    assert committed == Ok(hash);
  }

  /** One chunk.  The asserted facts are those the client checks: the append is not refused and the returned offset is
      in range. */
  method SendChunk(server: B.Storage, device: Id, ciphertext: Bytes, id: Id, offset: nat) returns (next: nat)
    requires Safe(server.State()) && HonestDevice(server, device) && server.Active(device) && offset < |ciphertext|
    requires id in server.uploads && server.uploads[id] == Upload(device, |ciphertext|, Of(ciphertext), offset)
    requires id in server.accepted && server.accepted[id] == ciphertext[..offset]
    modifies server`parts, server`uploads, server`accepted
    ensures Safe(server.State()) && HonestDevice(server, device)
    ensures next == Min(offset + UPLOAD_CHUNK_BYTES, |ciphertext|)
    ensures server.uploads == old(server.uploads)[id := Upload(device, |ciphertext|, Of(ciphertext), next)]
    ensures id in server.accepted && server.accepted[id] == ciphertext[..next]
  {
    var end := Min(offset + UPLOAD_CHUNK_BYTES, |ciphertext|);
    var answer, _ := server.AppendUploadChunk(device, id, offset, ciphertext[offset..end]);
    assert answer.Ok? && answer.value <= |ciphertext|;
    assert ciphertext[..end] == ciphertext[..offset] + ciphertext[offset..end];
    next := answer.value;
  }

  /** Sends the rest of the ciphertext chunk by chunk from the server's offset; `left` is how many replies can still
      arrive, or `None` once the connection broke. */
  method SendChunks(server: B.Storage, device: Id, ciphertext: Bytes, id: Id, start: nat, replies: nat, served: bool)
    returns (left: Option<nat>)
    requires Safe(server.State()) && HonestDevice(server, device) && server.Active(device) && start <= |ciphertext|
    requires id in server.uploads && server.uploads[id] == Upload(device, |ciphertext|, Of(ciphertext), start)
    requires id in server.accepted && server.accepted[id] == ciphertext[..start]
    modifies server`parts, server`uploads, server`accepted
    ensures Safe(server.State()) && HonestDevice(server, device)
    ensures left ==
        if replies < ChunksFor(|ciphertext| - start) then None else Some(replies - ChunksFor(|ciphertext| - start))
    ensures left.Some? ==>
              && server.uploads == old(server.uploads)[id := Upload(device, |ciphertext|, Of(ciphertext), |ciphertext|)]
              && id in server.accepted && server.accepted[id] == ciphertext
  {
    var offset := start;
    left := Some(replies);
    while offset < |ciphertext|
      invariant Safe(server.State()) && HonestDevice(server, device) && offset <= |ciphertext|
      invariant left.Some? && left.value - ChunksFor(|ciphertext| - offset) == replies - ChunksFor(|ciphertext| - start)
      invariant server.uploads == old(server.uploads)[id := Upload(device, |ciphertext|, Of(ciphertext), offset)]
      invariant id in server.accepted && server.accepted[id] == ciphertext[..offset]
      decreases |ciphertext| - offset
    {
      if left.value == 0 && !served { return None; }
      var next := SendChunk(server, device, ciphertext, id, offset);
      if left.value == 0 { return None; }
      offset, left := next, Some(left.value - 1);
    }
    assert ciphertext[..offset] == ciphertext;
  }

  /** One answer to a range request. */
  datatype Range = Range(offset: nat, total: nat, complete: bool, chunk: Bytes)

  /** What the server of a published blob answers (see `AnswersAreHonest`). */
  function HonestRange(content: Bytes, offset: nat): Result<Range, TransferError> {
    if offset > |content| then Err(Remote(B.OffsetMismatch))
    else
      var end := Min(offset + MAX_BLOB_CHUNK_BYTES, |content|);
      Ok(Range(offset, |content|, end == |content|, content[offset..end]))
  }

  /** The client's view of the server's answer. */
  function RangeAnswer(objects: map<Digest, Bytes>, blobs: map<Digest, nat>, hash: Digest, offset: nat)
    : Result<Range, TransferError>
  {
    match B.ReadAnswer(objects, blobs, hash, offset, MAX_BLOB_CHUNK_BYTES)
    case Ok((total, complete, chunk)) => Ok(Range(offset, total, complete, chunk))
    case Err(error) => Err(Remote(error))
  }

  /** The server answers every range request for a stored blob honestly. */
  lemma AnswersAreHonest(s: Store, hash: Digest, offset: nat)
    requires Safe(s)
    ensures RangeAnswer(s.disk.objects, s.disk.blobs, hash, offset) ==
            if hash in s.disk.blobs && hash in s.disk.objects then HonestRange(s.disk.objects[hash], offset)
            else Err(Remote(B.BlobNotFound))
  {
    assert hash in s.disk.blobs ==> BlobOk(s, hash);
  }

  /** One range request. */
  method RequestRange(server: B.Storage, hash: Digest, offset: nat) returns (r: Result<Range, TransferError>)
    requires Safe(server.State())
    ensures r == RangeAnswer(server.objects, server.blobs, hash, offset)
    ensures hash in server.blobs ==> hash in server.objects && r == HonestRange(server.objects[hash], offset)
    ensures hash !in server.blobs ==> r == Err(Remote(B.BlobNotFound))
  {
    AnswersAreHonest(server.State(), hash, offset);
    assert hash in server.blobs ==> BlobOk(server.State(), hash);
    var answer := server.ReadBlobChunk(hash, offset, MAX_BLOB_CHUNK_BYTES);
    if answer.Err? { return Err(Remote(answer.error)); }
    var (total, complete, chunk) := answer.value;
    r := Ok(Range(offset, total, complete, chunk));
  }

  type Answers = nat -> Result<Range, TransferError>

  ghost predicate Honest(answers: Answers, content: Bytes) {
    |content| <= MAX_SAFE_INTEGER && forall o: nat :: answers(o) == HonestRange(content, o)
  }

  class Session {
    var closed: bool

    constructor ()
      ensures !closed
    {
      closed := false;
    }

    method Exchange(answers: Answers, offset: nat) returns (r: Result<Range, TransferError>)
      modifies this
      ensures r == if old(closed) then Err(Closed) else answers(offset)
      ensures closed == r.Err?
    {
      if closed { return Err(Closed); }
      r := answers(offset);
      if r.Err? { closed := true; }
    }

    /** One more range, checked against what has been announced so far. */
    method NextRange(answers: Answers, chunks: seq<Bytes>, offset: nat, total: Option<nat>, ghost content: Bytes)
      returns (r: Result<Range, TransferError>)
      requires offset == |Concat(chunks)| && (total.None? <==> chunks == [])
      requires total.Some? ==> !closed && offset < total.value && AnswersCover(answers, chunks, total.value)
      modifies this
      ensures closed == r.Err?
      ensures old(closed) ==> r == Err(Closed)
      ensures r.Ok? ==> AnswersCover(answers, chunks + [r.value.chunk], r.value.total)
      ensures r.Ok? ==> total.Some? ==> r.value.total == total.value
      ensures r.Ok? ==> r.value.complete || (|r.value.chunk| > 0 && offset + |r.value.chunk| <= r.value.total)
      ensures !old(closed) && Honest(answers, content) ==>
                r.Ok? && r.value.total == |content| && (r.value.complete <==> offset + |r.value.chunk| == |content|)
    {
      if total.Some? && Honest(answers, content) { HonestPrefix(answers, content, chunks, total.value); }
      r := Exchange(answers, offset);
      if r.Err? { return; }
      var range := r.value;
      if range.offset != offset || (total.Some? && range.total != total.value) {
        closed := true;
        return Err(InconsistentRange);
      }
      if !range.complete && (|range.chunk| == 0 || offset + |range.chunk| > range.total) {
        closed := true;
        return Err(InvalidRange);
      }
    }

    /** Reassembles a blob from whatever the server answers.  The loop ends for every server, any
        failure closes the session, the result is the server's ranges in order and of the announced
        length, and an honest server's blob arrives byte for byte. */
    method GetBlob(answers: Answers, ghost content: Bytes) returns (r: Result<Bytes, TransferError>)
      modifies this
      ensures closed == r.Err?
      ensures old(closed) ==> r == Err(Closed)
      ensures !old(closed) && Honest(answers, content) ==> r == Ok(content)
      ensures r.Ok? ==> exists chunks :: AnswersCover(answers, chunks, |r.value|) && r.value == Concat(chunks)
    {
      var chunks: seq<Bytes> := [];
      var offset: nat := 0;
      var total: Option<nat> := None;
      var complete := false;
      while !complete && (total.None? || offset < total.value)
        invariant total.None? ==> closed == old(closed) && chunks == [] && !complete
        invariant total.Some? ==> !closed && !old(closed) && AnswersCover(answers, chunks, total.value) && chunks != []
        invariant offset == |Concat(chunks)|
        invariant total.Some? && !complete ==> offset <= total.value
        invariant total.Some? && Honest(answers, content) ==>
                    total.value == |content| && offset <= |content| && (complete <==> offset == |content|)
        decreases total.None?, if total.Some? then total.value - offset else 0, !complete
      {
        var answer := NextRange(answers, chunks, offset, total, content);
        if answer.Err? { return Err(answer.error); }
        var range := answer.value;
        ConcatSnoc(chunks, range.chunk);
        total := Some(range.total);
        chunks := chunks + [range.chunk];
        offset := offset + |range.chunk|;
        complete := range.complete;
        if Honest(answers, content) { HonestPrefix(answers, content, chunks, range.total); }
      }
      if Honest(answers, content) && total.Some? { HonestPrefix(answers, content, chunks, total.value); }
      if total.None? || offset != total.value || total.value > MAX_SAFE_INTEGER {
        closed := true;
        return Err(InvalidLength);
      }
      var output := Assemble(chunks);
      assert Honest(answers, content) ==> output == content[..|output|] == content;
      r := Ok(output);
    }
  }

  /** `chunks` are the server's answers at the offsets they start at, all announcing `total`. */
  ghost predicate AnswersCover(answers: Answers, chunks: seq<Bytes>, total: nat)
    decreases |chunks|
  {
    chunks != [] ==>
      var before := chunks[..|chunks| - 1];
      && AnswersCover(answers, before, total)
      && answers(|Concat(before)|).Ok?
      && answers(|Concat(before)|).value.chunk == chunks[|chunks| - 1]
      && answers(|Concat(before)|).value.total == total
  }

  method Assemble(chunks: seq<Bytes>) returns (output: Bytes)
    ensures output == Concat(chunks)
  {
    output := [];
    var i := 0;
    while i < |chunks|
      invariant 0 <= i <= |chunks| && output == Concat(chunks[..i])
    {
      assert chunks[..i + 1] == chunks[..i] + [chunks[i]];
      ConcatSnoc(chunks[..i], chunks[i]);
      output := output + chunks[i];
      i := i + 1;
    }
    assert chunks[..i] == chunks;
  }

  function Concat(chunks: seq<Bytes>): Bytes
    decreases |chunks|
  {
    if chunks == [] then [] else Concat(chunks[..|chunks| - 1]) + chunks[|chunks| - 1]
  }

  lemma ConcatSnoc(chunks: seq<Bytes>, chunk: Bytes)
    ensures Concat(chunks + [chunk]) == Concat(chunks) + chunk
  {}

  /** Chunks cut by an honest server are a prefix of the blob. */
  lemma {:induction false} HonestPrefix(answers: Answers, content: Bytes, chunks: seq<Bytes>, total: nat)
    requires Honest(answers, content)
    requires AnswersCover(answers, chunks, total)
    ensures Concat(chunks) <= content
    ensures chunks != [] ==> total == |content|
    decreases |chunks|
  {
    if chunks != [] {
      var before := chunks[..|chunks| - 1];
      HonestPrefix(answers, content, before, total);
      var start := |Concat(before)|;
      var range := answers(start).value;
      assert content[..start + |range.chunk|] == content[..start] + range.chunk;
    }
  }

  /** What the server holds under its digest downloads as the very ciphertext: the session's answers are those of
      `RequestRange` on the server's tables. */
  method Download(server: B.Storage, hash: Digest) returns (r: Result<Bytes, TransferError>)
    requires Safe(server.State()) && hash in server.blobs
    ensures hash in server.objects && r == Ok(server.objects[hash])
  {
    assert BlobOk(server.State(), hash);
    var objects, blobs := server.objects, server.blobs;
    var answers := (offset: nat) => RangeAnswer(objects, blobs, hash, offset);
    forall offset: nat ensures answers(offset) == HonestRange(objects[hash], offset) {
      AnswersAreHonest(server.State(), hash, offset);
    }
    var session := new Session();
    r := session.GetBlob(answers, objects[hash]);
  }

  /** Upload followed by download returns the ciphertext. */
  method UploadThenDownload(server: B.Storage, device: Id, ciphertext: Bytes, available: nat, newId: Id)
    returns (r: Result<Bytes, TransferError>)
    requires Safe(server.State()) && HonestDevice(server, device)
    requires newId !in server.parts && newId !in server.uploads && newId !in server.accepted
    modifies server`parts, server`objects, server`uploads, server`blobs, server`accepted
    ensures Safe(server.State()) && HonestDevice(server, device)
    ensures r.Ok? <==> old(Admitted(server, device, ciphertext, available))
    ensures r.Ok? ==> r.value == ciphertext
  {
    var stored := UploadCiphertext(server, device, ciphertext, available, newId, ChunksFor(|ciphertext|) + 2, false);
    if stored.Err? { return Err(stored.error); }
    r := Download(server, stored.value);
  }
}
