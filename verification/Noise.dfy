/** Record framing over a Noise transport (crates/ll-crypto/src/noise.rs, crates/ll-protocol/src/limits.rs).  The
    cipher of one direction is an arbitrary authenticated map keyed by the message counter. */
module Noise {
  import opened Basics
  import opened Cbor
  import S = CommitStore
  import C = CommitRecord

  const NOISE_TAG_BYTES: nat := 16
  const MAX_NOISE_MESSAGE_BYTES: nat := 65_535
  const TRANSPORT_PLAINTEXT_RECORD_BYTES: nat := 60 * 1024
  const RECORD_LENGTH_BYTES: nat := 2
  const MAX_TRANSPORT_CIPHERTEXT_BYTES: nat := 1024 * 1024

  datatype Failure = InvalidTransportRecords | NoiseFailure

  /** One direction of a session: `seal(nonce, plaintext)` and its inverse. */
  datatype Cipher = Cipher(seal: (nat, Bytes) -> Bytes, unseal: (nat, Bytes) -> Option<Bytes>)

  /** Sealing appends a tag; unsealing gives a plaintext back from its sealed form and accepts nothing else. */
  ghost predicate Lawful(cipher: Cipher) {
    && (forall nonce: nat, plain: Bytes {:trigger cipher.seal(nonce, plain)} ::
          |cipher.seal(nonce, plain)| == |plain| + NOISE_TAG_BYTES)
    && (forall nonce: nat, plain: Bytes,
        sealed: Bytes {:trigger cipher.seal(nonce, plain), cipher.unseal(nonce, sealed)} ::
          cipher.unseal(nonce, sealed) == Some(plain) <==> cipher.seal(nonce, plain) == sealed)
  }

  /** The transport state of one end: the counters of the two directions. */
  class TransportState {
    const outgoing: Cipher
    const incoming: Cipher
    var sending: nat
    var receiving: nat

    constructor (outgoing: Cipher, incoming: Cipher)
      ensures this.outgoing == outgoing && this.incoming == incoming && sending == 0 && receiving == 0
    {
      this.outgoing, this.incoming, sending, receiving := outgoing, incoming, 0, 0;
    }

    method WriteMessage(payload: Bytes) returns (r: Result<Bytes, Failure>)
      modifies this`sending
      ensures r == if |payload| + NOISE_TAG_BYTES <= MAX_NOISE_MESSAGE_BYTES && old(sending) < U64_MAX
                   then Ok(outgoing.seal(old(sending), payload)) else Err(NoiseFailure)
      ensures sending == if r.Ok? then old(sending) + 1 else old(sending)
    {
      if |payload| + NOISE_TAG_BYTES > MAX_NOISE_MESSAGE_BYTES || sending >= U64_MAX { return Err(NoiseFailure); }
      r := Ok(outgoing.seal(sending, payload));
      sending := sending + 1;
    }

    method ReadMessage(message: Bytes) returns (r: Result<Bytes, Failure>)
      modifies this`receiving
      ensures r.Ok? <==> |message| <= MAX_NOISE_MESSAGE_BYTES && old(receiving) < U64_MAX
                           && incoming.unseal(old(receiving), message).Some?
      ensures r.Ok? ==> r.value == incoming.unseal(old(receiving), message).value
      ensures receiving == if r.Ok? then old(receiving) + 1 else old(receiving)
    {
      if |message| > MAX_NOISE_MESSAGE_BYTES || receiving >= U64_MAX { return Err(NoiseFailure); }
      var plain := incoming.unseal(receiving, message);
      if plain.None? { return Err(NoiseFailure); }
      r := Ok(plain.value);
      receiving := receiving + 1;
    }
  }

  // ----- what a record stream is

  /** A length prefix and one sealed message. */
  function Record(cipher: Cipher, nonce: nat, chunk: Bytes): (record: Bytes)
    ensures var sealed := cipher.seal(nonce, chunk);
            |sealed| < 0x1_0000 ==> record == [|sealed| / 0x100, |sealed| % 0x100] + sealed
  {
    var sealed := cipher.seal(nonce, chunk);
    if |sealed| < 0x1_0000 then
      TwoBytes(|sealed|);
      BigEndian(|sealed|, RECORD_LENGTH_BYTES) + sealed
    else BigEndian(|sealed|, RECORD_LENGTH_BYTES) + sealed
  }

  /** The chunks sealed one after the other with successive nonces. */
  function Stream(cipher: Cipher, nonce: nat, chunks: seq<Bytes>): Bytes
    decreases |chunks|
  {
    if chunks == [] then [] else Record(cipher, nonce, chunks[0]) + Stream(cipher, nonce + 1, chunks[1..])
  }

  /** `chunks(60 KiB)`. */
  function Chunks(plaintext: Bytes): seq<Bytes> {
    if plaintext == [] then []
    else if |plaintext| <= TRANSPORT_PLAINTEXT_RECORD_BYTES then [plaintext]
    else [plaintext[..TRANSPORT_PLAINTEXT_RECORD_BYTES]] + Chunks(plaintext[TRANSPORT_PLAINTEXT_RECORD_BYTES..])
  }

  /** The chunks make up the plaintext, are nonempty, all but the last of full length, and as many as precomputed. */
  lemma {:induction false} ChunksOfPlaintext(plaintext: Bytes)
    ensures forall i :: 0 <= i < |Chunks(plaintext)| - 1 ==> |Chunks(plaintext)[i]| == 61_440
    ensures Flatten(Chunks(plaintext)) == plaintext
    ensures forall i :: 0 <= i < |Chunks(plaintext)| ==> 0 < |Chunks(plaintext)[i]| <= TRANSPORT_PLAINTEXT_RECORD_BYTES
    ensures |Chunks(plaintext)| == RecordCount(|plaintext|)
  {
    if plaintext == [] {
    } else if |plaintext| <= TRANSPORT_PLAINTEXT_RECORD_BYTES {
      NothingAfter(plaintext);
    } else {
      var first, rest := plaintext[..TRANSPORT_PLAINTEXT_RECORD_BYTES], plaintext[TRANSPORT_PLAINTEXT_RECORD_BYTES..];
      ChunksOfPlaintext(rest);
      assert plaintext == first + rest;
    }
  }

  /** `div_ceil`. */
  function RecordCount(length: nat): nat {
    (length + TRANSPORT_PLAINTEXT_RECORD_BYTES - 1) / TRANSPORT_PLAINTEXT_RECORD_BYTES
  }

  function Capacity(length: nat): nat {
    length + RecordCount(length) * (RECORD_LENGTH_BYTES + NOISE_TAG_BYTES)
  }

  lemma {:induction false} StreamConcat(cipher: Cipher, nonce: nat, a: seq<Bytes>, b: seq<Bytes>)
    ensures Stream(cipher, nonce, a + b) == Stream(cipher, nonce, a) + Stream(cipher, nonce + |a|, b)
    decreases |a|
  {
    if a == [] {
      assert a + b == b;
    } else {
      StreamConcat(cipher, nonce + 1, a[1..], b);
      assert (a + b)[0] == a[0] && (a + b)[1..] == a[1..] + b;
      Associative(Record(cipher, nonce, a[0]), Stream(cipher, nonce + 1, a[1..]), Stream(cipher, nonce + |a|, b));
    }
  }

  /** A stream is its chunks plus 18 bytes each. */
  lemma {:induction false} StreamLength(cipher: Cipher, nonce: nat, chunks: seq<Bytes>)
    requires Lawful(cipher)
    ensures |Stream(cipher, nonce, chunks)| == |Flatten(chunks)| + 18 * |chunks|
    decreases |chunks|
  {
    if chunks != [] { StreamLength(cipher, nonce + 1, chunks[1..]); }
  }

  /** The precomputed capacity is the exact length of the records. */
  lemma CapacityIsExact(cipher: Cipher, nonce: nat, plaintext: Bytes)
    requires Lawful(cipher)
    ensures |Stream(cipher, nonce, Chunks(plaintext))| == Capacity(|plaintext|)
  {
    StreamLength(cipher, nonce, Chunks(plaintext));
    ChunksOfPlaintext(plaintext);
  }

  // ----- encryption

  /** Accepted exactly for a nonempty plaintext within the limit while nonces last. */
  ghost predicate Accepts(length: nat, sending: nat) {
    length > 0 && Capacity(length) <= MAX_TRANSPORT_CIPHERTEXT_BYTES && sending + RecordCount(length) <= U64_MAX
  }

  method SealChunks(transport: TransportState, chunks: seq<Bytes>) returns (r: Result<Bytes, Failure>)
    requires Lawful(transport.outgoing) && chunks != []
    requires forall i :: 0 <= i < |chunks| ==> |chunks[i]| <= TRANSPORT_PLAINTEXT_RECORD_BYTES
    modifies transport`sending
    ensures r.Ok? <==> old(transport.sending) + |chunks| <= U64_MAX
    ensures r.Ok? ==>
              && r.value == Stream(transport.outgoing, old(transport.sending), chunks)
              && transport.sending == old(transport.sending) + |chunks|
  {
    ghost var start := transport.sending;
    var records := [];
    for i := 0 to |chunks|
      invariant transport.sending == start + i && (i > 0 ==> transport.sending <= U64_MAX)
      invariant records == Stream(transport.outgoing, start, chunks[..i])
    {
      var record :- transport.WriteMessage(chunks[i]);
      assert |record| <= 0xffff;
      StreamSnoc(transport.outgoing, start, chunks, i);
      records := records + BigEndian(|record|, RECORD_LENGTH_BYTES) + record;
    }
    assert chunks[..|chunks|] == chunks;
    r := Ok(records);
  }

  /** The stream begins with the first chunk's sealed length, most significant byte first, and that sealed chunk. */
  ghost predicate BeginsWith(records: Bytes, sealed: Bytes) {
    && |records| >= 2 + |sealed| && records[0] == |sealed| / 0x100 && records[1] == |sealed| % 0x100
    && records[2..2 + |sealed|] == sealed
  }

  lemma FirstRecord(cipher: Cipher, nonce: nat, plaintext: Bytes)
    requires Lawful(cipher) && plaintext != []
    ensures BeginsWith(Stream(cipher, nonce, Chunks(plaintext)),
                       cipher.seal(nonce, plaintext[..Min(|plaintext|, 61_440)]))
  {
    var first := Chunks(plaintext)[0];
    assert first == plaintext[..Min(|plaintext|, 61_440)];
    var rest := Stream(cipher, nonce + 1, Chunks(plaintext)[1..]);
    assert Stream(cipher, nonce, Chunks(plaintext)) == Record(cipher, nonce, first) + rest;
  }

  method EncryptTransportRecords(transport: TransportState, plaintext: Bytes) returns (r: Result<Bytes, Failure>)
    requires Lawful(transport.outgoing)
    modifies transport`sending
    ensures r.Ok? <==> Accepts(|plaintext|, old(transport.sending))
    ensures r.Ok? ==>
              && r.value == Stream(transport.outgoing, old(transport.sending), Chunks(plaintext))
              && BeginsWith(r.value,
                            transport.outgoing.seal(old(transport.sending), plaintext[..Min(|plaintext|, 61_440)]))
              && |r.value| == |plaintext| + 18 * ((|plaintext| + 61_439) / 61_440)
              && transport.sending == old(transport.sending) + RecordCount(|plaintext|)
    ensures plaintext == [] || Capacity(|plaintext|) > MAX_TRANSPORT_CIPHERTEXT_BYTES ==>
              transport.sending == old(transport.sending)
  {
    if plaintext == [] { return Err(InvalidTransportRecords); }
    if Capacity(|plaintext|) > MAX_TRANSPORT_CIPHERTEXT_BYTES { return Err(InvalidTransportRecords); }
    CapacityIsExact(transport.outgoing, transport.sending, plaintext);
    FirstRecord(transport.outgoing, transport.sending, plaintext);
    ChunksOfPlaintext(plaintext);
    r := SealChunks(transport, Chunks(plaintext));
  }

  lemma StreamSnoc(cipher: Cipher, nonce: nat, chunks: seq<Bytes>, i: nat)
    requires i < |chunks|
    ensures var sealed := cipher.seal(nonce + i, chunks[i]);
            Stream(cipher, nonce, chunks[..i + 1]) ==
              Stream(cipher, nonce, chunks[..i]) + BigEndian(|sealed|, RECORD_LENGTH_BYTES) + sealed
  {
    assert chunks[..i + 1] == chunks[..i] + [chunks[i]];
    StreamConcat(cipher, nonce, chunks[..i], [chunks[i]]);
    NothingAfter(Record(cipher, nonce + i, chunks[i]));
    var sealed := cipher.seal(nonce + i, chunks[i]);
    Associative(Stream(cipher, nonce, chunks[..i]), BigEndian(|sealed|, RECORD_LENGTH_BYTES), sealed);
  }

  // ----- decryption

  /** The records are the chunks, sealed in order from this nonce, none longer than one Noise message. */
  ghost predicate Carries(cipher: Cipher, nonce: nat, chunks: seq<Bytes>, records: Bytes) {
    && records == Stream(cipher, nonce, chunks)
    && (forall i :: 0 <= i < |chunks| ==> |chunks[i]| + NOISE_TAG_BYTES <= MAX_NOISE_MESSAGE_BYTES)
    && nonce + |chunks| <= U64_MAX
  }

  lemma FlattenSnoc<T>(pieces: seq<seq<T>>, piece: seq<T>)
    ensures Flatten(pieces + [piece]) == Flatten(pieces) + piece
  {
    FlattenConcat(pieces, [piece]);
    NothingAfter(piece);
  }

  /** The record of this chunk stands at the cursor. */
  ghost predicate RecordAt(cipher: Cipher, nonce: nat, chunk: Bytes, records: Bytes, cursor: nat) {
    var end := cursor + 2 + |cipher.seal(nonce, chunk)|;
    && end <= |records|
    && FromBigEndian(records[cursor..cursor + 2]) == end - cursor - 2
    && records[cursor + 2..end] == cipher.seal(nonce, chunk)
  }

  /** The first record of a stream, as the cursor reads it. */
  lemma RecordAhead(cipher: Cipher, nonce: nat, chunks: seq<Bytes>, records: Bytes, cursor: nat)
    requires Lawful(cipher) && cursor <= |records| && chunks != []
    requires |chunks[0]| + NOISE_TAG_BYTES <= MAX_NOISE_MESSAGE_BYTES
    requires records[cursor..] == Stream(cipher, nonce, chunks)
    ensures RecordAt(cipher, nonce, chunks[0], records, cursor)
    ensures records[cursor + 2 + |cipher.seal(nonce, chunks[0])|..] == Stream(cipher, nonce + 1, chunks[1..])
  {
    var sealed := cipher.seal(nonce, chunks[0]);
    var prefix, rest := BigEndian(|sealed|, 2), Stream(cipher, nonce + 1, chunks[1..]);
    Widths();
    BigEndianReads(|sealed|, 2);
    Associative(prefix, sealed, rest);
    Slices(records, cursor, prefix, sealed + rest);
    Slices(records, cursor + 2, sealed, rest);
  }

  /** A record read at the cursor extends the stream read so far. */
  lemma RecordRead(cipher: Cipher, start: nat, chunks: seq<Bytes>, records: Bytes, cursor: nat, end: nat, clear: Bytes)
    requires cursor + 2 <= end <= |records| && records[..cursor] == Stream(cipher, start, chunks)
    requires FromBigEndian(records[cursor..cursor + 2]) == end - cursor - 2
    requires cipher.seal(start + |chunks|, clear) == records[cursor + 2..end]
    ensures records[..end] == Stream(cipher, start, chunks + [clear])
  {
    var all := chunks + [clear];
    StreamSnoc(cipher, start, all, |chunks|);
    assert all[..|chunks|] == chunks && all[..|chunks| + 1] == all;
    BigEndianWrites(records[cursor..cursor + 2]);
    assert records[..end] == records[..cursor] + records[cursor..cursor + 2] + records[cursor + 2..end];
  }

  /** The target's first chunks are the ones read, and the rest of the records carries the others. */
  ghost predicate OnTrack(cipher: Cipher, start: nat, target: Option<seq<Bytes>>, done: seq<Bytes>, records: Bytes,
                          cursor: nat)
    requires cursor <= |records|
  {
    target.Some? ==>
      && |done| <= |target.value| && done == target.value[..|done|]
      && records[cursor..] == Stream(cipher, start + |done|, target.value[|done|..])
  }

  lemma TrackNext(cipher: Cipher, start: nat, target: seq<Bytes>, done: seq<Bytes>, records: Bytes, cursor: nat)
    requires Lawful(cipher) && Carries(cipher, start, target, records) && cursor < |records|
    requires OnTrack(cipher, start, Some(target), done, records, cursor)
    ensures |done| < |target| && |target[|done|]| + NOISE_TAG_BYTES <= MAX_NOISE_MESSAGE_BYTES
    ensures RecordAt(cipher, start + |done|, target[|done|], records, cursor)
    ensures OnTrack(cipher, start, Some(target), done + [target[|done|]], records,
                    cursor + 2 + |cipher.seal(start + |done|, target[|done|])|)
  {
    var rest := target[|done|..];
    assert |records[cursor..]| > 0;
    assert rest != [];
    assert rest[0] == target[|done|] && rest[1..] == target[|done| + 1..];
    RecordAhead(cipher, start + |done|, rest, records, cursor);
    assert target[..|done| + 1] == done + [target[|done|]];
  }

  lemma UnsealRecord(cipher: Cipher, nonce: nat, chunk: Bytes)
    requires Lawful(cipher)
    ensures cipher.unseal(nonce, cipher.seal(nonce, chunk)) == Some(chunk)
    ensures |cipher.seal(nonce, chunk)| == |chunk| + NOISE_TAG_BYTES
  {}

  /** The records up to the cursor are the stream of the chunks read. */
  ghost predicate Decrypted(cipher: Cipher, start: nat, chunks: seq<Bytes>, records: Bytes, cursor: nat) {
    && cursor <= |records| && records[..cursor] == Stream(cipher, start, chunks)
    && (forall i :: 0 <= i < |chunks| ==> |chunks[i]| + NOISE_TAG_BYTES <= MAX_NOISE_MESSAGE_BYTES)
    && (chunks != [] ==> start + |chunks| <= U64_MAX)
  }

  /** The record at the cursor; the ghost `expected` is the chunk it is known to carry, if it is. */
  method ReadRecord(transport: TransportState, records: Bytes, cursor: nat, ghost expected: Option<Bytes>)
    returns (r: Result<(Bytes, nat), Failure>)
    requires Lawful(transport.incoming) && cursor < |records|
    requires expected.Some? ==>
               && RecordAt(transport.incoming, transport.receiving, expected.value, records, cursor)
               && |expected.value| + NOISE_TAG_BYTES <= MAX_NOISE_MESSAGE_BYTES && transport.receiving < U64_MAX
    modifies transport`receiving
    ensures expected.Some? ==> r.Ok? && r.value.0 == expected.value
    ensures r.Ok? ==>
              && RecordAt(transport.incoming, old(transport.receiving), r.value.0, records, cursor)
              && r.value.1 == cursor + 2 + |r.value.0| + NOISE_TAG_BYTES
              && |r.value.0| + NOISE_TAG_BYTES <= MAX_NOISE_MESSAGE_BYTES
              && transport.receiving == old(transport.receiving) + 1 <= U64_MAX
  {
    ghost var nonce := transport.receiving;
    if expected.Some? { UnsealRecord(transport.incoming, nonce, expected.value); }
    var lengthEnd := cursor + RECORD_LENGTH_BYTES;
    if lengthEnd > |records| { return Err(InvalidTransportRecords); }
    var length := FromBigEndian(records[cursor..lengthEnd]);
    if !(NOISE_TAG_BYTES <= length <= MAX_NOISE_MESSAGE_BYTES) { return Err(InvalidTransportRecords); }
    var recordEnd := lengthEnd + length;
    if recordEnd > |records| { return Err(InvalidTransportRecords); }
    var clear :- transport.ReadMessage(records[lengthEnd..recordEnd]);
    UnsealRecord(transport.incoming, nonce, clear);
    r := Ok((clear, recordEnd));
  }

  lemma DecryptedNext(cipher: Cipher, start: nat, chunks: seq<Bytes>, records: Bytes, cursor: nat, clear: Bytes)
    requires Lawful(cipher) && Decrypted(cipher, start, chunks, records, cursor)
    requires RecordAt(cipher, start + |chunks|, clear, records, cursor)
    requires |clear| + NOISE_TAG_BYTES <= MAX_NOISE_MESSAGE_BYTES && start + |chunks| < U64_MAX
    ensures Decrypted(cipher, start, chunks + [clear], records, cursor + 2 + |clear| + NOISE_TAG_BYTES)
  {
    UnsealRecord(cipher, start + |chunks|, clear);
    RecordRead(cipher, start, chunks, records, cursor, cursor + 2 + |clear| + NOISE_TAG_BYTES, clear);
  }

  lemma NextExpected(cipher: Cipher, start: nat, target: seq<Bytes>, done: seq<Bytes>, records: Bytes, cursor: nat)
    requires Lawful(cipher) && Carries(cipher, start, target, records) && cursor < |records|
    requires OnTrack(cipher, start, Some(target), done, records, cursor)
    ensures |done| < |target| && |target[|done|]| + NOISE_TAG_BYTES <= MAX_NOISE_MESSAGE_BYTES
    ensures RecordAt(cipher, start + |done|, target[|done|], records, cursor) && start + |done| < U64_MAX
    ensures OnTrack(cipher, start, Some(target), done + [target[|done|]], records,
                    cursor + 2 + |target[|done|]| + NOISE_TAG_BYTES)
  {
    TrackNext(cipher, start, target, done, records, cursor);
    UnsealRecord(cipher, start + |done|, target[|done|]);
  }

  /** One turn of the loop. */
  method DecryptRecord(transport: TransportState, records: Bytes, cursor: nat, ghost start: nat,
                       ghost chunks: seq<Bytes>,
                       ghost target: Option<seq<Bytes>>)
    returns (r: Result<(Bytes, nat), Failure>)
    requires Lawful(transport.incoming)
    requires Decrypted(transport.incoming, start, chunks, records, cursor) && cursor < |records|
    requires transport.receiving == start + |chunks|
    requires target.Some? ==> Carries(transport.incoming, start, target.value, records)
    requires OnTrack(transport.incoming, start, target, chunks, records, cursor)
    modifies transport`receiving
    ensures target.Some? ==> r.Ok?
    ensures r.Ok? ==>
              && cursor < r.value.1 && transport.receiving == start + |chunks| + 1
              && Decrypted(transport.incoming, start, chunks + [r.value.0], records, r.value.1)
              && OnTrack(transport.incoming, start, target, chunks + [r.value.0], records, r.value.1)
  {
    ghost var expected := None;
    if target.Some? {
      NextExpected(transport.incoming, start, target.value, chunks, records, cursor);
      expected := Some(target.value[|chunks|]);
    }
    var record :- ReadRecord(transport, records, cursor, expected);
    DecryptedNext(transport.incoming, start, chunks, records, cursor, record.0);
    r := Ok(record);
  }

  method DecryptAlong(transport: TransportState, records: Bytes, ghost target: Option<seq<Bytes>>)
    returns (r: Result<Bytes, Failure>, ghost chunks: seq<Bytes>)
    requires Lawful(transport.incoming)
    requires target.Some? ==> Carries(transport.incoming, transport.receiving, target.value, records)
    modifies transport`receiving
    ensures r.Ok? ==>
              && 0 < |records| <= MAX_TRANSPORT_CIPHERTEXT_BYTES
              && Carries(transport.incoming, old(transport.receiving), chunks, records) && r.value == Flatten(chunks)
              && transport.receiving == old(transport.receiving) + |chunks|
    ensures target.Some? && 0 < |records| <= MAX_TRANSPORT_CIPHERTEXT_BYTES ==> r.Ok? && chunks == target.value
  {
    chunks := [];
    if records == [] || |records| > MAX_TRANSPORT_CIPHERTEXT_BYTES { return Err(InvalidTransportRecords), chunks; }
    ghost var start := transport.receiving;
    var plaintext, cursor := [], 0;
    assert records[0..] == records && records[..0] == [];
    while cursor < |records|
      invariant transport.receiving == start + |chunks| && plaintext == Flatten(chunks)
      invariant Decrypted(transport.incoming, start, chunks, records, cursor) && (cursor > 0 ==> chunks != [])
      invariant OnTrack(transport.incoming, start, target, chunks, records, cursor)
      decreases |records| - cursor
    {
      var record := DecryptRecord(transport, records, cursor, start, chunks, target);
      if record.Err? { return Err(record.error), chunks; }
      FlattenSnoc(chunks, record.value.0);
      plaintext, chunks, cursor := plaintext + record.value.0, chunks + [record.value.0], record.value.1;
      StreamLength(transport.incoming, start, chunks);
      assert |plaintext| <= MAX_TRANSPORT_CIPHERTEXT_BYTES;
    }
    assert records[..cursor] == records;
    if target.Some? {
      TrackEnds(transport.incoming, start, target.value, chunks, records);
    }
    r := Ok(plaintext);
  }

  lemma TrackEnds(cipher: Cipher, start: nat, target: seq<Bytes>, done: seq<Bytes>, records: Bytes)
    requires Lawful(cipher) && OnTrack(cipher, start, Some(target), done, records, |records|)
    ensures done == target
  {}

  /** Decryption succeeds exactly on a stream of authentic records in order from the expected nonce on, whatever
      its chunking, and returns the concatenated chunks. */
  method DecryptTransportRecords(transport: TransportState, records: Bytes) returns (r: Result<Bytes, Failure>)
    requires Lawful(transport.incoming)
    modifies transport`receiving
    ensures r.Ok? <==>
            && 0 < |records| <= MAX_TRANSPORT_CIPHERTEXT_BYTES
            && exists chunks: seq<Bytes> :: Carries(transport.incoming, old(transport.receiving), chunks, records)
    ensures forall chunks: seq<Bytes> ::
              r.Ok? && Carries(transport.incoming, old(transport.receiving), chunks, records) ==>
              r.value == Flatten(chunks) && transport.receiving == old(transport.receiving) + |chunks|
  {
    ghost var start := transport.receiving;
    ghost var target := None;
    if chunks: seq<Bytes> :| Carries(transport.incoming, start, chunks, records) {
      target := Some(chunks);
    }
    ghost var read;
    r, read := DecryptAlong(transport, records, target);
    forall chunks: seq<Bytes> | r.Ok? && Carries(transport.incoming, start, chunks, records) ensures chunks == read {
      StreamsAreUnique(transport.incoming, start, chunks, read);
    }
  }

  lemma {:induction false} StreamsAreUnique(cipher: Cipher, nonce: nat, a: seq<Bytes>, b: seq<Bytes>)
    requires Lawful(cipher) && Stream(cipher, nonce, a) == Stream(cipher, nonce, b)
    requires forall i :: 0 <= i < |a| ==> |a[i]| + NOISE_TAG_BYTES <= MAX_NOISE_MESSAGE_BYTES
    requires forall i :: 0 <= i < |b| ==> |b[i]| + NOISE_TAG_BYTES <= MAX_NOISE_MESSAGE_BYTES
    ensures a == b
    decreases |a|
  {
    var records := Stream(cipher, nonce, a);
    StreamLength(cipher, nonce, a);
    StreamLength(cipher, nonce, b);
    if a != [] && b != [] {
      assert records[0..] == records;
      RecordAhead(cipher, nonce, a, records, 0);
      RecordAhead(cipher, nonce, b, records, 0);
      var x, y := cipher.seal(nonce, a[0]), cipher.seal(nonce, b[0]);
      assert x == y && cipher.unseal(nonce, x) == Some(a[0]) && cipher.unseal(nonce, y) == Some(b[0]);
      StreamsAreUnique(cipher, nonce + 1, a[1..], b[1..]);
      assert a == [a[0]] + a[1..] && b == [b[0]] + b[1..];
    }
  }

  lemma EncryptedIsCarried(cipher: Cipher, nonce: nat, plaintext: Bytes, records: Bytes) returns (chunks: seq<Bytes>)
    requires nonce + RecordCount(|plaintext|) <= U64_MAX && records == Stream(cipher, nonce, Chunks(plaintext))
    ensures Carries(cipher, nonce, chunks, records) && Flatten(chunks) == plaintext
    ensures |chunks| == RecordCount(|plaintext|)
  {
    chunks := Chunks(plaintext);
    ChunksOfPlaintext(plaintext);
  }

  /** What one end encrypts the other decrypts, and the two counters of the direction stay equal. */
  method Exchange(sender: TransportState, receiver: TransportState, plaintext: Bytes)
    returns (r: Result<Bytes, Failure>)
    requires sender != receiver && sender.outgoing == receiver.incoming && sender.sending == receiver.receiving
    requires Lawful(sender.outgoing)
    modifies sender`sending, receiver`receiving
    ensures Accepts(|plaintext|, old(sender.sending)) ==> r == Ok(plaintext) && sender.sending == receiver.receiving
    ensures r.Ok? ==> r.value == plaintext
  {
    ghost var nonce := receiver.receiving;
    var records :- EncryptTransportRecords(sender, plaintext);
    ghost var chunks := EncryptedIsCarried(receiver.incoming, nonce, plaintext, records);
    r := DecryptTransportRecords(receiver, records);
  }

  // ----- a page of changes

  const RESPONSE_CHANGES: nat := 13

  function CommitTokens(commits: seq<Bytes>): seq<Token> {
    seq(|commits|, i requires 0 <= i < |commits| => ByteString(commits[i]))
  }

  /** The tokens of a server message that carries `Response::Changes`. */
  function ChangesTokens(sequence: nat, commits: seq<Bytes>, hasMore: bool): seq<Token> {
    [ArrayOf(3), UInt(1), UInt(sequence), ArrayOf(3), UInt(RESPONSE_CHANGES), ArrayOf(|commits|)]
        + CommitTokens(commits)
      + [Bool(hasMore)]
  }

  ghost function CommitPieces(commits: seq<Bytes>): seq<Bytes>
    requires forall i :: 0 <= i < |commits| ==> |commits[i]| <= U64_MAX
  {
    seq(|commits|, i requires 0 <= i < |commits| => ShortestHead(2, |commits[i]|) + commits[i])
  }

  lemma CommitsAreSpelled(commits: seq<Bytes>)
    requires forall i :: 0 <= i < |commits| ==> |commits[i]| <= U64_MAX
    ensures Pieces(CommitTokens(commits)) == CommitPieces(commits)
  {
    forall i | 0 <= i < |commits| ensures Pieces(CommitTokens(commits))[i] == CommitPieces(commits)[i] {
      StringPiece(commits[i]);
    }
  }

  lemma ChangesHeaderIsSpelled(sequence: nat, count: nat)
    requires sequence <= U64_MAX && count <= U64_MAX
    ensures Pieces([ArrayOf(3), UInt(1), UInt(sequence), ArrayOf(3), UInt(RESPONSE_CHANGES), ArrayOf(count)]) ==
            [[0x83], [0x01], ShortestHead(0, sequence), [0x83], [0x0d], ShortestHead(4, count)]
  {
    ShortPiece(ArrayOf(3));
    ShortPiece(UInt(1));
    ShortPiece(UInt(13));
    HeadIsStandard(0, sequence);
    HeadIsStandard(4, count);
  }

  /** The message, spelled out: an array of three with the sequence and the array of three that is the response. */
  lemma ChangesIsSpelled(sequence: nat, commits: seq<Bytes>, hasMore: bool)
    requires sequence <= U64_MAX && |commits| <= U64_MAX
    requires forall i :: 0 <= i < |commits| ==> |commits[i]| <= U64_MAX
    ensures EncodeTokens(ChangesTokens(sequence, commits, hasMore)) ==
            Flatten([[0x83], [0x01], ShortestHead(0, sequence), [0x83], [0x0d], ShortestHead(4, |commits|)]
                      + CommitPieces(commits) + [if hasMore then [0xf5] else [0xf4]])
  {
    var header := [ArrayOf(3), UInt(1), UInt(sequence), ArrayOf(3), UInt(RESPONSE_CHANGES), ArrayOf(|commits|)];
    ChangesHeaderIsSpelled(sequence, |commits|);
    CommitsAreSpelled(commits);
    ShortPiece(Bool(hasMore));
    PiecesConcat(header, CommitTokens(commits));
    PiecesConcat(header + CommitTokens(commits), [Bool(hasMore)]);
    assert Pieces([Bool(hasMore)]) == [TokenBytes(Bool(hasMore))];
  }

  lemma CommitSize(commit: Bytes)
    requires |commit| <= C.MAX_SIGNED_COMMIT_BYTES
    ensures Size(ByteString(commit)) <= C.MAX_SIGNED_COMMIT_BYTES + 5
    ensures |commit| == C.MAX_SIGNED_COMMIT_BYTES ==> Size(ByteString(commit)) == C.MAX_SIGNED_COMMIT_BYTES + 5
  {}

  lemma CommitTokensStep(commits: seq<Bytes>)
    requires commits != []
    ensures |EncodeTokens(CommitTokens(commits))| ==
            Size(ByteString(commits[0])) + |EncodeTokens(CommitTokens(commits[1..]))|
  {
    assert CommitTokens(commits)[1..] == CommitTokens(commits[1..]);
    EncodeCons(CommitTokens(commits));
  }

  lemma {:induction false} CommitTokensSize(commits: seq<Bytes>)
    requires forall i :: 0 <= i < |commits| ==> |commits[i]| <= C.MAX_SIGNED_COMMIT_BYTES
    ensures |EncodeTokens(CommitTokens(commits))| <= (C.MAX_SIGNED_COMMIT_BYTES + 5) * |commits|
  {
    if commits != [] {
      CommitTokensSize(commits[1..]);
      CommitTokensStep(commits);
      CommitSize(commits[0]);
    }
  }

  lemma {:induction false} FullCommitTokensSize(commits: seq<Bytes>)
    requires forall i :: 0 <= i < |commits| ==> |commits[i]| == C.MAX_SIGNED_COMMIT_BYTES
    ensures |EncodeTokens(CommitTokens(commits))| == (C.MAX_SIGNED_COMMIT_BYTES + 5) * |commits|
  {
    if commits != [] {
      FullCommitTokensSize(commits[1..]);
      CommitTokensStep(commits);
      CommitSize(commits[0]);
    }
  }

  lemma ChangesSize(sequence: nat, commits: seq<Bytes>, hasMore: bool)
    ensures var size := |EncodeTokens(ChangesTokens(sequence, commits, hasMore))|;
            var body := |EncodeTokens(CommitTokens(commits))|;
            body + 6 <= size <= body + 30
  {
    var header := [ArrayOf(3), UInt(1), UInt(sequence), ArrayOf(3), UInt(RESPONSE_CHANGES), ArrayOf(|commits|)];
    var tail := [Bool(hasMore)];
    EncodeConcat(header, CommitTokens(commits));
    EncodeConcat(header + CommitTokens(commits), tail);
    EncodeCons(tail);
    SizeFrom(header, 0); SizeFrom(header, 1); SizeFrom(header, 2);
    SizeFrom(header, 3); SizeFrom(header, 4); SizeFrom(header, 5);
    assert header[0..] == header;
  }

  /** A page of at most three commits of any permitted size passes the transport limit. */
  lemma FullPageFits(sequence: nat, commits: seq<Bytes>, hasMore: bool)
    requires |commits| <= S.MAX_CHANGES_PER_RESPONSE
    requires forall i :: 0 <= i < |commits| ==> |commits[i]| <= C.MAX_SIGNED_COMMIT_BYTES
    ensures var length := |EncodeTokens(ChangesTokens(sequence, commits, hasMore))|;
            length > 0 && Capacity(length) <= MAX_TRANSPORT_CIPHERTEXT_BYTES
  {
    CommitTokensSize(commits);
    ChangesSize(sequence, commits, hasMore);
  }

  /** Three is the largest page size with that property. */
  lemma PageLimitIsTight(sequence: nat, commits: seq<Bytes>, hasMore: bool)
    requires |commits| > S.MAX_CHANGES_PER_RESPONSE
    requires forall i :: 0 <= i < |commits| ==> |commits[i]| == C.MAX_SIGNED_COMMIT_BYTES
    ensures Capacity(|EncodeTokens(ChangesTokens(sequence, commits, hasMore))|) > MAX_TRANSPORT_CIPHERTEXT_BYTES
  {
    FullCommitTokensSize(commits);
    ChangesSize(sequence, commits, hasMore);
  }

  /** Every page the server answers with passes the transport, whatever the permitted sizes of its records. */
  lemma EveryPageFits(db: S.Db, known: set<Id>, maximum: nat, page: seq<Id>, hasMore: bool, commits: seq<Bytes>,
                      sequence: nat)
    requires maximum <= S.MAX_CHANGES_PER_RESPONSE && S.IsPage(db, known, maximum, page, hasMore)
    requires |commits| == |page| && forall i :: 0 <= i < |commits| ==> |commits[i]| <= C.MAX_SIGNED_COMMIT_BYTES
    ensures var length := |EncodeTokens(ChangesTokens(sequence, commits, hasMore))|;
            length > 0 && Capacity(length) <= MAX_TRANSPORT_CIPHERTEXT_BYTES
  {
    FullPageFits(sequence, commits, hasMore);
  }
}
