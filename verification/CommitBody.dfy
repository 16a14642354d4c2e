/** The commit-body encoding (crates/ll-versioning/src/manifest.rs). */
module BodyCodec {
  import opened Basics
  import opened Cbor
  import opened Manifest

  method ValidateCommitBody(body: CommitBody) returns (error: Option<Error>)
    ensures error.None? <==> ValidBody(body)
  {
    if body.logicalTimestamp == 0 || |body.operations| > MAX_OPERATIONS
        || |body.conflictObjects| > MAX_CONFLICT_OBJECTS {
      return Some(InvalidFormat);
    }
    var n := 1;
    while n < |body.operations|
      invariant forall k ::
                  0 <= k < n - 1 && k < |body.operations| - 1 ==> KeyLess(body.operations[k], body.operations[k + 1])
    {
      if !KeyLess(body.operations[n - 1], body.operations[n]) { return Some(InvalidFormat); }
      n := n + 1;
    }
    n := 1;
    while n < |body.conflictObjects|
      invariant forall k :: 0 <= k < n - 1 && k < |body.conflictObjects| - 1 ==>
                  Less(body.conflictObjects[k], body.conflictObjects[k + 1])
    {
      if !Less(body.conflictObjects[n - 1], body.conflictObjects[n]) { return Some(InvalidFormat); }
      n := n + 1;
    }
    for i := 0 to |body.operations|
      invariant forall k :: 0 <= k < i ==> ValidOperation(body.operations[k])
    {
      var operation := body.operations[i];
      if operation.baseRevision == U64_MAX { return Some(LimitExceeded); }
      var expectedRevision := operation.baseRevision + 1;
      if || operation.revision == 0
         || (operation.kind.Create? && operation.baseRevision != 0)
         || (!operation.kind.Create? && operation.baseRevision == 0)
         || operation.revision != expectedRevision
         || !ShapeIsValid(operation) {
        return Some(InvalidFormat);
      }
    }
    error := None;
  }

  // ----- token streams

  function OperationTokens(op: Operation): (tokens: seq<Token>)
    ensures |tokens| == 7
  {
    [ArrayOf(6), UInt(KindCode(op.kind)), ByteString(op.objectId), UInt(op.baseRevision), UInt(op.revision),
     OptionalBytes(op.encryptedPathBlobId), OptionalBytes(op.contentBlobId)]
  }

  function OperationsTokens(ops: seq<Operation>): seq<Token> {
    if ops == [] then [] else OperationTokens(ops[0]) + OperationsTokens(ops[1..])
  }

  function BodyHeader(body: CommitBody): (tokens: seq<Token>)
    ensures |tokens| == 7
  {
    [MapOf(7), UInt(0), UInt(PROTOCOL_VERSION), UInt(1), UInt(body.logicalTimestamp), UInt(2),
     ArrayOf(|body.operations|)]
  }

  function BodyMiddle(body: CommitBody): (tokens: seq<Token>)
    ensures |tokens| == 8
  {
    [UInt(3), ByteString(body.manifestRoot), UInt(4), ByteString(body.manifestBlobId), UInt(5),
     OptionalBytes(body.mergeBase), UInt(6), ArrayOf(|body.conflictObjects|)]
  }

  function ConflictTokens(ids: seq<Bytes16>): (tokens: seq<Token>)
    ensures |tokens| == |ids|
  {
    seq(|ids|, i requires 0 <= i < |ids| => ByteString(ids[i]))
  }

  function BodyTokens(body: CommitBody): seq<Token> {
    BodyHeader(body) + OperationsTokens(body.operations) + BodyMiddle(body) + ConflictTokens(body.conflictObjects)
  }

  /** The one encoding of a commit body. */
  function BodyBytes(body: CommitBody): Bytes {
    EncodeTokens(BodyTokens(body))
  }

  lemma {:induction false} OperationsLength(ops: seq<Operation>)
    ensures |OperationsTokens(ops)| == 7 * |ops|
  {
    if ops != [] { OperationsLength(ops[1..]); }
  }

  lemma {:induction false} OperationsFit(ops: seq<Operation>)
    ensures AllFit(OperationsTokens(ops))
  {
    if ops != [] {
      OperationsFit(ops[1..]);
      var first := OperationTokens(ops[0]);
      forall t | t in first ensures Fits(t) {}
    }
  }

  lemma BodyFits(body: CommitBody)
    requires |body.operations| <= MAX_OPERATIONS && |body.conflictObjects| <= MAX_CONFLICT_OBJECTS
    ensures AllFit(BodyTokens(body))
  {
    OperationsFit(body.operations);
    forall t | t in BodyHeader(body) ensures Fits(t) {}
    forall t | t in BodyMiddle(body) ensures Fits(t) {}
    forall t | t in ConflictTokens(body.conflictObjects) ensures Fits(t) {}
  }

  // ----- the encoding byte by byte

  ghost function KindByte(kind: OperationKind): Byte {
    match kind
    case Create => 0x01 case Modify => 0x02 case Rename => 0x03 case DeleteTombstone => 0x04 case Merge => 0x05
  }

  /** An array of six: kind, object, the two revisions, path and content. */
  ghost function OperationPieces(op: Operation): (pieces: seq<Bytes>)
    ensures |pieces| == 7
  {
    [[0x86], [KindByte(op.kind)], [0x50] + op.objectId, ShortestHead(0, op.baseRevision), ShortestHead(0, op.revision),
     OptionalPiece(op.encryptedPathBlobId), OptionalPiece(op.contentBlobId)]
  }

  ghost function OperationsPieces(ops: seq<Operation>): seq<Bytes> {
    if ops == [] then [] else OperationPieces(ops[0]) + OperationsPieces(ops[1..])
  }

  ghost function ConflictPieces(ids: seq<Bytes16>): seq<Bytes> {
    seq(|ids|, i requires 0 <= i < |ids| => [0x50] + ids[i])
  }

  /** A map of seven: version, timestamp, operations, manifest root and blob, merge base and conflicts. */
  ghost function BodyFile(body: CommitBody): Bytes
    requires |body.operations| <= MAX_OPERATIONS && |body.conflictObjects| <= MAX_CONFLICT_OBJECTS
  {
    Flatten([[0xa7], [0x00], [0x01], [0x01], ShortestHead(0, body.logicalTimestamp), [0x02],
             ShortestHead(4, |body.operations|)] + OperationsPieces(body.operations)
              + [[0x03], [0x58, 0x20] + body.manifestRoot, [0x04], [0x58, 0x20] + body.manifestBlobId, [0x05],
                 OptionalPiece(body.mergeBase), [0x06], ShortestHead(4, |body.conflictObjects|)]
              + ConflictPieces(body.conflictObjects))
  }

  lemma KindIsSpelled(kind: OperationKind)
    ensures TokenBytes(UInt(KindCode(kind))) == [KindByte(kind)]
  {
    ShortPiece(UInt(KindCode(kind)));
  }

  lemma OperationIsSpelled(op: Operation)
    ensures Pieces(OperationTokens(op)) == OperationPieces(op)
  {
    ShortPiece(ArrayOf(6));
    KindIsSpelled(op.kind);
    StringPiece(op.objectId);
    HeadIsStandard(0, op.baseRevision);
    HeadIsStandard(0, op.revision);
    OptionalIsSpelled(op.encryptedPathBlobId);
    OptionalIsSpelled(op.contentBlobId);
  }

  lemma {:induction false} OperationsAreSpelled(ops: seq<Operation>)
    ensures Pieces(OperationsTokens(ops)) == OperationsPieces(ops)
  {
    if ops != [] {
      OperationsAreSpelled(ops[1..]);
      OperationIsSpelled(ops[0]);
      PiecesConcat(OperationTokens(ops[0]), OperationsTokens(ops[1..]));
    }
  }

  lemma BodyHeaderIsSpelled(body: CommitBody)
    requires |body.operations| <= MAX_OPERATIONS
    ensures Pieces(BodyHeader(body)) ==
            [[0xa7], [0x00], [0x01], [0x01], ShortestHead(0, body.logicalTimestamp), [0x02],
             ShortestHead(4, |body.operations|)]
  {
    ShortPiece(MapOf(7));
    ShortPiece(UInt(0));
    ShortPiece(UInt(1));
    ShortPiece(UInt(2));
    HeadIsStandard(0, body.logicalTimestamp);
    HeadIsStandard(4, |body.operations|);
  }

  lemma MiddleIsSpelled(body: CommitBody)
    requires |body.conflictObjects| <= MAX_CONFLICT_OBJECTS
    ensures Pieces(BodyMiddle(body)) ==
            [[0x03], [0x58, 0x20] + body.manifestRoot, [0x04], [0x58, 0x20] + body.manifestBlobId, [0x05],
             OptionalPiece(body.mergeBase), [0x06], ShortestHead(4, |body.conflictObjects|)]
  {
    ShortPiece(UInt(3));
    ShortPiece(UInt(4));
    ShortPiece(UInt(5));
    ShortPiece(UInt(6));
    StringPiece(body.manifestRoot);
    StringPiece(body.manifestBlobId);
    OptionalIsSpelled(body.mergeBase);
    HeadIsStandard(4, |body.conflictObjects|);
  }

  lemma ConflictsAreSpelled(ids: seq<Bytes16>)
    ensures Pieces(ConflictTokens(ids)) == ConflictPieces(ids)
  {
    forall i | 0 <= i < |ids| ensures Pieces(ConflictTokens(ids))[i] == ConflictPieces(ids)[i] { StringPiece(ids[i]); }
  }

  /** The bytes of a commit body, spelled out. */
  lemma BodyIsSpelled(body: CommitBody)
    requires |body.operations| <= MAX_OPERATIONS && |body.conflictObjects| <= MAX_CONFLICT_OBJECTS
    ensures BodyBytes(body) == BodyFile(body)
  {
    BodyHeaderIsSpelled(body);
    OperationsAreSpelled(body.operations);
    MiddleIsSpelled(body);
    ConflictsAreSpelled(body.conflictObjects);
    var a, b := BodyHeader(body) + OperationsTokens(body.operations), BodyMiddle(body);
    PiecesConcat(BodyHeader(body), OperationsTokens(body.operations));
    PiecesConcat(a, b);
    PiecesConcat(a + b, ConflictTokens(body.conflictObjects));
  }

  // ----- the encoder

  method WriteOperations(encoder: Encoder, operations: seq<Operation>)
    modifies encoder
    ensures encoder.output == old(encoder.output) + EncodeTokens(OperationsTokens(operations))
  {
    ghost var start := encoder.output;
    assert operations[0..] == operations;
    for i := 0 to |operations|
      invariant encoder.output + EncodeTokens(OperationsTokens(operations[i..])) ==
          start + EncodeTokens(OperationsTokens(operations))
    {
      var rest := operations[i + 1..];
      assert operations[i..][0] == operations[i] && operations[i..][1..] == rest;
      EncodeConcat(OperationTokens(operations[i]), OperationsTokens(rest));
      Associative(encoder.output, EncodeTokens(OperationTokens(operations[i])), EncodeTokens(OperationsTokens(rest)));
      encoder.Write(OperationTokens(operations[i]));
    }
    NothingAfter(encoder.output);
  }

  lemma BodyInParts(body: CommitBody)
    ensures BodyBytes(body) == EncodeTokens(BodyHeader(body)) + EncodeTokens(OperationsTokens(body.operations))
                                 + EncodeTokens(BodyMiddle(body)) + EncodeTokens(ConflictTokens(body.conflictObjects))
  {
    var header, operations := BodyHeader(body), OperationsTokens(body.operations);
    EncodeConcat(header, operations);
    EncodeConcat(header + operations, BodyMiddle(body));
    EncodeConcat(header + operations + BodyMiddle(body), ConflictTokens(body.conflictObjects));
  }

  method WriteBody(body: CommitBody) returns (output: Bytes)
    ensures output == BodyBytes(body)
  {
    var encoder := new Encoder();
    encoder.Write(BodyHeader(body));
    WriteOperations(encoder, body.operations);
    encoder.Write(BodyMiddle(body));
    encoder.Write(ConflictTokens(body.conflictObjects));
    BodyInParts(body);
    output := encoder.output;
    assert [] + EncodeTokens(BodyHeader(body)) == EncodeTokens(BodyHeader(body));
  }

  method EncodeCommitBody(body: CommitBody) returns (r: Result<Bytes, Error>)
    ensures r.Ok? <==> ValidBody(body) && |BodyBytes(body)| <= MAX_COMMIT_BODY_BYTES
    ensures r.Ok? ==> r.value == BodyBytes(body) == BodyFile(body)
  {
    var error := ValidateCommitBody(body);
    if error.Some? { return Err(error.value); }
    BodyIsSpelled(body);
    var output := WriteBody(body);
    if |output| > MAX_COMMIT_BODY_BYTES { return Err(LimitExceeded); }
    r := Ok(output);
  }

  // ----- the decoder

  method DecodeBodyHeader(d: Decoder, ghost target: Option<CommitBody>) returns (r: Result<(U64, nat), Error>)
    requires d.Valid() && (target.Some? ==> d.Follows(BodyHeader(target.value)))
    modifies d
    ensures d.Valid()
    ensures target.Some? ==>
              r == Ok((target.value.logicalTimestamp, |target.value.operations|)) && d.following
                  && d.at == old(d.at) + 7
  {
    ghost var start := d.at;
    if target.Some? {
      var tokens := BodyHeader(target.value);
      assert d.script[start + 0] == tokens[0] && d.script[start + 1] == tokens[1] && d.script[start + 2] == tokens[2];
      assert d.script[start + 3] == tokens[3] && d.script[start + 4] == tokens[4] && d.script[start + 5] == tokens[5];
      assert d.script[start + 6] == tokens[6];
    }
    var _ :- d.Expect(MapOf(7));
    var _ :- d.Expect(UInt(0));
    var _ :- d.Expect(UInt(PROTOCOL_VERSION));
    var _ :- d.Expect(UInt(1));
    var timestamp :- d.ReadUInt(U64_MAX);
    var _ :- d.Expect(UInt(2));
    var count :- d.ReadArray();
    r := Ok((timestamp, count));
  }

  method DecodeKindAndObject(d: Decoder, ghost target: Option<Operation>)
    returns (r: Result<(OperationKind, Bytes16), Error>)
    requires d.Valid() && (target.Some? ==> d.Follows(OperationTokens(target.value)))
    modifies d
    ensures d.Valid()
    ensures target.Some? ==> r == Ok((target.value.kind, target.value.objectId)) && d.following && d.at == old(d.at) + 3
  {
    ghost var start := d.at;
    if target.Some? {
      var tokens := OperationTokens(target.value);
      assert d.script[start + 0] == tokens[0] && d.script[start + 1] == tokens[1] && d.script[start + 2] == tokens[2];
    }
    var _ :- d.Expect(ArrayOf(6));
    var code :- d.ReadUInt(255);
    if KindOf(code).None? { return Err(InvalidFormat); }
    var objectId :- ReadFixed16(d);
    r := Ok((KindOf(code).value, objectId));
  }

  method DecodeOperationIdentity(d: Decoder, ghost target: Option<Operation>)
    returns (r: Result<(OperationKind, Bytes16, U64, U64), Error>)
    requires d.Valid() && (target.Some? ==> d.Follows(OperationTokens(target.value)))
    modifies d
    ensures d.Valid()
    ensures target.Some? ==>
              && r == Ok((target.value.kind, target.value.objectId, target.value.baseRevision, target.value.revision))
              && d.following && d.at == old(d.at) + 5
  {
    ghost var start := d.at;
    if target.Some? {
      var tokens := OperationTokens(target.value);
      assert d.script[start + 3] == tokens[3] && d.script[start + 4] == tokens[4];
    }
    var first :- DecodeKindAndObject(d, target);
    var baseRevision :- d.ReadUInt(U64_MAX);
    var revision :- d.ReadUInt(U64_MAX);
    r := Ok((first.0, first.1, baseRevision, revision));
  }

  method DecodeOperation(d: Decoder, ghost target: Option<Operation>) returns (r: Result<Operation, Error>)
    requires d.Valid() && (target.Some? ==> d.Follows(OperationTokens(target.value)))
    modifies d
    ensures d.Valid()
    ensures target.Some? ==> r == Ok(target.value) && d.following && d.at == old(d.at) + 7
  {
    ghost var start := d.at;
    if target.Some? {
      var tokens := OperationTokens(target.value);
      assert d.script[start + 5] == tokens[5] && d.script[start + 6] == tokens[6];
    }
    var identity :- DecodeOperationIdentity(d, target);
    var encryptedPathBlobId :- ReadOptional32(d);
    var contentBlobId :- ReadOptional32(d);
    r := Ok(Operation(identity.0, identity.1, identity.2, identity.3, encryptedPathBlobId, contentBlobId));
  }

  method DecodeManifestReference(d: Decoder, ghost target: Option<CommitBody>)
    returns (r: Result<(Bytes32, Bytes32), Error>)
    requires d.Valid() && (target.Some? ==> d.Follows(BodyMiddle(target.value)))
    modifies d
    ensures d.Valid()
    ensures target.Some? ==>
              r == Ok((target.value.manifestRoot, target.value.manifestBlobId)) && d.following && d.at == old(d.at) + 4
  {
    ghost var start := d.at;
    if target.Some? {
      var tokens := BodyMiddle(target.value);
      assert d.script[start + 0] == tokens[0] && d.script[start + 1] == tokens[1];
      assert d.script[start + 2] == tokens[2] && d.script[start + 3] == tokens[3];
    }
    var _ :- d.Expect(UInt(3));
    var manifestRoot :- ReadFixed32(d);
    var _ :- d.Expect(UInt(4));
    var manifestBlobId :- ReadFixed32(d);
    r := Ok((manifestRoot, manifestBlobId));
  }

  method DecodeBodyMiddle(d: Decoder, ghost target: Option<CommitBody>)
    returns (r: Result<(Bytes32, Bytes32, Option<Bytes32>, nat), Error>)
    requires d.Valid() && (target.Some? ==> d.Follows(BodyMiddle(target.value)))
    modifies d
    ensures d.Valid()
    ensures target.Some? ==>
              && r == Ok((target.value.manifestRoot, target.value.manifestBlobId, target.value.mergeBase,
                          |target.value.conflictObjects|))
              && d.following && d.at == old(d.at) + 8
  {
    ghost var start := d.at;
    if target.Some? {
      var tokens := BodyMiddle(target.value);
      assert d.script[start + 4] == tokens[4] && d.script[start + 5] == tokens[5];
      assert d.script[start + 6] == tokens[6] && d.script[start + 7] == tokens[7];
    }
    var manifest :- DecodeManifestReference(d, target);
    var _ :- d.Expect(UInt(5));
    var mergeBase :- ReadOptional32(d);
    var _ :- d.Expect(UInt(6));
    var count :- d.ReadArray();
    r := Ok((manifest.0, manifest.1, mergeBase, count));
  }

  // ----- where the cursor stands

  lemma {:induction false} OperationInTokens(ops: seq<Operation>, i: nat, k: nat)
    requires i < |ops| && k < 7
    ensures 7 * i + k < |OperationsTokens(ops)|
    ensures OperationsTokens(ops)[7 * i + k] == OperationTokens(ops[i])[k]
  {
    if i > 0 { OperationInTokens(ops[1..], i - 1, k); }
  }

  /** The cursor stands before operation `i`; after the last one, before the middle. */
  ghost predicate AtOperation(d: Decoder, body: CommitBody, i: nat)
    reads d
  {
    d.script == BodyTokens(body) && d.following && i <= |body.operations| && d.at == 7 + 7 * i
  }

  /** The cursor stands before conflict `i`; after the last one, at the end. */
  ghost predicate AtConflict(d: Decoder, body: CommitBody, i: nat)
    reads d
  {
    d.script == BodyTokens(body) && d.following && i <= |body.conflictObjects| && d.at == 15 + 7 * |body.operations| + i
  }

  lemma HeaderFollows(d: Decoder, body: CommitBody)
    requires d.script == BodyTokens(body) && d.following && d.at == 0
    ensures d.Follows(BodyHeader(body))
  {}

  lemma OperationFollows(d: Decoder, body: CommitBody, i: nat)
    requires AtOperation(d, body, i) && i < |body.operations|
    ensures d.Follows(OperationTokens(body.operations[i]))
  {
    var tokens := OperationTokens(body.operations[i]);
    OperationsLength(body.operations);
    forall k | 0 <= k < 7 ensures d.at + k < |d.script| && d.script[d.at + k] == tokens[k] {
      OperationInTokens(body.operations, i, k);
      assert BodyTokens(body)[7 + (7 * i + k)] == OperationsTokens(body.operations)[7 * i + k];
    }
  }

  lemma MiddleFollows(d: Decoder, body: CommitBody)
    requires AtOperation(d, body, |body.operations|)
    ensures d.Follows(BodyMiddle(body))
  {
    OperationsLength(body.operations);
    var before := BodyHeader(body) + OperationsTokens(body.operations);
    assert BodyTokens(body) == before + (BodyMiddle(body) + ConflictTokens(body.conflictObjects));
  }

  lemma ConflictFollows(d: Decoder, body: CommitBody, i: nat)
    requires AtConflict(d, body, i) && i < |body.conflictObjects|
    ensures d.Coming() && d.script[d.at] == ByteString(body.conflictObjects[i])
  {
    OperationsLength(body.operations);
  }

  lemma BodyEnds(d: Decoder, body: CommitBody)
    requires d.Valid() && AtConflict(d, body, |body.conflictObjects|)
    ensures d.pos == |d.input|
  {
    OperationsLength(body.operations);
  }

  ghost predicate OperationsRead(d: Decoder, target: Option<CommitBody>, ops: seq<Operation>)
    reads d
  {
    target.Some? ==> AtOperation(d, target.value, |ops|) && ops == target.value.operations[..|ops|]
  }

  method DecodeNextOperation(d: Decoder, ops: seq<Operation>, ghost target: Option<CommitBody>)
    returns (r: Result<seq<Operation>, Error>)
    requires d.Valid() && OperationsRead(d, target, ops) && (target.Some? ==> |ops| < |target.value.operations|)
    modifies d
    ensures d.Valid() && (target.Some? ==> r.Ok?)
    ensures r.Ok? ==> |r.value| == |ops| + 1 && OperationsRead(d, target, r.value)
  {
    if target.Some? { OperationFollows(d, target.value, |ops|); }
    var op :- DecodeOperation(d, if target.Some? then Some(target.value.operations[|ops|]) else None);
    r := Ok(ops + [op]);
  }

  method DecodeOperations(d: Decoder, count: nat, ghost target: Option<CommitBody>)
    returns (r: Result<seq<Operation>, Error>)
    requires d.Valid() && OperationsRead(d, target, []) && (target.Some? ==> count == |target.value.operations|)
    modifies d
    ensures d.Valid() && (target.Some? ==> r.Ok?)
    ensures r.Ok? ==> |r.value| == count && OperationsRead(d, target, r.value)
  {
    var ops := [];
    for i := 0 to count
      invariant d.Valid() && |ops| == i && OperationsRead(d, target, ops)
    {
      ops :- DecodeNextOperation(d, ops, target);
    }
    r := Ok(ops);
  }

  ghost predicate ConflictsRead(d: Decoder, target: Option<CommitBody>, ids: seq<Bytes16>)
    reads d
  {
    target.Some? ==> AtConflict(d, target.value, |ids|) && ids == target.value.conflictObjects[..|ids|]
  }

  method DecodeNextConflict(d: Decoder, ids: seq<Bytes16>, ghost target: Option<CommitBody>)
    returns (r: Result<seq<Bytes16>, Error>)
    requires d.Valid() && ConflictsRead(d, target, ids) && (target.Some? ==> |ids| < |target.value.conflictObjects|)
    modifies d
    ensures d.Valid() && (target.Some? ==> r.Ok?)
    ensures r.Ok? ==> |r.value| == |ids| + 1 && ConflictsRead(d, target, r.value)
  {
    if target.Some? { ConflictFollows(d, target.value, |ids|); }
    var id :- ReadFixed16(d);
    r := Ok(ids + [id]);
  }

  method DecodeConflicts(d: Decoder, count: nat, ghost target: Option<CommitBody>)
    returns (r: Result<seq<Bytes16>, Error>)
    requires d.Valid() && ConflictsRead(d, target, []) && (target.Some? ==> count == |target.value.conflictObjects|)
    modifies d
    ensures d.Valid() && (target.Some? ==> r.Ok?)
    ensures r.Ok? ==> |r.value| == count && ConflictsRead(d, target, r.value)
  {
    var ids := [];
    for i := 0 to count
      invariant d.Valid() && |ids| == i && ConflictsRead(d, target, ids)
    {
      ids :- DecodeNextConflict(d, ids, target);
    }
    r := Ok(ids);
  }

  /** The input is the encoding of a valid commit body. */
  ghost predicate IsBody(input: Bytes, body: CommitBody) {
    ValidBody(body) && input == BodyBytes(body)
  }

  method DecodeWithin(input: Bytes, ghost target: Option<CommitBody>) returns (r: Result<CommitBody, Error>)
    requires |input| <= MAX_COMMIT_BODY_BYTES
    requires target.Some? ==> IsBody(input, target.value) && AllFit(BodyTokens(target.value))
    ensures r.Ok? ==> IsBody(input, r.value)
    ensures target.Some? ==> r == Ok(target.value)
  {
    var d := new Decoder(input, if target.Some? then BodyTokens(target.value) else [], target.Some?);
    if target.Some? { HeaderFollows(d, target.value); }
    var header :- DecodeBodyHeader(d, target);
    if header.1 > MAX_OPERATIONS { return Err(LimitExceeded); }
    var operations :- DecodeOperations(d, header.1, target);
    if target.Some? { MiddleFollows(d, target.value); }
    var middle :- DecodeBodyMiddle(d, target);
    if middle.3 > MAX_CONFLICT_OBJECTS { return Err(LimitExceeded); }
    var conflicts :- DecodeConflicts(d, middle.3, target);
    if target.Some? {
      assert operations == target.value.operations && conflicts == target.value.conflictObjects;
      BodyEnds(d, target.value);
    }
    var body := CommitBody(header.0, operations, middle.0, middle.1, middle.2, conflicts);
    var encoded :- EncodeCommitBody(body);
    if d.pos != |input| || encoded != input { return Err(InvalidFormat); }
    r := Ok(body);
  }

  /** The decoder inverts the encoder on every valid body within the limit, and accepts nothing else. */
  method DecodeCommitBody(input: Bytes) returns (r: Result<CommitBody, Error>)
    ensures forall body ::
              r == Ok(body) <==> ValidBody(body) && input == BodyFile(body) && |input| <= MAX_COMMIT_BODY_BYTES
  {
    if |input| > MAX_COMMIT_BODY_BYTES { return Err(LimitExceeded); }
    ghost var target := None;
    if body :| IsBody(input, body) {
      target := Some(body);
      BodyFits(body);
    }
    r := DecodeWithin(input, target);
    forall body | IsBody(input, body) ensures r == Ok(body) {
      BodiesAreUnique(body, target.value);
    }
    forall body | ValidBody(body) ensures IsBody(input, body) <==> input == BodyFile(body) { BodyIsSpelled(body); }
  }

  // ----- uniqueness

  lemma OperationIsUnique(a: Operation, b: Operation)
    requires OperationTokens(a) == OperationTokens(b)
    ensures a == b
  {}

  lemma {:induction false} OperationsAreUnique(a: seq<Operation>, b: seq<Operation>)
    requires |a| == |b| && OperationsTokens(a) == OperationsTokens(b)
    ensures a == b
  {
    if a != [] {
      var x, y := OperationTokens(a[0]), OperationTokens(b[0]);
      assert OperationsTokens(a)[..7] == x && OperationsTokens(b)[..7] == y;
      assert OperationsTokens(a)[7..] == OperationsTokens(a[1..])
          && OperationsTokens(b)[7..] == OperationsTokens(b[1..]);
      OperationIsUnique(a[0], b[0]);
      OperationsAreUnique(a[1..], b[1..]);
      assert a == [a[0]] + a[1..] && b == [b[0]] + b[1..];
    }
  }

  lemma PartsOfBody(body: CommitBody)
    ensures |OperationsTokens(body.operations)| == 7 * |body.operations|
    ensures var n, tokens := 7 + 7 * |body.operations|, BodyTokens(body);
            && |tokens| == n + 8 + |body.conflictObjects|
            && tokens[..7] == BodyHeader(body) && tokens[7..n] == OperationsTokens(body.operations)
            && tokens[n..n + 8] == BodyMiddle(body) && tokens[n + 8..] == ConflictTokens(body.conflictObjects)
  {
    OperationsLength(body.operations);
  }

  /** Two valid commit bodies with one encoding are the same. */
  lemma BodiesAreUnique(a: CommitBody, b: CommitBody)
    requires ValidBody(a) && ValidBody(b) && BodyBytes(a) == BodyBytes(b)
    ensures a == b
  {
    BodyFits(a);
    BodyFits(b);
    TokensAreUnique(BodyTokens(a), BodyTokens(b));
    PartsOfBody(a);
    PartsOfBody(b);
    assert BodyHeader(a)[4] == BodyHeader(b)[4] && BodyHeader(a)[6] == BodyHeader(b)[6];
    OperationsAreUnique(a.operations, b.operations);
    var x, y := BodyMiddle(a), BodyMiddle(b);
    assert x[1] == y[1] && x[3] == y[3] && x[5] == y[5];
    forall i | 0 <= i < |a.conflictObjects| ensures a.conflictObjects[i] == b.conflictObjects[i] {
      assert ConflictTokens(a.conflictObjects)[i] == ConflictTokens(b.conflictObjects)[i];
    }
  }
}
