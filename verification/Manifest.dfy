/** The manifest and commit-body encodings (crates/ll-versioning/src/manifest.rs). */
module Manifest {
  import opened Basics
  import opened Cbor

  const PROTOCOL_VERSION: nat := 1
  const MAX_MANIFEST_BYTES: nat := 16 * 1024 * 1024
  const MAX_MANIFEST_ENTRIES: nat := 100_000
  const MAX_OPERATIONS: nat := 100_000
  const MAX_CONFLICT_OBJECTS: nat := 4096
  const MAX_COMMIT_BODY_BYTES: nat := 256 * 1024

  type U64 = n: nat | n <= U64_MAX
  type Bytes16 = b: Bytes | |b| == 16 witness seq(16, _ => 0)
  type Bytes32 = b: Bytes | |b| == 32 witness seq(32, _ => 0)

  datatype ObjectType = Content | Path | Metadata | Commit | Attachment | Recovery

  datatype ManifestEntry = ManifestEntry(
    objectId: Bytes16,
    revision: U64,
    objectType: ObjectType,
    encryptedPathBlobId: Bytes32,
    contentBlobId: Option<Bytes32>,
    metadataBlobId: Option<Bytes32>,
    canonicalPlaintextHash: Bytes32,
    tombstone: bool)

  datatype Manifest = Manifest(vaultId: Bytes16, entries: seq<ManifestEntry>)

  datatype OperationKind = Create | Modify | Rename | DeleteTombstone | Merge

  datatype Operation = Operation(
    kind: OperationKind,
    objectId: Bytes16,
    baseRevision: U64,
    revision: U64,
    encryptedPathBlobId: Option<Bytes32>,
    contentBlobId: Option<Bytes32>)

  datatype CommitBody = CommitBody(
    logicalTimestamp: U64,
    operations: seq<Operation>,
    manifestRoot: Bytes32,
    manifestBlobId: Bytes32,
    mergeBase: Option<Bytes32>,
    conflictObjects: seq<Bytes16>)

  // ----- discriminators

  function TypeCode(t: ObjectType): nat {
    match t case Content => 1 case Path => 2 case Metadata => 3 case Commit => 4 case Attachment => 5 case Recovery => 6
  }

  function TypeOf(code: nat): (t: Option<ObjectType>)
    ensures t.Some? <==> 1 <= code <= 6
    ensures t.Some? ==> TypeCode(t.value) == code
  {
    match code
    case 1 => Some(Content) case 2 => Some(Path) case 3 => Some(Metadata)
    case 4 => Some(Commit) case 5 => Some(Attachment) case 6 => Some(Recovery)
    case _ => None
  }

  function KindCode(kind: OperationKind): nat {
    match kind case Create => 1 case Modify => 2 case Rename => 3 case DeleteTombstone => 4 case Merge => 5
  }

  function KindOf(code: nat): (kind: Option<OperationKind>)
    ensures kind.Some? <==> 1 <= code <= 5
    ensures kind.Some? ==> KindCode(kind.value) == code
  {
    match code
    case 1 => Some(Create) case 2 => Some(Modify) case 3 => Some(Rename) case 4 => Some(DeleteTombstone)
    case 5 => Some(Merge) case _ => None
  }

  // ----- validity

  /** Byte-wise order of arrays. */
  predicate Less(a: Bytes, b: Bytes) {
    if a == [] || b == [] then a == [] && b != []
    else a[0] < b[0] || (a[0] == b[0] && Less(a[1..], b[1..]))
  }

  /** At the first place where they differ the lesser has the lesser byte, or it ends there. */
  ghost predicate DiffersAt(a: Bytes, b: Bytes, k: nat) {
    k <= |a| && k < |b| && a[..k] == b[..k] && (k == |a| || a[k] < b[k])
  }

  lemma {:induction false} LessExactly(a: Bytes, b: Bytes)
    ensures Less(a, b) <==> exists k: nat :: DiffersAt(a, b, k)
  {
    if a != [] && b != [] {
      LessExactly(a[1..], b[1..]);
      assert a[0] < b[0] ==> DiffersAt(a, b, 0);
      if k: nat :| a[0] == b[0] && DiffersAt(a[1..], b[1..], k) {
        assert a[..k + 1] == [a[0]] + a[1..][..k] && b[..k + 1] == [b[0]] + b[1..][..k];
        assert DiffersAt(a, b, k + 1);
      }
      if k: nat :| DiffersAt(a, b, k) {
        if k > 0 {
          assert a[..k][0] == b[..k][0] && a[1..][..k - 1] == a[..k][1..] && b[1..][..k - 1] == b[..k][1..];
          assert DiffersAt(a[1..], b[1..], k - 1);
        }
      }
    } else if b != [] {
      assert DiffersAt(a, b, 0);
    }
  }

  predicate KeyLess(a: Operation, b: Operation) {
    Less(a.objectId, b.objectId) || (a.objectId == b.objectId && KindCode(a.kind) < KindCode(b.kind))
  }

  /** Operations are ordered by object and then kind, that is, by the two written one after the other. */
  lemma KeyLessExactly(a: Operation, b: Operation)
    ensures KeyLess(a, b) <==> Less(a.objectId + [KindCode(a.kind)], b.objectId + [KindCode(b.kind)])
  {
    LessThenByte(a.objectId, b.objectId, KindCode(a.kind), KindCode(b.kind));
  }

  lemma {:induction false} LessThenByte(a: Bytes, b: Bytes, x: Byte, y: Byte)
    requires |a| == |b|
    ensures Less(a + [x], b + [y]) <==> Less(a, b) || (a == b && x < y)
  {
    if a != [] {
      LessThenByte(a[1..], b[1..], x, y);
      assert (a + [x])[1..] == a[1..] + [x] && (b + [y])[1..] == b[1..] + [y];
      assert a == b <==> a[0] == b[0] && a[1..] == b[1..];
    }
  }

  predicate ValidEntry(e: ManifestEntry) {
    && e.revision > 0
    && (e.objectType.Content? || e.objectType.Metadata? || e.objectType.Attachment?)
    && (e.tombstone <==> e.contentBlobId.None?)
  }

  predicate ValidManifest(m: Manifest) {
    && |m.entries| <= MAX_MANIFEST_ENTRIES
    && (forall i :: 0 <= i < |m.entries| - 1 ==> Less(m.entries[i].objectId, m.entries[i + 1].objectId))
    && (forall i :: 0 <= i < |m.entries| ==> ValidEntry(m.entries[i]))
  }

  predicate ShapeIsValid(op: Operation) {
    match op.kind
    case Create => op.encryptedPathBlobId.Some? && op.contentBlobId.Some?
    case Modify => op.contentBlobId.Some?
    case Merge => op.contentBlobId.Some?
    case Rename => op.encryptedPathBlobId.Some? && op.contentBlobId.None?
    case DeleteTombstone => op.encryptedPathBlobId.None? && op.contentBlobId.None?
  }

  /** Which blobs an operation brings along. */
  lemma ShapeExactly(op: Operation)
    ensures ShapeIsValid(op) <==>
            && (op.kind.Create? || op.kind.Rename? ==> op.encryptedPathBlobId.Some?)
            && (op.kind.DeleteTombstone? ==> op.encryptedPathBlobId.None?)
            && (op.contentBlobId.Some? <==> op.kind.Create? || op.kind.Modify? || op.kind.Merge?)
  {}

  predicate ValidOperation(op: Operation) {
    && op.revision == op.baseRevision + 1
    && (op.kind.Create? <==> op.baseRevision == 0)
    && ShapeIsValid(op)
  }

  predicate ValidBody(body: CommitBody) {
    && body.logicalTimestamp > 0
    && |body.operations| <= MAX_OPERATIONS && |body.conflictObjects| <= MAX_CONFLICT_OBJECTS
    && (forall i :: 0 <= i < |body.operations| - 1 ==> KeyLess(body.operations[i], body.operations[i + 1]))
    && (forall i :: 0 <= i < |body.conflictObjects| - 1 ==> Less(body.conflictObjects[i], body.conflictObjects[i + 1]))
    && (forall i :: 0 <= i < |body.operations| ==> ValidOperation(body.operations[i]))
  }

  method ValidateManifest(m: Manifest) returns (error: Option<Error>)
    ensures error.None? <==> ValidManifest(m)
  {
    if |m.entries| > MAX_MANIFEST_ENTRIES { return Some(LimitExceeded); }
    var n := 1;
    while n < |m.entries|
      invariant forall k ::
                  0 <= k < n - 1 && k < |m.entries| - 1 ==> Less(m.entries[k].objectId, m.entries[k + 1].objectId)
    {
      if !Less(m.entries[n - 1].objectId, m.entries[n].objectId) { return Some(LimitExceeded); }
      n := n + 1;
    }
    for i := 0 to |m.entries|
      invariant forall k :: 0 <= k < i ==> ValidEntry(m.entries[k])
    {
      var entry := m.entries[i];
      if || entry.revision == 0
         || entry.objectType.Path? || entry.objectType.Commit? || entry.objectType.Recovery?
         || (entry.tombstone && entry.contentBlobId.Some?)
         || (!entry.tombstone && entry.contentBlobId.None?) {
        return Some(InvalidFormat);
      }
    }
    error := None;
  }

  // ----- token streams

  function OptionalBytes(value: Option<Bytes32>): Token {
    ByteString(if value.Some? then value.value else [])
  }

  function EntryTokens(e: ManifestEntry): (tokens: seq<Token>)
    ensures |tokens| == 9
  {
    [ArrayOf(8), ByteString(e.objectId), UInt(e.revision), UInt(TypeCode(e.objectType)),
     ByteString(e.encryptedPathBlobId),
     OptionalBytes(e.contentBlobId), OptionalBytes(e.metadataBlobId), ByteString(e.canonicalPlaintextHash),
         Bool(e.tombstone)]
  }

  function EntriesTokens(entries: seq<ManifestEntry>): seq<Token> {
    if entries == [] then [] else EntryTokens(entries[0]) + EntriesTokens(entries[1..])
  }

  function ManifestHeader(m: Manifest): seq<Token> {
    [MapOf(3), UInt(0), UInt(PROTOCOL_VERSION), UInt(1), ByteString(m.vaultId), UInt(2), ArrayOf(|m.entries|)]
  }

  function ManifestTokens(m: Manifest): seq<Token> {
    ManifestHeader(m) + EntriesTokens(m.entries)
  }

  /** The one encoding of a manifest. */
  function ManifestBytes(m: Manifest): Bytes {
    EncodeTokens(ManifestTokens(m))
  }

  lemma {:induction false} EntriesFit(entries: seq<ManifestEntry>)
    ensures AllFit(EntriesTokens(entries))
  {
    if entries != [] {
      EntriesFit(entries[1..]);
      var first := EntryTokens(entries[0]);
      forall t | t in first ensures Fits(t) {}
    }
  }

  lemma ManifestFits(m: Manifest)
    requires |m.entries| <= MAX_MANIFEST_ENTRIES
    ensures AllFit(ManifestTokens(m))
  {
    EntriesFit(m.entries);
  }

  // ----- the encoding byte by byte

  /** An absent digest is the empty byte string. */
  ghost function OptionalPiece(value: Option<Bytes32>): Bytes {
    if value.Some? then [0x58, 0x20] + value.value else [0x40]
  }

  ghost function TypeByte(t: ObjectType): Byte {
    match t
    case Content => 0x01 case Path => 0x02 case Metadata => 0x03
    case Commit => 0x04 case Attachment => 0x05 case Recovery => 0x06
  }

  /** An array of eight: object, revision, type, path, content, metadata, hash and tombstone. */
  ghost function EntryPieces(e: ManifestEntry): (pieces: seq<Bytes>)
    ensures |pieces| == 9
  {
    [[0x88], [0x50] + e.objectId, ShortestHead(0, e.revision), [TypeByte(e.objectType)],
     [0x58, 0x20] + e.encryptedPathBlobId, OptionalPiece(e.contentBlobId), OptionalPiece(e.metadataBlobId),
     [0x58, 0x20] + e.canonicalPlaintextHash, if e.tombstone then [0xf5] else [0xf4]]
  }

  ghost function EntriesPieces(entries: seq<ManifestEntry>): seq<Bytes> {
    if entries == [] then [] else EntryPieces(entries[0]) + EntriesPieces(entries[1..])
  }

  /** A map of three: the protocol version, the vault and the entries. */
  ghost function ManifestFile(m: Manifest): Bytes
    requires |m.entries| <= MAX_MANIFEST_ENTRIES
  {
    Flatten([[0xa3], [0x00], [0x01], [0x01], [0x50] + m.vaultId, [0x02], ShortestHead(4, |m.entries|)]
              + EntriesPieces(m.entries))
  }

  lemma TypeIsSpelled(t: ObjectType)
    ensures TokenBytes(UInt(TypeCode(t))) == [TypeByte(t)]
  {
    ShortPiece(UInt(TypeCode(t)));
  }

  lemma EntryIsSpelled(e: ManifestEntry)
    ensures Pieces(EntryTokens(e)) == EntryPieces(e)
  {
    ShortPiece(ArrayOf(8));
    StringPiece(e.objectId);
    HeadIsStandard(0, e.revision);
    TypeIsSpelled(e.objectType);
    StringPiece(e.encryptedPathBlobId);
    OptionalIsSpelled(e.contentBlobId);
    OptionalIsSpelled(e.metadataBlobId);
    StringPiece(e.canonicalPlaintextHash);
    ShortPiece(Bool(e.tombstone));
  }

  lemma OptionalIsSpelled(value: Option<Bytes32>)
    ensures TokenBytes(OptionalBytes(value)) == OptionalPiece(value)
  {
    StringPiece(if value.Some? then value.value else []);
  }

  lemma {:induction false} EntriesAreSpelled(entries: seq<ManifestEntry>)
    ensures Pieces(EntriesTokens(entries)) == EntriesPieces(entries)
  {
    if entries != [] {
      EntriesAreSpelled(entries[1..]);
      EntryIsSpelled(entries[0]);
      PiecesConcat(EntryTokens(entries[0]), EntriesTokens(entries[1..]));
    }
  }

  /** The bytes of a manifest, spelled out. */
  lemma ManifestIsSpelled(m: Manifest)
    requires |m.entries| <= MAX_MANIFEST_ENTRIES
    ensures ManifestBytes(m) == ManifestFile(m)
  {
    ManifestHeaderIsSpelled(m);
    EntriesAreSpelled(m.entries);
    PiecesConcat(ManifestHeader(m), EntriesTokens(m.entries));
  }

  lemma ManifestHeaderIsSpelled(m: Manifest)
    requires |m.entries| <= MAX_MANIFEST_ENTRIES
    ensures Pieces(ManifestHeader(m)) ==
            [[0xa3], [0x00], [0x01], [0x01], [0x50] + m.vaultId, [0x02], ShortestHead(4, |m.entries|)]
  {
    ShortPiece(MapOf(3));
    ShortPiece(UInt(0));
    ShortPiece(UInt(1));
    ShortPiece(UInt(2));
    StringPiece(m.vaultId);
    HeadIsStandard(4, |m.entries|);
  }

  // ----- the manifest encoder

  method EncodeManifest(m: Manifest) returns (r: Result<Bytes, Error>)
    ensures r.Ok? <==> ValidManifest(m) && |ManifestBytes(m)| <= MAX_MANIFEST_BYTES
    ensures r.Ok? ==> r.value == ManifestBytes(m) == ManifestFile(m)
  {
    var error := ValidateManifest(m);
    if error.Some? { return Err(error.value); }
    var encoder := new Encoder();
    encoder.Write(ManifestHeader(m));
    assert m.entries[0..] == m.entries;
    EncodeConcat(ManifestHeader(m), EntriesTokens(m.entries));
    for i := 0 to |m.entries|
      invariant encoder.output + EncodeTokens(EntriesTokens(m.entries[i..])) == ManifestBytes(m)
    {
      assert m.entries[i..][0] == m.entries[i] && m.entries[i..][1..] == m.entries[i + 1..];
      EncodeConcat(EntryTokens(m.entries[i]), EntriesTokens(m.entries[i + 1..]));
      Associative(encoder.output, EncodeTokens(EntryTokens(m.entries[i])),
                  EncodeTokens(EntriesTokens(m.entries[i + 1..])));
      encoder.Write(EntryTokens(m.entries[i]));
    }
    NothingAfter(encoder.output);
    ManifestIsSpelled(m);
    if |encoder.output| > MAX_MANIFEST_BYTES { return Err(LimitExceeded); }
    r := Ok(encoder.output);
  }

  // ----- the manifest decoder

  method ReadFixed16(d: Decoder) returns (r: Result<Bytes16, Error>)
    requires d.Valid()
    modifies d
    ensures d.Valid()
    ensures old(d.Coming()) && d.script[old(d.at)].ByteString? && |d.script[old(d.at)].bytes| == 16 ==>
              r == Ok(d.script[old(d.at)].bytes) && d.Passed(old(d.at))
  {
    var bytes :- d.ReadBytes();
    if |bytes| != 16 { return Err(InvalidFormat); }
    r := Ok(bytes);
  }

  method ReadFixed32(d: Decoder) returns (r: Result<Bytes32, Error>)
    requires d.Valid()
    modifies d
    ensures d.Valid()
    ensures old(d.Coming()) && d.script[old(d.at)].ByteString? && |d.script[old(d.at)].bytes| == 32 ==>
              r == Ok(d.script[old(d.at)].bytes) && d.Passed(old(d.at))
  {
    var bytes :- d.ReadBytes();
    if |bytes| != 32 { return Err(InvalidFormat); }
    r := Ok(bytes);
  }

  method ReadOptional32(d: Decoder) returns (r: Result<Option<Bytes32>, Error>)
    requires d.Valid()
    modifies d
    ensures d.Valid()
    ensures old(d.Coming()) && d.script[old(d.at)].ByteString? && |d.script[old(d.at)].bytes| in {0, 32} ==>
              && r.Ok? && d.Passed(old(d.at)) && OptionalBytes(r.value) == d.script[old(d.at)]
  {
    var bytes :- d.ReadBytes();
    if bytes == [] { return Ok(None); }
    if |bytes| != 32 { return Err(InvalidFormat); }
    r := Ok(Some(bytes));
  }

  method DecodeEntryIdentity(d: Decoder, ghost target: Option<ManifestEntry>)
    returns (r: Result<(Bytes16, U64, ObjectType, Bytes32), Error>)
    requires d.Valid() && (target.Some? ==> d.Follows(EntryTokens(target.value)))
    modifies d
    ensures d.Valid()
    ensures target.Some? ==>
              && r == Ok((target.value.objectId, target.value.revision, target.value.objectType,
                          target.value.encryptedPathBlobId))
              && d.following && d.at == old(d.at) + 5
  {
    ghost var start := d.at;
    if target.Some? {
      var tokens := EntryTokens(target.value);
      assert d.script[start + 0] == tokens[0] && d.script[start + 1] == tokens[1] && d.script[start + 2] == tokens[2];
      assert d.script[start + 3] == tokens[3] && d.script[start + 4] == tokens[4];
    }
    var _ :- d.Expect(ArrayOf(8));
    var objectId :- ReadFixed16(d);
    var revision :- d.ReadUInt(U64_MAX);
    var code :- d.ReadUInt(255);
    if TypeOf(code).None? { return Err(InvalidFormat); }
    var encryptedPathBlobId :- ReadFixed32(d);
    r := Ok((objectId, revision, TypeOf(code).value, encryptedPathBlobId));
  }

  method DecodeEntryContents(d: Decoder, ghost target: Option<ManifestEntry>)
    returns (r: Result<(Option<Bytes32>, Option<Bytes32>, Bytes32, bool), Error>)
    requires d.Valid() && (target.Some? ==> d.Follows(EntryTokens(target.value)[5..]))
    modifies d
    ensures d.Valid()
    ensures target.Some? ==>
              && r == Ok((target.value.contentBlobId, target.value.metadataBlobId, target.value.canonicalPlaintextHash,
                          target.value.tombstone))
              && d.following && d.at == old(d.at) + 4
  {
    ghost var start := d.at;
    if target.Some? {
      var tokens := EntryTokens(target.value)[5..];
      assert d.script[start + 0] == tokens[0] && d.script[start + 1] == tokens[1];
      assert d.script[start + 2] == tokens[2] && d.script[start + 3] == tokens[3];
    }
    var contentBlobId :- ReadOptional32(d);
    var metadataBlobId :- ReadOptional32(d);
    var canonicalPlaintextHash :- ReadFixed32(d);
    var tombstone :- d.ReadBool();
    r := Ok((contentBlobId, metadataBlobId, canonicalPlaintextHash, tombstone));
  }

  method DecodeEntry(d: Decoder, ghost target: Option<ManifestEntry>) returns (r: Result<ManifestEntry, Error>)
    requires d.Valid() && (target.Some? ==> d.Follows(EntryTokens(target.value)))
    modifies d
    ensures d.Valid()
    ensures target.Some? ==> r == Ok(target.value) && d.following && d.at == old(d.at) + 9
  {
    var identity :- DecodeEntryIdentity(d, target);
    var contents :- DecodeEntryContents(d, target);
    r := Ok(ManifestEntry(identity.0, identity.1, identity.2, identity.3, contents.0, contents.1, contents.2,
                          contents.3));
  }

  method DecodeManifestHeader(d: Decoder, ghost target: Option<Manifest>) returns (r: Result<(Bytes16, nat), Error>)
    requires d.Valid() && (target.Some? ==> d.Follows(ManifestHeader(target.value)))
    modifies d
    ensures d.Valid()
    ensures target.Some? ==>
              r == Ok((target.value.vaultId, |target.value.entries|)) && d.following && d.at == old(d.at) + 7
  {
    ghost var start := d.at;
    if target.Some? {
      var tokens := ManifestHeader(target.value);
      assert d.script[start + 0] == tokens[0] && d.script[start + 1] == tokens[1] && d.script[start + 2] == tokens[2];
      assert d.script[start + 3] == tokens[3] && d.script[start + 4] == tokens[4] && d.script[start + 5] == tokens[5];
      assert d.script[start + 6] == tokens[6];
    }
    var _ :- d.Expect(MapOf(3));
    var _ :- d.Expect(UInt(0));
    var _ :- d.Expect(UInt(PROTOCOL_VERSION));
    var _ :- d.Expect(UInt(1));
    var vaultId :- ReadFixed16(d);
    var _ :- d.Expect(UInt(2));
    var count :- d.ReadArray();
    r := Ok((vaultId, count));
  }

  lemma {:induction false} EntryInTokens(entries: seq<ManifestEntry>, i: nat, k: nat)
    requires i < |entries| && k < 9
    ensures 9 * i + k < |EntriesTokens(entries)|
    ensures EntriesTokens(entries)[9 * i + k] == EntryTokens(entries[i])[k]
  {
    if i > 0 { EntryInTokens(entries[1..], i - 1, k); }
  }

  lemma EntryFollows(d: Decoder, m: Manifest, i: nat)
    requires d.script == ManifestTokens(m) && d.following && i < |m.entries| && d.at == 7 + 9 * i
    ensures d.Follows(EntryTokens(m.entries[i]))
  {
    var tokens := EntryTokens(m.entries[i]);
    forall k | 0 <= k < 9 ensures d.at + k < |d.script| && d.script[d.at + k] == tokens[k] {
      EntryInTokens(m.entries, i, k);
      assert ManifestTokens(m)[7 + (9 * i + k)] == EntriesTokens(m.entries)[9 * i + k];
    }
    EntryInTokens(m.entries, i, 8);
    assert 7 + (9 * i + 8) < |ManifestTokens(m)|;
  }

  lemma {:induction false} EntriesLength(entries: seq<ManifestEntry>)
    ensures |EntriesTokens(entries)| == 9 * |entries|
  {
    if entries != [] { EntriesLength(entries[1..]); }
  }

  /** The cursor stands before entry `i` of the manifest. */
  ghost predicate AtEntry(d: Decoder, m: Manifest, i: nat)
    reads d
  {
    d.script == ManifestTokens(m) && d.following && i <= |m.entries| && d.at == 7 + 9 * i
  }

  /** The entries read so far are the first ones of the target. */
  ghost predicate ReadSoFar(d: Decoder, target: Option<Manifest>, entries: seq<ManifestEntry>)
    reads d
  {
    target.Some? ==> AtEntry(d, target.value, |entries|) && entries == target.value.entries[..|entries|]
  }

  method DecodeNextEntry(d: Decoder, entries: seq<ManifestEntry>, ghost target: Option<Manifest>)
    returns (r: Result<seq<ManifestEntry>, Error>)
    requires d.Valid() && ReadSoFar(d, target, entries) && (target.Some? ==> |entries| < |target.value.entries|)
    modifies d
    ensures d.Valid() && (target.Some? ==> r.Ok?)
    ensures r.Ok? ==> |r.value| == |entries| + 1 && ReadSoFar(d, target, r.value)
  {
    if target.Some? { EntryFollows(d, target.value, |entries|); }
    var entry :- DecodeEntry(d, if target.Some? then Some(target.value.entries[|entries|]) else None);
    r := Ok(entries + [entry]);
  }

  method DecodeEntries(d: Decoder, count: nat, ghost target: Option<Manifest>)
    returns (r: Result<seq<ManifestEntry>, Error>)
    requires d.Valid() && ReadSoFar(d, target, []) && (target.Some? ==> count == |target.value.entries|)
    modifies d
    ensures d.Valid() && (target.Some? ==> r.Ok?)
    ensures r.Ok? ==> |r.value| == count && ReadSoFar(d, target, r.value)
  {
    var entries := [];
    for i := 0 to count
      invariant d.Valid() && |entries| == i && ReadSoFar(d, target, entries)
    {
      entries :- DecodeNextEntry(d, entries, target);
    }
    r := Ok(entries);
  }

  lemma AtEnd(d: Decoder, m: Manifest)
    requires d.Valid() && AtEntry(d, m, |m.entries|)
    ensures d.pos == |d.input|
  {
    EntriesLength(m.entries);
  }

  /** The input is the encoding of a valid manifest. */
  ghost predicate IsManifest(input: Bytes, m: Manifest) {
    ValidManifest(m) && input == ManifestBytes(m)
  }

  /** The decoder inverts the encoder on every valid manifest within the limit, and accepts nothing else. */
  method DecodeManifest(input: Bytes) returns (r: Result<Manifest, Error>)
    ensures forall m :: r == Ok(m) <==> ValidManifest(m) && input == ManifestFile(m) && |input| <= MAX_MANIFEST_BYTES
  {
    if |input| > MAX_MANIFEST_BYTES { return Err(LimitExceeded); }
    ghost var target := None;
    if m :| IsManifest(input, m) {
      target := Some(m);
      ManifestFits(m);
    }
    r := DecodeWithin(input, target);
    forall m | IsManifest(input, m) ensures r == Ok(m) {
      ManifestsAreUnique(m, target.value);
    }
    forall m | ValidManifest(m) ensures IsManifest(input, m) <==> input == ManifestFile(m) { ManifestIsSpelled(m); }
  }

  method DecodeWithin(input: Bytes, ghost target: Option<Manifest>) returns (r: Result<Manifest, Error>)
    requires |input| <= MAX_MANIFEST_BYTES
    requires target.Some? ==> IsManifest(input, target.value) && AllFit(ManifestTokens(target.value))
    ensures r.Ok? ==> IsManifest(input, r.value)
    ensures target.Some? ==> r == Ok(target.value)
  {
    var d := new Decoder(input, if target.Some? then ManifestTokens(target.value) else [], target.Some?);
    var header :- DecodeManifestHeader(d, target);
    if header.1 > MAX_MANIFEST_ENTRIES { return Err(LimitExceeded); }
    var entries :- DecodeEntries(d, header.1, target);
    if target.Some? {
      assert entries == target.value.entries;
      AtEnd(d, target.value);
    }
    var m := Manifest(header.0, entries);
    var encoded :- EncodeManifest(m);
    if d.pos != |input| || encoded != input { return Err(InvalidFormat); }
    r := Ok(m);
  }

  /** Two valid manifests with one encoding are the same. */
  lemma ManifestsAreUnique(a: Manifest, b: Manifest)
    requires ValidManifest(a) && ValidManifest(b) && ManifestBytes(a) == ManifestBytes(b)
    ensures a == b
  {
    ManifestFits(a);
    ManifestFits(b);
    TokensAreUnique(ManifestTokens(a), ManifestTokens(b));
    assert ManifestTokens(a)[4] == ManifestHeader(a)[4] && ManifestTokens(b)[4] == ManifestHeader(b)[4];
    assert ManifestTokens(a)[6] == ManifestHeader(a)[6] && ManifestTokens(b)[6] == ManifestHeader(b)[6];
    assert ManifestTokens(a)[7..] == EntriesTokens(a.entries) && ManifestTokens(b)[7..] == EntriesTokens(b.entries);
    EntriesAreUnique(a.entries, b.entries);
  }

  lemma {:induction false} EntriesAreUnique(a: seq<ManifestEntry>, b: seq<ManifestEntry>)
    requires |a| == |b| && EntriesTokens(a) == EntriesTokens(b)
    ensures a == b
  {
    if a != [] {
      var x, y := EntryTokens(a[0]), EntryTokens(b[0]);
      assert EntriesTokens(a)[..9] == x && EntriesTokens(b)[..9] == y;
      assert EntriesTokens(a)[9..] == EntriesTokens(a[1..]) && EntriesTokens(b)[9..] == EntriesTokens(b[1..]);
      EntriesAreUnique(a[1..], b[1..]);
      assert a == [a[0]] + a[1..] && b == [b[0]] + b[1..];
    }
  }
}
