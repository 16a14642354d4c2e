/** Encrypted object envelopes (crates/ll-crypto/src/object.rs) and signed commit records
    (crates/ll-versioning/src/commit.rs, crates/ll-client/src/vault.rs).  The hashes and the signature are
    arbitrary functions; the cipher is any authenticated one that appends a tag of 16 bytes. */
module CommitRecord {
  import opened Basics
  import opened Cbor
  import opened Manifest
  import B = BodyCodec
  import L = EncodingLimits

  const MAX_OBJECT_CIPHERTEXT_BYTES: nat := 512 * 1024 * 1024 + 16
  const TAG_BYTES: nat := 16
  const MAX_COMMIT_PARENTS: nat := 16
  const MAX_SIGNED_COMMIT_BYTES: nat := 264 * 1024

  type Bytes24 = b: Bytes | |b| == 24 witness seq(24, _ => 0)
  type Bytes64 = b: Bytes | |b| == 64 witness seq(64, _ => 0)

  datatype RecordError = Codec(error: Error) | InvalidEncryptedBody | InvalidCommitId

  // ----- object envelopes

  /** What the cipher authenticates besides the message. */
  datatype Identity = Identity(vaultId: Bytes16, objectId: Bytes16, revision: U64, objectType: ObjectType)

  datatype ObjectEnvelope = ObjectEnvelope(
    identity: Identity,
    payloadNonce: Bytes24,
    wrappedDekNonce: Bytes24,
    wrappedDek: Bytes,
    ciphertext: Bytes)

  predicate ValidEnvelope(e: ObjectEnvelope) {
    && e.identity.revision > 0 && |e.wrappedDek| == 32 + TAG_BYTES
    && TAG_BYTES <= |e.ciphertext| <= MAX_OBJECT_CIPHERTEXT_BYTES
  }

  function IdentityTokens(i: Identity): (tokens: seq<Token>)
    ensures |tokens| == 11
  {
    [MapOf(9), UInt(0), UInt(PROTOCOL_VERSION), UInt(1), ByteString(i.vaultId), UInt(2), ByteString(i.objectId),
     UInt(3), UInt(i.revision), UInt(4), UInt(TypeCode(i.objectType))]
  }

  function SealedTokens(e: ObjectEnvelope): (tokens: seq<Token>)
    ensures |tokens| == 8
  {
    [UInt(5), ByteString(e.payloadNonce), UInt(6), ByteString(e.wrappedDekNonce), UInt(7), ByteString(e.wrappedDek),
     UInt(8), ByteString(e.ciphertext)]
  }

  function EnvelopeTokens(e: ObjectEnvelope): seq<Token> {
    IdentityTokens(e.identity) + SealedTokens(e)
  }

  /** A map of nine: version, vault, object, revision, type, nonces, wrapped key and ciphertext. */
  ghost function EnvelopeFile(e: ObjectEnvelope): Bytes
    requires ValidEnvelope(e)
  {
    Flatten([[0xa9], [0x00], [0x01], [0x01], [0x50] + e.identity.vaultId, [0x02], [0x50] + e.identity.objectId, [0x03],
             ShortestHead(0, e.identity.revision), [0x04], [TypeByte(e.identity.objectType)]]
              + [[0x05], [0x58, 0x18] + e.payloadNonce, [0x06], [0x58, 0x18] + e.wrappedDekNonce, [0x07],
                 [0x58, 0x30] + e.wrappedDek, [0x08], ShortestHead(2, |e.ciphertext|) + e.ciphertext])
  }

  lemma IdentityIsSpelled(i: Identity)
    ensures Pieces(IdentityTokens(i)) ==
            [[0xa9], [0x00], [0x01], [0x01], [0x50] + i.vaultId, [0x02], [0x50] + i.objectId, [0x03],
             ShortestHead(0, i.revision), [0x04], [TypeByte(i.objectType)]]
  {
    assert IdentityTokens(i) == ObjectTokens(i) + VersionTokens(i);
    PiecesConcat(ObjectTokens(i), VersionTokens(i));
    ObjectIsSpelled(i);
    VersionIsSpelled(i);
  }

  function ObjectTokens(i: Identity): seq<Token> {
    [MapOf(9), UInt(0), UInt(PROTOCOL_VERSION), UInt(1), ByteString(i.vaultId), UInt(2), ByteString(i.objectId)]
  }

  function VersionTokens(i: Identity): seq<Token> {
    [UInt(3), UInt(i.revision), UInt(4), UInt(TypeCode(i.objectType))]
  }

  lemma ObjectIsSpelled(i: Identity)
    ensures Pieces(ObjectTokens(i)) ==
            [[0xa9], [0x00], [0x01], [0x01], [0x50] + i.vaultId, [0x02], [0x50] + i.objectId]
  {
    ShortPiece(MapOf(9));
    ShortPiece(UInt(0));
    ShortPiece(UInt(1));
    ShortPiece(UInt(2));
    StringPiece(i.vaultId);
    StringPiece(i.objectId);
  }

  lemma VersionIsSpelled(i: Identity)
    ensures Pieces(VersionTokens(i)) == [[0x03], ShortestHead(0, i.revision), [0x04], [TypeByte(i.objectType)]]
  {
    ShortPiece(UInt(3));
    ShortPiece(UInt(4));
    HeadIsStandard(0, i.revision);
    TypeIsSpelled(i.objectType);
  }

  lemma SealedIsSpelled(e: ObjectEnvelope)
    requires ValidEnvelope(e)
    ensures Pieces(SealedTokens(e)) ==
            [[0x05], [0x58, 0x18] + e.payloadNonce, [0x06], [0x58, 0x18] + e.wrappedDekNonce, [0x07],
             [0x58, 0x30] + e.wrappedDek, [0x08], ShortestHead(2, |e.ciphertext|) + e.ciphertext]
  {
    assert SealedTokens(e) == NonceTokens(e) + KeyTokens(e);
    PiecesConcat(NonceTokens(e), KeyTokens(e));
    NoncesAreSpelled(e);
    KeysAreSpelled(e);
  }

  function NonceTokens(e: ObjectEnvelope): seq<Token> {
    [UInt(5), ByteString(e.payloadNonce), UInt(6), ByteString(e.wrappedDekNonce)]
  }

  function KeyTokens(e: ObjectEnvelope): seq<Token> {
    [UInt(7), ByteString(e.wrappedDek), UInt(8), ByteString(e.ciphertext)]
  }

  lemma NoncesAreSpelled(e: ObjectEnvelope)
    ensures Pieces(NonceTokens(e)) == [[0x05], [0x58, 0x18] + e.payloadNonce, [0x06], [0x58, 0x18] + e.wrappedDekNonce]
  {
    ShortPiece(UInt(5));
    ShortPiece(UInt(6));
    StringPiece(e.payloadNonce);
    StringPiece(e.wrappedDekNonce);
  }

  lemma KeysAreSpelled(e: ObjectEnvelope)
    requires ValidEnvelope(e)
    ensures Pieces(KeyTokens(e)) ==
            [[0x07], [0x58, 0x30] + e.wrappedDek, [0x08], ShortestHead(2, |e.ciphertext|) + e.ciphertext]
  {
    ShortPiece(UInt(7));
    ShortPiece(UInt(8));
    StringPiece(e.wrappedDek);
    StringPiece(e.ciphertext);
  }

  /** The bytes of an envelope, spelled out. */
  lemma EnvelopeIsSpelled(e: ObjectEnvelope)
    requires ValidEnvelope(e)
    ensures EncodeTokens(EnvelopeTokens(e)) == EnvelopeFile(e)
  {
    IdentityIsSpelled(e.identity);
    SealedIsSpelled(e);
    PiecesConcat(IdentityTokens(e.identity), SealedTokens(e));
  }

  function EnvelopeBytes(e: ObjectEnvelope): (bytes: Bytes)
    ensures ValidEnvelope(e) ==> bytes == EnvelopeFile(e)
  {
    if ValidEnvelope(e) then
      EnvelopeIsSpelled(e);
      EncodeTokens(EnvelopeTokens(e))
    else EncodeTokens(EnvelopeTokens(e))
  }

  /** The input is the encoding of a valid envelope. */
  ghost predicate IsEnvelope(input: Bytes, e: ObjectEnvelope) {
    ValidEnvelope(e) && input == EnvelopeBytes(e)
  }

  lemma EnvelopeFits(e: ObjectEnvelope)
    requires ValidEnvelope(e)
    ensures AllFit(EnvelopeTokens(e))
  {
    forall t | t in IdentityTokens(e.identity) ensures Fits(t) {}
    forall t | t in SealedTokens(e) ensures Fits(t) {}
  }

  lemma SizeOf11(t: seq<Token>)
    requires |t| == 11
    ensures |EncodeTokens(t)| ==
        Size(t[0]) + Size(t[1]) + Size(t[2]) + Size(t[3]) + Size(t[4]) + Size(t[5]) + Size(t[6])
                                 + Size(t[7]) + Size(t[8]) + Size(t[9]) + Size(t[10])
  {
    SizeFrom(t, 0); SizeFrom(t, 1); SizeFrom(t, 2);
    L.SizeOf8(t[3..]);
    assert t[0..] == t;
  }

  /** An envelope adds 148 bytes and two heads to its ciphertext. */
  lemma EnvelopeSize(e: ObjectEnvelope)
    requires ValidEnvelope(e)
    ensures |EnvelopeBytes(e)| ==
        148 + |HeadBytes(0, e.identity.revision)| + |HeadBytes(2, |e.ciphertext|)| + |e.ciphertext|
  {
    EncodeConcat(IdentityTokens(e.identity), SealedTokens(e));
    IdentitySize(e.identity);
    SealedSize(e);
  }

  lemma IdentitySize(i: Identity)
    ensures |EncodeTokens(IdentityTokens(i))| == 42 + |HeadBytes(0, i.revision)|
  {
    SizeOf11(IdentityTokens(i));
  }

  lemma SealedSize(e: ObjectEnvelope)
    requires ValidEnvelope(e)
    ensures |EncodeTokens(SealedTokens(e))| == 106 + |HeadBytes(2, |e.ciphertext|)| + |e.ciphertext|
  {
    L.SizeOf8(SealedTokens(e));
  }

  /** Two envelopes with one encoding are the same. */
  lemma EnvelopesAreUnique(a: ObjectEnvelope, b: ObjectEnvelope)
    requires ValidEnvelope(a) && ValidEnvelope(b) && EnvelopeBytes(a) == EnvelopeBytes(b)
    ensures a == b
  {
    EnvelopeFits(a);
    EnvelopeFits(b);
    TokensAreUnique(EnvelopeTokens(a), EnvelopeTokens(b));
    var x, y := EnvelopeTokens(a), EnvelopeTokens(b);
    assert x[..11] == IdentityTokens(a.identity) && y[..11] == IdentityTokens(b.identity);
    assert x[11..] == SealedTokens(a) && y[11..] == SealedTokens(b);
    SealedIsUnique(a, b);
    IdentityIsUnique(a.identity, b.identity);
  }

  lemma IdentityIsUnique(a: Identity, b: Identity)
    requires IdentityTokens(a) == IdentityTokens(b)
    ensures a == b
  {
    var x, y := IdentityTokens(a), IdentityTokens(b);
    assert x[4] == y[4] && x[6] == y[6] && x[8] == y[8] && x[10] == y[10];
  }

  lemma SealedIsUnique(a: ObjectEnvelope, b: ObjectEnvelope)
    requires SealedTokens(a) == SealedTokens(b)
    ensures a.(identity := b.identity) == b
  {
    var x, y := SealedTokens(a), SealedTokens(b);
    assert x[1] == y[1] && x[3] == y[3] && x[5] == y[5] && x[7] == y[7];
  }

  method EncodeObjectEnvelope(e: ObjectEnvelope) returns (output: Bytes)
    ensures output == EnvelopeBytes(e)
  {
    var encoder := new Encoder();
    encoder.Write(EnvelopeTokens(e));
    output := encoder.output;
  }

  method ReadFixed24(d: Decoder) returns (r: Result<Bytes24, Error>)
    requires d.Valid()
    modifies d
    ensures d.Valid()
    ensures old(d.Coming()) && d.script[old(d.at)].ByteString? && |d.script[old(d.at)].bytes| == 24 ==>
              r == Ok(d.script[old(d.at)].bytes) && d.Passed(old(d.at))
  {
    var bytes :- d.ReadBytes();
    if |bytes| != 24 { return Err(InvalidFormat); }
    r := Ok(bytes);
  }

  method DecodeObjectId(d: Decoder, ghost target: Option<ObjectEnvelope>) returns (r: Result<(Bytes16, Bytes16), Error>)
    requires d.Valid() && (target.Some? ==> d.Follows(IdentityTokens(target.value.identity)))
    modifies d
    ensures d.Valid()
    ensures target.Some? ==>
              && r == Ok((target.value.identity.vaultId, target.value.identity.objectId)) && d.following
              && d.at == old(d.at) + 7
  {
    ghost var start := d.at;
    if target.Some? {
      var tokens := IdentityTokens(target.value.identity);
      assert d.script[start + 0] == tokens[0] && d.script[start + 1] == tokens[1] && d.script[start + 2] == tokens[2];
      assert d.script[start + 3] == tokens[3] && d.script[start + 4] == tokens[4] && d.script[start + 5] == tokens[5];
      assert d.script[start + 6] == tokens[6];
    }
    var _ :- d.Expect(MapOf(9));
    var _ :- d.Expect(UInt(0));
    var _ :- d.Expect(UInt(PROTOCOL_VERSION));
    var _ :- d.Expect(UInt(1));
    var vaultId :- ReadFixed16(d);
    var _ :- d.Expect(UInt(2));
    var objectId :- ReadFixed16(d);
    r := Ok((vaultId, objectId));
  }

  method DecodeVersion(d: Decoder, ghost target: Option<Identity>) returns (r: Result<(U64, ObjectType), Error>)
    requires d.Valid() && (target.Some? ==> target.value.revision > 0 && d.Follows(VersionTokens(target.value)))
    modifies d
    ensures d.Valid() && (r.Ok? ==> r.value.0 > 0)
    ensures target.Some? ==>
              r == Ok((target.value.revision, target.value.objectType)) && d.following && d.at == old(d.at) + 4
  {
    ghost var start := d.at;
    if target.Some? {
      var tokens := VersionTokens(target.value);
      assert d.script[start + 0] == tokens[0] && d.script[start + 1] == tokens[1];
      assert d.script[start + 2] == tokens[2] && d.script[start + 3] == tokens[3];
    }
    var _ :- d.Expect(UInt(3));
    var revision :- d.ReadUInt(U64_MAX);
    if revision == 0 { return Err(InvalidFormat); }
    var _ :- d.Expect(UInt(4));
    var code :- d.ReadUInt(255);
    if TypeOf(code).None? { return Err(InvalidFormat); }
    r := Ok((revision, TypeOf(code).value));
  }

  lemma VersionFollows(d: Decoder, i: Identity, start: nat)
    requires d.following && start + 11 <= |d.script| && d.at == start + 7
    requires forall k :: 0 <= k < 11 ==> d.script[start + k] == IdentityTokens(i)[k]
    ensures d.Follows(VersionTokens(i))
  {
    forall k | 0 <= k < 4 ensures d.script[d.at + k] == VersionTokens(i)[k] {
      assert d.script[start + (7 + k)] == IdentityTokens(i)[7 + k];
    }
  }

  method DecodeIdentity(d: Decoder, ghost target: Option<ObjectEnvelope>) returns (r: Result<Identity, Error>)
    requires d.Valid()
    requires target.Some? ==> ValidEnvelope(target.value) && d.Follows(IdentityTokens(target.value.identity))
    modifies d
    ensures d.Valid() && (r.Ok? ==> r.value.revision > 0)
    ensures target.Some? ==> r == Ok(target.value.identity) && d.following && d.at == old(d.at) + 11
  {
    ghost var start := d.at;
    var first :- DecodeObjectId(d, target);
    if target.Some? { VersionFollows(d, target.value.identity, start); }
    var rest :- DecodeVersion(d, if target.Some? then Some(target.value.identity) else None);
    r := Ok(Identity(first.0, first.1, rest.0, rest.1));
  }

  method DecodeSealed(d: Decoder, ghost target: Option<ObjectEnvelope>)
    returns (r: Result<(Bytes24, Bytes24, Bytes, Bytes), Error>)
    requires d.Valid() && (target.Some? ==> ValidEnvelope(target.value) && d.Follows(SealedTokens(target.value)))
    modifies d
    ensures d.Valid()
    ensures r.Ok? ==> |r.value.2| == 32 + TAG_BYTES && TAG_BYTES <= |r.value.3| <= MAX_OBJECT_CIPHERTEXT_BYTES
    ensures target.Some? ==>
              && r == Ok((target.value.payloadNonce, target.value.wrappedDekNonce, target.value.wrappedDek,
                          target.value.ciphertext))
              && d.following && d.at == old(d.at) + 8
  {
    ghost var start := d.at;
    if target.Some? {
      var tokens := SealedTokens(target.value);
      assert d.script[start + 0] == tokens[0] && d.script[start + 1] == tokens[1] && d.script[start + 2] == tokens[2];
      assert d.script[start + 3] == tokens[3] && d.script[start + 4] == tokens[4] && d.script[start + 5] == tokens[5];
      assert d.script[start + 6] == tokens[6] && d.script[start + 7] == tokens[7];
    }
    var _ :- d.Expect(UInt(5));
    var payloadNonce :- ReadFixed24(d);
    var _ :- d.Expect(UInt(6));
    var wrappedDekNonce :- ReadFixed24(d);
    var _ :- d.Expect(UInt(7));
    var wrappedDek :- d.ReadBytes();
    if |wrappedDek| != 32 + TAG_BYTES { return Err(InvalidFormat); }
    var _ :- d.Expect(UInt(8));
    var ciphertext :- d.ReadBytes();
    if !(TAG_BYTES <= |ciphertext| <= MAX_OBJECT_CIPHERTEXT_BYTES) { return Err(LimitExceeded); }
    r := Ok((payloadNonce, wrappedDekNonce, wrappedDek, ciphertext));
  }

  lemma IdentityFollows(d: Decoder, e: ObjectEnvelope)
    requires d.script == EnvelopeTokens(e) && d.following && d.at == 0
    ensures d.Follows(IdentityTokens(e.identity))
  {}

  lemma SealedFollows(d: Decoder, e: ObjectEnvelope)
    requires d.script == EnvelopeTokens(e) && d.following && d.at == 11
    ensures d.Follows(SealedTokens(e))
  {}

  lemma EnvelopeEnds(d: Decoder, e: ObjectEnvelope)
    requires d.Valid() && d.script == EnvelopeTokens(e) && d.following && d.at == 19
    ensures d.pos == |d.input|
  {}

  method DecodeEnvelope(input: Bytes, ghost target: Option<ObjectEnvelope>) returns (r: Result<ObjectEnvelope, Error>)
    requires target.Some? ==> IsEnvelope(input, target.value) && AllFit(EnvelopeTokens(target.value))
    ensures r.Ok? ==> IsEnvelope(input, r.value)
    ensures target.Some? ==> r == Ok(target.value)
  {
    var d := new Decoder(input, if target.Some? then EnvelopeTokens(target.value) else [], target.Some?);
    if target.Some? { IdentityFollows(d, target.value); }
    var identity :- DecodeIdentity(d, target);
    if target.Some? { SealedFollows(d, target.value); }
    var sealed :- DecodeSealed(d, target);
    if target.Some? { EnvelopeEnds(d, target.value); }
    var envelope := ObjectEnvelope(identity, sealed.0, sealed.1, sealed.2, sealed.3);
    var encoded := EncodeObjectEnvelope(envelope);
    if d.pos != |input| || encoded != input { return Err(InvalidFormat); }
    r := Ok(envelope);
  }

  /** The decoder inverts the encoder on every valid envelope and accepts nothing else. */
  method DecodeObjectEnvelope(input: Bytes) returns (r: Result<ObjectEnvelope, Error>)
    ensures forall e :: r == Ok(e) <==> IsEnvelope(input, e)
  {
    ghost var target := None;
    if e :| IsEnvelope(input, e) {
      target := Some(e);
      EnvelopeFits(e);
      EnvelopeSize(e);
    }
    if |input| > MAX_OBJECT_CIPHERTEXT_BYTES + 512 { return Err(LimitExceeded); }
    r := DecodeEnvelope(input, target);
    forall e | IsEnvelope(input, e) ensures r == Ok(e) {
      EnvelopesAreUnique(e, target.value);
    }
  }

  // ----- encryption

  datatype Purpose = Payload | WrappedDek

  /** Sealing and unsealing under a key and a nonce; identity and purpose are authenticated, not sent. */
  datatype Cipher = Cipher(
    seal: (Bytes, Bytes24, Identity, Purpose, Bytes) -> Bytes,
    unseal: (Bytes, Bytes24, Identity, Purpose, Bytes) -> Option<Bytes>)

  /** The ciphertext is the message's length and a tag. */
  ghost predicate AppendsTag(cipher: Cipher) {
    forall key: Bytes, nonce: Bytes24, identity: Identity, purpose: Purpose, message: Bytes ::
      |cipher.seal(key, nonce, identity, purpose, message)| == |message| + TAG_BYTES
  }

  /** Unsealing gives a message back from its sealed form and accepts nothing else. */
  ghost predicate Authentic(cipher: Cipher) {
    forall key: Bytes, nonce: Bytes24, identity: Identity, purpose: Purpose, message: Bytes, sealed: Bytes
      {:trigger cipher.seal(key, nonce, identity, purpose, message),
       cipher.unseal(key, nonce, identity, purpose, sealed)} ::
      cipher.unseal(key, nonce, identity, purpose, sealed) == Some(message) <==>
      cipher.seal(key, nonce, identity, purpose, message) == sealed
  }

  /** The random key and nonces of one encryption. */
  datatype Material = Material(dek: Bytes32, payloadNonce: Bytes24, wrappedDekNonce: Bytes24)

  type Subkeys = ObjectType -> Bytes

  /** The envelope holds the plaintext under a random key, and that key under the vault's key for the type. */
  ghost predicate Seals(cipher: Cipher, subkeys: Subkeys, e: ObjectEnvelope, dek: Bytes, plaintext: Bytes) {
    && |dek| == 32
    && e.wrappedDek == cipher.seal(subkeys(e.identity.objectType), e.wrappedDekNonce, e.identity, WrappedDek, dek)
    && e.ciphertext == cipher.seal(dek, e.payloadNonce, e.identity, Payload, plaintext)
  }

  function Sealed(cipher: Cipher, subkeys: Subkeys, identity: Identity, plaintext: Bytes,
                  material: Material): (e: ObjectEnvelope)
    ensures e.identity == identity && Seals(cipher, subkeys, e, material.dek, plaintext)
    ensures e.payloadNonce == material.payloadNonce && e.wrappedDekNonce == material.wrappedDekNonce
  {
    ObjectEnvelope(identity, material.payloadNonce, material.wrappedDekNonce,
                   cipher.seal(subkeys(identity.objectType), material.wrappedDekNonce, identity, WrappedDek,
                               material.dek),
                   cipher.seal(material.dek, material.payloadNonce, identity, Payload, plaintext))
  }

  method EncryptObject(cipher: Cipher, subkeys: Subkeys, identity: Identity, plaintext: Bytes, material: Material)
    returns (r: Result<Bytes, Error>)
    requires AppendsTag(cipher)
    ensures r.Ok? <==> identity.revision > 0 && |plaintext| <= MAX_OBJECT_CIPHERTEXT_BYTES - TAG_BYTES
    ensures r.Ok? ==> IsEnvelope(r.value, Sealed(cipher, subkeys, identity, plaintext, material))
  {
    if identity.revision == 0 || |plaintext| > MAX_OBJECT_CIPHERTEXT_BYTES - TAG_BYTES { return Err(LimitExceeded); }
    var output := EncodeObjectEnvelope(Sealed(cipher, subkeys, identity, plaintext, material));
    r := Ok(output);
  }

  ghost predicate Holds(cipher: Cipher, subkeys: Subkeys, input: Bytes, e: ObjectEnvelope, plaintext: Bytes) {
    IsEnvelope(input, e) && exists dek :: Seals(cipher, subkeys, e, dek, plaintext)
  }

  /** Decryption succeeds exactly on an envelope that seals something, and returns that. */
  method DecryptObject(cipher: Cipher, subkeys: Subkeys, input: Bytes)
    returns (r: Result<(ObjectEnvelope, Bytes), Error>)
    requires Authentic(cipher)
    ensures forall e, plaintext :: r == Ok((e, plaintext)) <==> Holds(cipher, subkeys, input, e, plaintext)
  {
    var decoded := DecodeObjectEnvelope(input);
    if decoded.Err? { return Err(decoded.error); }
    var e := decoded.value;
    var key := subkeys(e.identity.objectType);
    UnsealedOnly(cipher, key, e.wrappedDekNonce, e.identity, WrappedDek, e.wrappedDek);
    var dek := cipher.unseal(key, e.wrappedDekNonce, e.identity, WrappedDek, e.wrappedDek);
    if dek.None? || |dek.value| != 32 { return Err(InvalidFormat); }
    UnsealedOnly(cipher, dek.value, e.payloadNonce, e.identity, Payload, e.ciphertext);
    var plaintext := cipher.unseal(dek.value, e.payloadNonce, e.identity, Payload, e.ciphertext);
    if plaintext.None? { return Err(InvalidFormat); }
    assert Seals(cipher, subkeys, e, dek.value, plaintext.value);
    r := Ok((e, plaintext.value));
  }

  lemma UnsealedOnly(cipher: Cipher, key: Bytes, nonce: Bytes24, identity: Identity, purpose: Purpose, sealed: Bytes)
    requires Authentic(cipher)
    ensures forall message ::
              cipher.seal(key, nonce, identity, purpose, message) == sealed <==>
              cipher.unseal(key, nonce, identity, purpose, sealed) == Some(message)
  {}

  /** What was encrypted is decrypted. */
  method EncryptThenDecrypt(cipher: Cipher, subkeys: Subkeys, identity: Identity, plaintext: Bytes, material: Material)
    returns (r: Result<(ObjectEnvelope, Bytes), Error>)
    requires AppendsTag(cipher) && Authentic(cipher)
    ensures r.Ok? <==> identity.revision > 0 && |plaintext| <= MAX_OBJECT_CIPHERTEXT_BYTES - TAG_BYTES
    ensures r.Ok? ==> r.value.0.identity == identity && r.value.1 == plaintext
  {
    var encrypted :- EncryptObject(cipher, subkeys, identity, plaintext, material);
    assert Holds(cipher, subkeys, encrypted, Sealed(cipher, subkeys, identity, plaintext, material), plaintext);
    r := DecryptObject(cipher, subkeys, encrypted);
  }

  // ----- signed commits

  datatype UnsignedCommit = UnsignedCommit(
    vaultId: Bytes16,
    parents: seq<Bytes32>,
    deviceId: Bytes16,
    deviceSequence: U64,
    encryptedBody: Bytes)

  datatype SignedRecord = SignedRecord(unsigned: UnsignedCommit, commitId: Bytes32, signature: Bytes64)

  /** The hash of the body, the domain-separated identifier, and the device's signature. */
  datatype Signer = Signer(hash: Bytes -> Bytes32, commitId: Bytes -> Bytes32, sign: Bytes32 -> Bytes64)

  predicate SortedParents(parents: seq<Bytes32>) {
    forall i :: 0 <= i < |parents| - 1 ==> Less(parents[i], parents[i + 1])
  }

  ghost predicate IsCommitBody(input: Bytes, vaultId: Bytes16, e: ObjectEnvelope) {
    IsEnvelope(input, e) && e.identity.vaultId == vaultId && e.identity.objectType.Commit?
  }

  ghost predicate ValidUnsigned(u: UnsignedCommit) {
    && u.deviceSequence > 0 && |u.parents| <= MAX_COMMIT_PARENTS && |u.encryptedBody| <= MAX_COMMIT_BODY_BYTES
    && SortedParents(u.parents) && exists e :: IsCommitBody(u.encryptedBody, u.vaultId, e)
  }

  method ValidateUnsigned(u: UnsignedCommit) returns (error: Option<RecordError>)
    ensures error.None? <==> ValidUnsigned(u)
  {
    if u.deviceSequence == 0 || |u.parents| > MAX_COMMIT_PARENTS || |u.encryptedBody| > MAX_COMMIT_BODY_BYTES {
      return Some(Codec(LimitExceeded));
    }
    var n := 1;
    while n < |u.parents|
      invariant forall k :: 0 <= k < n - 1 && k < |u.parents| - 1 ==> Less(u.parents[k], u.parents[k + 1])
    {
      if !Less(u.parents[n - 1], u.parents[n]) { return Some(Codec(InvalidFormat)); }
      n := n + 1;
    }
    var body := DecodeObjectEnvelope(u.encryptedBody);
    if body.Err? { return Some(InvalidEncryptedBody); }
    if body.value.identity.vaultId != u.vaultId || body.value.identity.objectType != Commit {
      return Some(InvalidEncryptedBody);
    }
    assert IsCommitBody(u.encryptedBody, u.vaultId, body.value);
    error := None;
  }

  function ParentTokens(parents: seq<Bytes32>): (tokens: seq<Token>)
    ensures |tokens| == |parents|
  {
    seq(|parents|, i requires 0 <= i < |parents| => ByteString(parents[i]))
  }

  function UnsignedHead(u: UnsignedCommit): (tokens: seq<Token>)
    ensures |tokens| == 7
  {
    [MapOf(8), UInt(0), UInt(PROTOCOL_VERSION), UInt(1), ByteString(u.vaultId), UInt(2), ArrayOf(|u.parents|)]
  }

  function UnsignedTail(u: UnsignedCommit, bodyHash: Bytes32): (tokens: seq<Token>)
    ensures |tokens| == 10
  {
    [UInt(3), ByteString(u.deviceId), UInt(4), UInt(u.deviceSequence), UInt(5), UInt(|u.encryptedBody|),
     UInt(6), ByteString(bodyHash), UInt(7), ByteString(u.encryptedBody)]
  }

  /** What a record may hold. */
  predicate WithinLimits(u: UnsignedCommit) {
    |u.parents| <= MAX_COMMIT_PARENTS && |u.encryptedBody| <= MAX_COMMIT_BODY_BYTES
  }

  /** A map of eight: version, vault, parents, device, sequence, and the body's size, hash and bytes. */
  ghost function UnsignedFile(u: UnsignedCommit, hash: Bytes -> Bytes32): Bytes
    requires WithinLimits(u)
  {
    Flatten([[0xa8], [0x00], [0x01], [0x01], [0x50] + u.vaultId, [0x02], ShortestHead(4, |u.parents|)]
              + ParentPieces(u.parents)
              + [[0x03], [0x50] + u.deviceId, [0x04], ShortestHead(0, u.deviceSequence), [0x05],
                 ShortestHead(0, |u.encryptedBody|), [0x06], [0x58, 0x20] + hash(u.encryptedBody), [0x07],
                 ShortestHead(2, |u.encryptedBody|) + u.encryptedBody])
  }

  ghost function ParentPieces(parents: seq<Bytes32>): seq<Bytes> {
    seq(|parents|, i requires 0 <= i < |parents| => [0x58, 0x20] + parents[i])
  }

  lemma ParentsAreSpelled(parents: seq<Bytes32>)
    ensures Pieces(ParentTokens(parents)) == ParentPieces(parents)
  {
    forall i | 0 <= i < |parents| ensures Pieces(ParentTokens(parents))[i] == ParentPieces(parents)[i] {
      StringPiece(parents[i]);
    }
  }

  lemma UnsignedHeadIsSpelled(u: UnsignedCommit)
    requires WithinLimits(u)
    ensures Pieces(UnsignedHead(u)) ==
            [[0xa8], [0x00], [0x01], [0x01], [0x50] + u.vaultId, [0x02], ShortestHead(4, |u.parents|)]
  {
    ShortPiece(MapOf(8));
    ShortPiece(UInt(0));
    ShortPiece(UInt(1));
    ShortPiece(UInt(2));
    StringPiece(u.vaultId);
    HeadIsStandard(4, |u.parents|);
  }

  lemma UnsignedTailIsSpelled(u: UnsignedCommit, bodyHash: Bytes32)
    requires WithinLimits(u)
    ensures Pieces(UnsignedTail(u, bodyHash)) ==
            [[0x03], [0x50] + u.deviceId, [0x04], ShortestHead(0, u.deviceSequence), [0x05],
             ShortestHead(0, |u.encryptedBody|), [0x06], [0x58, 0x20] + bodyHash, [0x07],
             ShortestHead(2, |u.encryptedBody|) + u.encryptedBody]
  {
    assert UnsignedTail(u, bodyHash) == SignerTokens(u) + PayloadTokens(u, bodyHash);
    PiecesConcat(SignerTokens(u), PayloadTokens(u, bodyHash));
    SignerIsSpelled(u);
    PayloadIsSpelled(u, bodyHash);
  }

  function SignerTokens(u: UnsignedCommit): seq<Token> {
    [UInt(3), ByteString(u.deviceId), UInt(4), UInt(u.deviceSequence)]
  }

  function PayloadTokens(u: UnsignedCommit, bodyHash: Bytes32): seq<Token> {
    [UInt(5), UInt(|u.encryptedBody|), UInt(6), ByteString(bodyHash), UInt(7), ByteString(u.encryptedBody)]
  }

  lemma SignerIsSpelled(u: UnsignedCommit)
    ensures Pieces(SignerTokens(u)) == [[0x03], [0x50] + u.deviceId, [0x04], ShortestHead(0, u.deviceSequence)]
  {
    ShortPiece(UInt(3));
    ShortPiece(UInt(4));
    StringPiece(u.deviceId);
    HeadIsStandard(0, u.deviceSequence);
  }

  lemma PayloadIsSpelled(u: UnsignedCommit, bodyHash: Bytes32)
    requires WithinLimits(u)
    ensures Pieces(PayloadTokens(u, bodyHash)) ==
            [[0x05], ShortestHead(0, |u.encryptedBody|), [0x06], [0x58, 0x20] + bodyHash, [0x07],
             ShortestHead(2, |u.encryptedBody|) + u.encryptedBody]
  {
    ShortPiece(UInt(5));
    ShortPiece(UInt(6));
    ShortPiece(UInt(7));
    HeadIsStandard(0, |u.encryptedBody|);
    StringPiece(bodyHash);
    StringPiece(u.encryptedBody);
  }

  lemma UnsignedIsSpelled(u: UnsignedCommit, hash: Bytes -> Bytes32)
    requires WithinLimits(u)
    ensures EncodeTokens(UnsignedTokens(u, hash)) == UnsignedFile(u, hash)
  {
    UnsignedHeadIsSpelled(u);
    ParentsAreSpelled(u.parents);
    UnsignedTailIsSpelled(u, hash(u.encryptedBody));
    PiecesConcat(UnsignedHead(u), ParentTokens(u.parents));
    PiecesConcat(UnsignedHead(u) + ParentTokens(u.parents), UnsignedTail(u, hash(u.encryptedBody)));
  }

  function UnsignedBytes(u: UnsignedCommit, hash: Bytes -> Bytes32): (bytes: Bytes)
    ensures WithinLimits(u) ==> bytes == UnsignedFile(u, hash)
  {
    if WithinLimits(u) then
      UnsignedIsSpelled(u, hash);
      EncodeTokens(UnsignedTokens(u, hash))
    else EncodeTokens(UnsignedTokens(u, hash))
  }

  function RecordTokens(unsigned: Bytes, commitId: Bytes32, signature: Bytes64): (tokens: seq<Token>)
    ensures |tokens| == 7
  {
    [MapOf(3), UInt(0), ByteString(unsigned), UInt(1), ByteString(commitId), UInt(2), ByteString(signature)]
  }

  /** A map of three: the unsigned commit, its identifier and the signature. */
  lemma RecordIsSpelled(unsigned: Bytes, commitId: Bytes32, signature: Bytes64)
    requires |unsigned| <= U64_MAX
    ensures Pieces(RecordTokens(unsigned, commitId, signature)) ==
            [[0xa3], [0x00], ShortestHead(2, |unsigned|) + unsigned, [0x01], [0x58, 0x20] + commitId, [0x02],
             [0x58, 0x40] + signature]
  {
    SevenPieces(MapOf(3), UInt(0), ByteString(unsigned), UInt(1), ByteString(commitId), UInt(2), ByteString(signature));
    ShortPiece(MapOf(3));
    ShortPiece(UInt(0));
    ShortPiece(UInt(1));
    ShortPiece(UInt(2));
    StringPiece(unsigned);
    StringPiece(commitId);
    StringPiece(signature);
  }

  lemma SizeOf10(t: seq<Token>)
    requires |t| == 10
    ensures |EncodeTokens(t)| ==
        Size(t[0]) + Size(t[1]) + Size(t[2]) + Size(t[3]) + Size(t[4]) + Size(t[5]) + Size(t[6])
                                 + Size(t[7]) + Size(t[8]) + Size(t[9])
  {
    SizeFrom(t, 0); SizeFrom(t, 1); SizeFrom(t, 2);
    L.SizeOf7(t[3..]);
    assert t[0..] == t;
  }

  lemma {:induction false} ParentsSize(parents: seq<Bytes32>)
    ensures |EncodeTokens(ParentTokens(parents))| == 34 * |parents|
  {
    if parents != [] {
      ParentsSize(parents[1..]);
      EncodeCons(ParentTokens(parents));
      assert ParentTokens(parents)[1..] == ParentTokens(parents[1..]);
    }
  }

  lemma UnsignedSize(u: UnsignedCommit, hash: Bytes -> Bytes32)
    requires |u.parents| <= MAX_COMMIT_PARENTS && |u.encryptedBody| <= MAX_COMMIT_BODY_BYTES
    ensures |UnsignedBytes(u, hash)| <= |u.encryptedBody| + 642
  {
    var tail := UnsignedTail(u, hash(u.encryptedBody));
    EncodeConcat(UnsignedHead(u), ParentTokens(u.parents));
    EncodeConcat(UnsignedHead(u) + ParentTokens(u.parents), tail);
    HeadSize(u);
    ParentsSize(u.parents);
    TailSize(u, hash(u.encryptedBody));
  }

  lemma HeadSize(u: UnsignedCommit)
    requires |u.parents| <= MAX_COMMIT_PARENTS
    ensures |EncodeTokens(UnsignedHead(u))| == 23
  {
    L.SizeOf7(UnsignedHead(u));
  }

  lemma TailSize(u: UnsignedCommit, bodyHash: Bytes32)
    requires |u.encryptedBody| <= MAX_COMMIT_BODY_BYTES
    ensures |EncodeTokens(UnsignedTail(u, bodyHash))| <= |u.encryptedBody| + 75
  {
    SizeOf10(UnsignedTail(u, bodyHash));
  }

  function RecordBytes(c: SignedRecord, hash: Bytes -> Bytes32): (bytes: Bytes)
    ensures WithinLimits(c.unsigned) ==>
              var unsigned := UnsignedBytes(c.unsigned, hash);
              && |unsigned| <= U64_MAX
              && bytes == Flatten([[0xa3], [0x00], ShortestHead(2, |unsigned|) + unsigned, [0x01],
                                   [0x58, 0x20] + c.commitId, [0x02], [0x58, 0x40] + c.signature])
  {
    var unsigned := UnsignedBytes(c.unsigned, hash);
    if WithinLimits(c.unsigned) then
      UnsignedSize(c.unsigned, hash);
      RecordIsSpelled(unsigned, c.commitId, c.signature);
      EncodeTokens(RecordTokens(unsigned, c.commitId, c.signature))
    else EncodeTokens(RecordTokens(unsigned, c.commitId, c.signature))
  }

  /** The limits on the fields imply the limit on the record. */
  lemma RecordsFit(c: SignedRecord, hash: Bytes -> Bytes32)
    requires |c.unsigned.parents| <= MAX_COMMIT_PARENTS && |c.unsigned.encryptedBody| <= MAX_COMMIT_BODY_BYTES
    ensures |RecordBytes(c, hash)| <= MAX_SIGNED_COMMIT_BYTES
  {
    UnsignedSize(c.unsigned, hash);
    RecordSize(UnsignedBytes(c.unsigned, hash), c.commitId, c.signature);
  }

  lemma RecordSize(unsigned: Bytes, commitId: Bytes32, signature: Bytes64)
    requires |unsigned| < 0x1_0000_0000
    ensures |EncodeTokens(RecordTokens(unsigned, commitId, signature))| <= |unsigned| + 109
  {
    var t := RecordTokens(unsigned, commitId, signature);
    L.SizeOf7(t);
    ByteStringSize(unsigned);
    ByteStringSize(commitId);
    ByteStringSize(signature);
    assert Size(t[0]) == Size(t[1]) == Size(t[3]) == Size(t[5]) == 1;
  }

  lemma ByteStringSize(bytes: Bytes)
    requires |bytes| < 0x1_0000_0000
    ensures Size(ByteString(bytes)) <= |bytes| + 5
    ensures |bytes| < 0x100 ==> Size(ByteString(bytes)) <= |bytes| + 2
  {}

  method EncodeUnsigned(u: UnsignedCommit, hash: Bytes -> Bytes32) returns (r: Result<Bytes, RecordError>)
    ensures r.Ok? <==> ValidUnsigned(u)
    ensures r.Ok? ==> r.value == UnsignedBytes(u, hash)
  {
    var error := ValidateUnsigned(u);
    if error.Some? { return Err(error.value); }
    var tail := UnsignedTail(u, hash(u.encryptedBody));
    var encoder := new Encoder();
    encoder.Write(UnsignedHead(u));
    encoder.Write(ParentTokens(u.parents));
    encoder.Write(tail);
    EncodeConcat(UnsignedHead(u), ParentTokens(u.parents));
    EncodeConcat(UnsignedHead(u) + ParentTokens(u.parents), tail);
    assert [] + EncodeTokens(UnsignedHead(u)) == EncodeTokens(UnsignedHead(u));
    r := Ok(encoder.output);
  }

  function RecordOf(u: UnsignedCommit, signer: Signer): SignedRecord {
    var id := signer.commitId(UnsignedBytes(u, signer.hash));
    SignedRecord(u, id, signer.sign(id))
  }

  /** `SignedCommit::create`. */
  method CreateRecord(u: UnsignedCommit, signer: Signer) returns (r: Result<SignedRecord, RecordError>)
    ensures r.Ok? <==> ValidUnsigned(u)
    ensures r.Ok? ==> r.value == RecordOf(u, signer)
  {
    var error := ValidateUnsigned(u);
    if error.Some? { return Err(error.value); }
    var encoded := EncodeUnsigned(u, signer.hash);
    match encoded
    case Err(refusal) => r := Err(refusal);
    case Ok(bytes) =>
      var id := signer.commitId(bytes);
      r := Ok(SignedRecord(u, id, signer.sign(id)));
  }

  /** `encode_signed_commit`: the limit on the whole record never refuses one whose fields are valid. */
  method EncodeSignedCommit(c: SignedRecord, signer: Signer) returns (r: Result<Bytes, RecordError>)
    ensures r.Ok? <==>
              ValidUnsigned(c.unsigned) && c.commitId == signer.commitId(UnsignedBytes(c.unsigned, signer.hash))
    ensures r.Ok? ==> r.value == RecordBytes(c, signer.hash)
  {
    var error := ValidateUnsigned(c.unsigned);
    if error.Some? { return Err(error.value); }
    var unsigned := EncodeUnsigned(c.unsigned, signer.hash);
    match unsigned
    case Err(refusal) => r := Err(refusal);
    case Ok(bytes) =>
      if signer.commitId(bytes) != c.commitId { return Err(InvalidCommitId); }
      var encoder := new Encoder();
      encoder.Write(RecordTokens(bytes, c.commitId, c.signature));
      RecordsFit(c, signer.hash);
      r := if |encoder.output| > MAX_SIGNED_COMMIT_BYTES then Err(Codec(LimitExceeded)) else Ok(encoder.output);
  }

  // ----- the decoder of records

  function UnsignedTokens(u: UnsignedCommit, hash: Bytes -> Bytes32): (tokens: seq<Token>)
    ensures |tokens| == 17 + |u.parents|
  {
    UnsignedHead(u) + ParentTokens(u.parents) + UnsignedTail(u, hash(u.encryptedBody))
  }

  /** The input is the encoding of a valid unsigned commit. */
  ghost predicate IsUnsigned(input: Bytes, u: UnsignedCommit, hash: Bytes -> Bytes32) {
    ValidUnsigned(u) && input == UnsignedBytes(u, hash)
  }

  lemma UnsignedFits(u: UnsignedCommit, hash: Bytes -> Bytes32)
    requires ValidUnsigned(u)
    ensures AllFit(UnsignedTokens(u, hash))
  {
    forall t | t in UnsignedHead(u) ensures Fits(t) {}
    forall t | t in ParentTokens(u.parents) ensures Fits(t) {}
    forall t | t in UnsignedTail(u, hash(u.encryptedBody)) ensures Fits(t) {}
  }

  /** Two valid unsigned commits with one encoding are the same. */
  lemma UnsignedIsUnique(a: UnsignedCommit, b: UnsignedCommit, hash: Bytes -> Bytes32)
    requires ValidUnsigned(a) && ValidUnsigned(b) && UnsignedBytes(a, hash) == UnsignedBytes(b, hash)
    ensures a == b
  {
    UnsignedFits(a, hash);
    UnsignedFits(b, hash);
    TokensAreUnique(UnsignedTokens(a, hash), UnsignedTokens(b, hash));
    SameUnsigned(a, b, UnsignedTail(a, hash(a.encryptedBody)), UnsignedTail(b, hash(b.encryptedBody)));
  }

  lemma SameUnsigned(a: UnsignedCommit, b: UnsignedCommit, s: seq<Token>, t: seq<Token>)
    requires UnsignedHead(a) + ParentTokens(a.parents) + s == UnsignedHead(b) + ParentTokens(b.parents) + t
    requires |s| == |t| == 10 && s[1] == ByteString(a.deviceId) && t[1] == ByteString(b.deviceId)
    requires s[3] == UInt(a.deviceSequence) && t[3] == UInt(b.deviceSequence)
    requires s[9] == ByteString(a.encryptedBody) && t[9] == ByteString(b.encryptedBody)
    ensures a == b
  {
    var x, y := UnsignedHead(a) + ParentTokens(a.parents) + s, UnsignedHead(b) + ParentTokens(b.parents) + t;
    assert x[4] == ByteString(a.vaultId) && y[4] == ByteString(b.vaultId);
    assert |x| == 17 + |a.parents| && |y| == 17 + |b.parents|;
    assert x[7 + |a.parents|..] == s && y[7 + |b.parents|..] == t;
    forall i | 0 <= i < |a.parents| ensures a.parents[i] == b.parents[i] {
      assert x[7 + i] == ByteString(a.parents[i]) && y[7 + i] == ByteString(b.parents[i]);
    }
  }

  ghost predicate ParentsRead(d: Decoder, target: Option<UnsignedCommit>, hash: Bytes -> Bytes32, parents: seq<Bytes32>)
    reads d
  {
    target.Some? ==>
      && d.script == UnsignedTokens(target.value, hash) && d.following && d.at == 7 + |parents|
      && |parents| <= |target.value.parents| && parents == target.value.parents[..|parents|]
  }

  method DecodeUnsignedHead(d: Decoder, ghost target: Option<UnsignedCommit>, ghost hash: Bytes -> Bytes32)
    returns (r: Result<(Bytes16, nat), Error>)
    requires d.Valid() && (target.Some? ==> d.Follows(UnsignedHead(target.value)))
    modifies d
    ensures d.Valid()
    ensures target.Some? ==>
              r == Ok((target.value.vaultId, |target.value.parents|)) && d.following && d.at == old(d.at) + 7
  {
    ghost var start := d.at;
    if target.Some? {
      var tokens := UnsignedHead(target.value);
      assert d.script[start + 0] == tokens[0] && d.script[start + 1] == tokens[1] && d.script[start + 2] == tokens[2];
      assert d.script[start + 3] == tokens[3] && d.script[start + 4] == tokens[4] && d.script[start + 5] == tokens[5];
      assert d.script[start + 6] == tokens[6];
    }
    var _ :- d.Expect(MapOf(8));
    var _ :- d.Expect(UInt(0));
    var _ :- d.Expect(UInt(PROTOCOL_VERSION));
    var _ :- d.Expect(UInt(1));
    var vaultId :- ReadFixed16(d);
    var _ :- d.Expect(UInt(2));
    var count :- d.ReadArray();
    r := Ok((vaultId, count));
  }

  lemma ParentFollows(d: Decoder, u: UnsignedCommit, hash: Bytes -> Bytes32, parents: seq<Bytes32>)
    requires ParentsRead(d, Some(u), hash, parents) && |parents| < |u.parents|
    ensures d.Coming() && d.script[d.at] == ByteString(u.parents[|parents|])
  {
    assert UnsignedTokens(u, hash)[7 + |parents|] == ParentTokens(u.parents)[|parents|];
  }

  method DecodeParents(d: Decoder, count: nat, ghost target: Option<UnsignedCommit>, ghost hash: Bytes -> Bytes32)
    returns (r: Result<seq<Bytes32>, Error>)
    requires d.Valid() && ParentsRead(d, target, hash, []) && (target.Some? ==> count == |target.value.parents|)
    modifies d
    ensures d.Valid() && (target.Some? ==> r.Ok?)
    ensures r.Ok? ==> |r.value| == count && ParentsRead(d, target, hash, r.value)
  {
    var parents: seq<Bytes32> := [];
    for i := 0 to count
      invariant d.Valid() && |parents| == i && ParentsRead(d, target, hash, parents)
    {
      if target.Some? { ParentFollows(d, target.value, hash, parents); }
      var parent :- ReadFixed32(d);
      parents := parents + [parent];
    }
    r := Ok(parents);
  }

  method DecodeSigner(d: Decoder, ghost target: Option<UnsignedCommit>, ghost bodyHash: Bytes32)
    returns (r: Result<(Bytes16, U64), Error>)
    requires d.Valid() && (target.Some? ==> d.Follows(UnsignedTail(target.value, bodyHash)))
    modifies d
    ensures d.Valid()
    ensures target.Some? ==>
              r == Ok((target.value.deviceId, target.value.deviceSequence)) && d.following && d.at == old(d.at) + 4
  {
    ghost var start := d.at;
    if target.Some? {
      var tokens := UnsignedTail(target.value, bodyHash);
      assert d.script[start + 0] == tokens[0] && d.script[start + 1] == tokens[1];
      assert d.script[start + 2] == tokens[2] && d.script[start + 3] == tokens[3];
    }
    var _ :- d.Expect(UInt(3));
    var deviceId :- ReadFixed16(d);
    var _ :- d.Expect(UInt(4));
    var deviceSequence :- d.ReadUInt(U64_MAX);
    r := Ok((deviceId, deviceSequence));
  }

  method DecodeUnsignedTail(d: Decoder, ghost target: Option<UnsignedCommit>, ghost hash: Bytes -> Bytes32)
    returns (r: Result<(Bytes16, U64, U64, Bytes32, Bytes), Error>)
    requires d.Valid() && (target.Some? ==> d.Follows(UnsignedTail(target.value, hash(target.value.encryptedBody))))
    requires target.Some? ==> |target.value.encryptedBody| <= MAX_COMMIT_BODY_BYTES
    modifies d
    ensures d.Valid()
    ensures target.Some? ==>
              && r == Ok((target.value.deviceId, target.value.deviceSequence, |target.value.encryptedBody|,
                          hash(target.value.encryptedBody), target.value.encryptedBody))
              && d.following && d.at == old(d.at) + 10
  {
    ghost var start := d.at;
    if target.Some? {
      var tokens := UnsignedTail(target.value, hash(target.value.encryptedBody));
      assert d.script[start + 4] == tokens[4] && d.script[start + 5] == tokens[5] && d.script[start + 6] == tokens[6];
      assert d.script[start + 7] == tokens[7] && d.script[start + 8] == tokens[8] && d.script[start + 9] == tokens[9];
    }
    var signer :- DecodeSigner(d, target, if target.Some? then hash(target.value.encryptedBody) else seq(32, _ => 0));
    var _ :- d.Expect(UInt(5));
    var size :- d.ReadUInt(U64_MAX);
    var _ :- d.Expect(UInt(6));
    var bodyHash :- ReadFixed32(d);
    var _ :- d.Expect(UInt(7));
    var encryptedBody :- d.ReadBytes();
    r := Ok((signer.0, signer.1, size, bodyHash, encryptedBody));
  }

  lemma HeadOfUnsignedFollows(d: Decoder, u: UnsignedCommit, hash: Bytes -> Bytes32)
    requires d.script == UnsignedTokens(u, hash) && d.following && d.at == 0
    ensures d.Follows(UnsignedHead(u))
  {}

  lemma TailOfUnsignedFollows(d: Decoder, u: UnsignedCommit, hash: Bytes -> Bytes32)
    requires ParentsRead(d, Some(u), hash, u.parents)
    ensures d.Follows(UnsignedTail(u, hash(u.encryptedBody)))
  {
    var before := UnsignedHead(u) + ParentTokens(u.parents);
    assert UnsignedTokens(u, hash) == before + UnsignedTail(u, hash(u.encryptedBody)) && |before| == d.at;
  }

  lemma UnsignedEnds(d: Decoder, u: UnsignedCommit, hash: Bytes -> Bytes32)
    requires d.Valid() && d.script == UnsignedTokens(u, hash) && d.following && d.at == 17 + |u.parents|
    ensures d.pos == |d.input|
  {}

  method DecodeUnsignedFields(d: Decoder, ghost target: Option<UnsignedCommit>, hash: Bytes -> Bytes32)
    returns (r: Result<UnsignedCommit, RecordError>)
    requires d.Valid() && d.at == 0
    requires target.Some? ==>
               ValidUnsigned(target.value) && d.following && d.script == UnsignedTokens(target.value, hash)
    modifies d
    ensures d.Valid()
    ensures target.Some? ==> r == Ok(target.value) && d.pos == |d.input|
  {
    if target.Some? { HeadOfUnsignedFollows(d, target.value, hash); }
    var head := DecodeUnsignedHead(d, target, hash);
    if head.Err? { return Err(Codec(head.error)); }
    if head.value.1 > MAX_COMMIT_PARENTS { return Err(Codec(LimitExceeded)); }
    var parents := DecodeParents(d, head.value.1, target, hash);
    if parents.Err? { return Err(Codec(parents.error)); }
    if target.Some? { TailOfUnsignedFollows(d, target.value, hash); }
    var tail := DecodeUnsignedTail(d, target, hash);
    if tail.Err? { return Err(Codec(tail.error)); }
    var (deviceId, deviceSequence, size, bodyHash, encryptedBody) := tail.value;
    if |encryptedBody| > MAX_COMMIT_BODY_BYTES || |encryptedBody| != size || hash(encryptedBody) != bodyHash {
      return Err(Codec(InvalidFormat));
    }
    if target.Some? { UnsignedEnds(d, target.value, hash); }
    r := Ok(UnsignedCommit(head.value.0, parents.value, deviceId, deviceSequence, encryptedBody));
  }

  method DecodeUnsignedWithin(input: Bytes, hash: Bytes -> Bytes32, ghost target: Option<UnsignedCommit>)
    returns (r: Result<UnsignedCommit, RecordError>)
    requires target.Some? ==> IsUnsigned(input, target.value, hash) && AllFit(UnsignedTokens(target.value, hash))
    ensures r.Ok? ==> IsUnsigned(input, r.value, hash)
    ensures target.Some? ==> r == Ok(target.value)
  {
    var d := new Decoder(input, if target.Some? then UnsignedTokens(target.value, hash) else [], target.Some?);
    var unsigned :- DecodeUnsignedFields(d, target, hash);
    var error := ValidateUnsigned(unsigned);
    if error.Some? { return Err(error.value); }
    var encoded := EncodeUnsigned(unsigned, hash);
    match encoded
    case Err(refusal) => r := Err(refusal);
    case Ok(bytes) => r := if d.pos != |input| || bytes != input then Err(Codec(InvalidFormat)) else Ok(unsigned);
  }

  /** `decode_unsigned` inverts the encoder on every valid unsigned commit and accepts nothing else. */
  method DecodeUnsigned(input: Bytes, hash: Bytes -> Bytes32) returns (r: Result<UnsignedCommit, RecordError>)
    ensures forall u :: r == Ok(u) <==> IsUnsigned(input, u, hash)
  {
    ghost var target := None;
    if u :| IsUnsigned(input, u, hash) {
      target := Some(u);
      UnsignedFits(u, hash);
    }
    r := DecodeUnsignedWithin(input, hash, target);
    forall u | IsUnsigned(input, u, hash) ensures r == Ok(u) {
      UnsignedIsUnique(u, target.value, hash);
    }
  }

  /** The input is the record of a valid commit with its right identifier. */
  ghost predicate IsRecord(input: Bytes, c: SignedRecord, signer: Signer) {
    && ValidUnsigned(c.unsigned) && c.commitId == signer.commitId(UnsignedBytes(c.unsigned, signer.hash))
    && input == RecordBytes(c, signer.hash)
  }

  lemma RecordIsUnique(a: Bytes, b: Bytes, ids: (Bytes32, Bytes32), signatures: (Bytes64, Bytes64))
    requires |a| <= U64_MAX && |b| <= U64_MAX
    requires EncodeTokens(RecordTokens(a, ids.0, signatures.0)) == EncodeTokens(RecordTokens(b, ids.1, signatures.1))
    ensures a == b && ids.0 == ids.1 && signatures.0 == signatures.1
  {
    var x, y := RecordTokens(a, ids.0, signatures.0), RecordTokens(b, ids.1, signatures.1);
    TokensAreUnique(x, y);
    assert x[2] == y[2] && x[4] == y[4] && x[6] == y[6];
  }

  lemma RecordsAreUnique(a: SignedRecord, b: SignedRecord, hash: Bytes -> Bytes32)
    requires ValidUnsigned(a.unsigned) && ValidUnsigned(b.unsigned) && RecordBytes(a, hash) == RecordBytes(b, hash)
    ensures a == b
  {
    UnsignedSize(a.unsigned, hash);
    UnsignedSize(b.unsigned, hash);
    RecordIsUnique(UnsignedBytes(a.unsigned, hash), UnsignedBytes(b.unsigned, hash), (a.commitId, b.commitId),
                   (a.signature, b.signature));
    UnsignedIsUnique(a.unsigned, b.unsigned, hash);
  }

  method ReadFixed64(d: Decoder) returns (r: Result<Bytes64, Error>)
    requires d.Valid()
    modifies d
    ensures d.Valid()
    ensures old(d.Coming()) && d.script[old(d.at)].ByteString? && |d.script[old(d.at)].bytes| == 64 ==>
              r == Ok(d.script[old(d.at)].bytes) && d.Passed(old(d.at))
  {
    var bytes :- d.ReadBytes();
    if |bytes| != 64 { return Err(InvalidFormat); }
    r := Ok(bytes);
  }

  method DecodeRecordFields(d: Decoder, ghost target: Option<SignedRecord>, ghost hash: Bytes -> Bytes32)
    returns (r: Result<(Bytes, Bytes32, Bytes64), Error>)
    requires d.Valid() && d.at == 0
    requires target.Some? ==>
               && d.following
               && d.script == RecordTokens(UnsignedBytes(target.value.unsigned, hash), target.value.commitId,
                                           target.value.signature)
    modifies d
    ensures d.Valid()
    ensures target.Some? ==>
              && r == Ok((UnsignedBytes(target.value.unsigned, hash), target.value.commitId, target.value.signature))
              && d.pos == |d.input|
  {
    var _ :- d.Expect(MapOf(3));
    var _ :- d.Expect(UInt(0));
    var unsigned :- d.ReadBytes();
    var _ :- d.Expect(UInt(1));
    var commitId :- ReadFixed32(d);
    var _ :- d.Expect(UInt(2));
    var signature :- ReadFixed64(d);
    r := Ok((unsigned, commitId, signature));
  }

  method DecodeRecordWithin(input: Bytes, signer: Signer, ghost target: Option<SignedRecord>)
    returns (r: Result<SignedRecord, RecordError>)
    requires target.Some? ==> IsRecord(input, target.value, signer)
    requires target.Some? ==>
               AllFit(RecordTokens(UnsignedBytes(target.value.unsigned, signer.hash), target.value.commitId,
                                   target.value.signature))
    ensures r.Ok? ==> IsRecord(input, r.value, signer)
    ensures target.Some? ==> r == Ok(target.value)
  {
    ghost var script := [];
    if target.Some? {
      var c := target.value;
      script := RecordTokens(UnsignedBytes(c.unsigned, signer.hash), c.commitId, c.signature);
    }
    var d := new Decoder(input, script, target.Some?);
    var fields := DecodeRecordFields(d, target, signer.hash);
    if fields.Err? { return Err(Codec(fields.error)); }
    assert target.Some? ==> IsUnsigned(fields.value.0, target.value.unsigned, signer.hash);
    var unsigned :- DecodeUnsigned(fields.value.0, signer.hash);
    var commitId := signer.commitId(fields.value.0);
    if commitId != fields.value.1 { return Err(InvalidCommitId); }
    var commit := SignedRecord(unsigned, commitId, fields.value.2);
    var encoded := EncodeSignedCommit(commit, signer);
    match encoded
    case Err(refusal) => r := Err(refusal);
    case Ok(bytes) => r := if d.pos != |input| || bytes != input then Err(Codec(InvalidFormat)) else Ok(commit);
  }

  lemma RecordFits(c: SignedRecord, signer: Signer)
    requires ValidUnsigned(c.unsigned)
    ensures AllFit(RecordTokens(UnsignedBytes(c.unsigned, signer.hash), c.commitId, c.signature))
  {
    UnsignedSize(c.unsigned, signer.hash);
    forall t | t in RecordTokens(UnsignedBytes(c.unsigned, signer.hash), c.commitId, c.signature) ensures Fits(t) {}
  }

  /** `decode_signed_commit` inverts the encoder on every valid commit and accepts nothing else. */
  method DecodeSignedCommit(input: Bytes, signer: Signer) returns (r: Result<SignedRecord, RecordError>)
    ensures forall c :: r == Ok(c) <==> IsRecord(input, c, signer)
  {
    ghost var target := None;
    if c :| IsRecord(input, c, signer) {
      target := Some(c);
      RecordsFit(c, signer.hash);
      RecordFits(c, signer);
    }
    if |input| > MAX_SIGNED_COMMIT_BYTES { return Err(Codec(LimitExceeded)); }
    r := DecodeRecordWithin(input, signer, target);
    forall c | IsRecord(input, c, signer) ensures r == Ok(c) {
      RecordsAreUnique(c, target.value, signer.hash);
    }
  }

  // ----- one commit

  /** The unlocked vault and the device as `create_signed_commit` uses them. */
  datatype Core = Core(vaultId: Bytes16, deviceId: Bytes16, cipher: Cipher, subkeys: Subkeys, signer: Signer)

  /** The new object identifier, key and nonces of the encrypted body. */
  datatype Random = Random(objectId: Bytes16, material: Material)

  function EncryptedBody(core: Core, random: Random, body: CommitBody): (e: ObjectEnvelope)
    ensures e.identity == Identity(core.vaultId, random.objectId, 1, Commit)
  {
    Sealed(core.cipher, core.subkeys, Identity(core.vaultId, random.objectId, 1, Commit), B.BodyBytes(body),
           random.material)
  }

  /** The commit that carries the body. */
  function CommitOf(core: Core, random: Random, parents: seq<Bytes32>, sequence: U64,
                    body: CommitBody): UnsignedCommit
  {
    UnsignedCommit(core.vaultId, parents, core.deviceId, sequence, EnvelopeBytes(EncryptedBody(core, random, body)))
  }

  /** What encryption adds to a body near the limit. */
  const ENVELOPE_OVERHEAD: nat := 170

  /** The limit on the encrypted body, in terms of the body's own bytes. */
  lemma EncryptedBodyFitsExactly(core: Core, random: Random, body: CommitBody)
    requires AppendsTag(core.cipher) && |B.BodyBytes(body)| <= MAX_COMMIT_BODY_BYTES
    ensures ValidEnvelope(EncryptedBody(core, random, body))
    ensures |EnvelopeBytes(EncryptedBody(core, random, body))| <= MAX_COMMIT_BODY_BYTES <==>
              |B.BodyBytes(body)| + ENVELOPE_OVERHEAD <= MAX_COMMIT_BODY_BYTES
  {
    EnvelopeSize(EncryptedBody(core, random, body));
  }

  /** When a commit can be created. */
  ghost predicate Creatable(parents: seq<Bytes32>, sequence: U64, body: CommitBody) {
    && ValidBody(body) && |B.BodyBytes(body)| + ENVELOPE_OVERHEAD <= MAX_COMMIT_BODY_BYTES
    && sequence > 0 && |parents| <= MAX_COMMIT_PARENTS && SortedParents(parents)
  }

  lemma CreatableExactly(core: Core, random: Random, parents: seq<Bytes32>, sequence: U64, body: CommitBody)
    requires AppendsTag(core.cipher) && ValidBody(body) && |B.BodyBytes(body)| <= MAX_COMMIT_BODY_BYTES
    ensures ValidUnsigned(CommitOf(core, random, parents, sequence, body)) <==> Creatable(parents, sequence, body)
  {
    var u, e := CommitOf(core, random, parents, sequence, body), EncryptedBody(core, random, body);
    EncryptedBodyFitsExactly(core, random, body);
    assert IsCommitBody(u.encryptedBody, u.vaultId, e);
  }

  /** `create_signed_commit`: succeeds exactly when the body is valid, its encryption is within the body limit, and
      there are at most 16 parents, sorted; the result is the record that `DecodeSignedCommit` reads back. */
  method CreateSignedCommit(core: Core, random: Random, parents: seq<Bytes32>, sequence: U64, body: CommitBody)
    returns (r: Result<Bytes, RecordError>)
    requires AppendsTag(core.cipher)
    ensures r.Ok? <==> Creatable(parents, sequence, body)
    ensures r.Ok? ==>
              IsRecord(r.value, RecordOf(CommitOf(core, random, parents, sequence, body), core.signer), core.signer)
  {
    var plain := B.EncodeCommitBody(body);
    if plain.Err? { return Err(Codec(plain.error)); }
    CreatableExactly(core, random, parents, sequence, body);
    var identity := Identity(core.vaultId, random.objectId, 1, Commit);
    var encrypted := EncryptObject(core.cipher, core.subkeys, identity, plain.value, random.material);
    match encrypted
    case Err(error) => r := Err(Codec(error));
    case Ok(encryptedBody) =>
      var commit :- CreateRecord(UnsignedCommit(core.vaultId, parents, core.deviceId, sequence, encryptedBody),
                                 core.signer);
      r := EncodeSignedCommit(commit, core.signer);
  }

  /** One push holds at most 2942 creations: the encryption takes the room of two more. */
  lemma CreationsPerCommit(parents: seq<Bytes32>, sequence: U64, body: CommitBody)
    requires ValidBody(body) && body.mergeBase.None? && body.conflictObjects == []
    requires forall op :: op in body.operations ==> op.kind.Create?
    requires sequence > 0 && |parents| <= MAX_COMMIT_PARENTS && SortedParents(parents)
    ensures Creatable(parents, sequence, body) <==> |body.operations| <= 2942
  {
    B.BodyInParts(body);
    L.HeaderSize(body);
    L.MiddleSize(body);
    L.CreationsSize(body.operations);
    assert B.ConflictTokens(body.conflictObjects) == [];
  }
}
