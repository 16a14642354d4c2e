/** How a device reads a commit that it has pulled (wasm/ll-client-core/src/formats.rs): decoded, its signature
    verified, its body decrypted and decoded.  What one device creates is what the others read. */
module CommitExchange {
  import opened Basics
  import opened Manifest
  import opened CommitRecord
  import B = BodyCodec
  import PR = PushRecords
  import R = Reconcile
  import Cbor

  datatype OpenError = Refused(reason: RecordError) | WrongSignature | WrongVault | Unreadable(error: Cbor.Error)

  /** What `pull` is told of a commit. */
  datatype OpenedCommit = OpenedCommit(
    commitId: Bytes32,
    parents: seq<Bytes32>,
    deviceId: Bytes16,
    deviceSequence: U64,
    body: CommitBody)

  /** Verification under one device's public key: of an identifier and a signature. */
  type Verifier = (Bytes32, Bytes64) -> bool

  /** The reader: its vault's identifier, cipher and keys, and the hashes every device shares. */
  datatype Reader = Reader(vaultId: Bytes16, cipher: Cipher, subkeys: Subkeys, signer: Signer)

  /** The vault's keys open the input to the plaintext. */
  ghost predicate Clears(reader: Reader, input: Bytes, plaintext: Bytes) {
    exists e :: Holds(reader.cipher, reader.subkeys, input, e, plaintext) && e.identity.vaultId == reader.vaultId
  }

  /** The input is the record `record` with a valid signature, whose encrypted body the vault's keys open to `body`. */
  ghost predicate IsSignedBody(reader: Reader, verify: Verifier, input: Bytes, record: SignedRecord,
                               body: CommitBody)
  {
    && IsRecord(input, record, reader.signer) && verify(record.commitId, record.signature)
    && ValidBody(body) && |B.BodyFile(body)| <= MAX_COMMIT_BODY_BYTES
    && Clears(reader, record.unsigned.encryptedBody, B.BodyFile(body))
  }

  ghost predicate Opens(reader: Reader, verify: Verifier, input: Bytes, commit: OpenedCommit) {
    exists record ::
      && IsSignedBody(reader, verify, input, record, commit.body)
      && commit.commitId == record.commitId && commit.parents == record.unsigned.parents
      && commit.deviceId == record.unsigned.deviceId && commit.deviceSequence == record.unsigned.deviceSequence
  }

  /** `UnlockedVault::decrypt`: only objects of this vault. */
  method Decrypt(reader: Reader, input: Bytes) returns (r: Result<Bytes, OpenError>)
    requires Authentic(reader.cipher)
    ensures forall plaintext :: r == Ok(plaintext) <==> Clears(reader, input, plaintext)
  {
    var decrypted := DecryptObject(reader.cipher, reader.subkeys, input);
    match decrypted
    case Err(error) => r := Err(Unreadable(error));
    case Ok((e, plaintext)) => r := if e.identity.vaultId != reader.vaultId then Err(WrongVault) else Ok(plaintext);
  }

  /** `decode_signed_commit_output`: succeeds exactly on a record with a valid signature whose body this vault's keys
      open, and returns what it says. */
  method OpenCommit(reader: Reader, verify: Verifier, input: Bytes) returns (r: Result<OpenedCommit, OpenError>)
    requires Authentic(reader.cipher)
    ensures forall commit :: r == Ok(commit) <==> Opens(reader, verify, input, commit)
  {
    var decoded := DecodeSignedCommit(input, reader.signer);
    if decoded.Err? { return Err(Refused(decoded.error)); }
    var record := decoded.value;
    if !verify(record.commitId, record.signature) { return Err(WrongSignature); }
    var clear :- Decrypt(reader, record.unsigned.encryptedBody);
    var body := B.DecodeCommitBody(clear);
    if body.Err? { return Err(Unreadable(body.error)); }
    r := Ok(OpenedCommit(record.commitId, record.unsigned.parents, record.unsigned.deviceId,
                         record.unsigned.deviceSequence, body.value));
  }

  // ----- what one device creates another reads

  /** Two devices of one vault: their identifiers of it, keys and hashes agree, the cipher is an authenticated one, and
      the reader verifies with the creator's public key. */
  ghost predicate Trusts(reader: Reader, verify: Verifier, core: Core) {
    && reader == Reader(core.vaultId, core.cipher, core.subkeys, core.signer)
    && AppendsTag(core.cipher) && Authentic(core.cipher)
    && forall id :: verify(id, core.signer.sign(id))
  }

  /** The record's body opens to what was created. */
  lemma CreatedOpens(reader: Reader, verify: Verifier, core: Core, random: Random, parents: seq<Bytes32>, sequence: U64,
                     body: CommitBody, input: Bytes)
    requires Trusts(reader, verify, core) && Creatable(parents, sequence, body)
    requires IsRecord(input, RecordOf(CommitOf(core, random, parents, sequence, body), core.signer), core.signer)
    ensures exists id :: Opens(reader, verify, input, OpenedCommit(id, parents, core.deviceId, sequence, body))
  {
    var record := RecordOf(CommitOf(core, random, parents, sequence, body), core.signer);
    var e := EncryptedBody(core, random, body);
    B.BodyIsSpelled(body);
    EncryptedBodyFitsExactly(core, random, body);
    assert Holds(reader.cipher, reader.subkeys, record.unsigned.encryptedBody, e, B.BodyFile(body));
    assert IsSignedBody(reader, verify, input, record, body);
    assert Opens(reader, verify, input, OpenedCommit(record.commitId, parents, core.deviceId, sequence, body));
  }

  /** What one device creates within the limits every other device of the vault reads: the same parents, signer,
      sequence and body. */
  method CreateThenOpen(reader: Reader, verify: Verifier, core: Core, random: Random, parents: seq<Bytes32>,
                        sequence: U64, body: CommitBody)
    returns (created: bool, r: Result<OpenedCommit, OpenError>)
    requires Trusts(reader, verify, core)
    ensures created <==> Creatable(parents, sequence, body)
    ensures created ==>
              && r.Ok? && r.value.parents == parents && r.value.deviceId == core.deviceId
              && r.value.deviceSequence == sequence && r.value.body == body
  {
    var record := CreateSignedCommit(core, random, parents, sequence, body);
    match record
    case Err(error) => created, r := false, Err(Refused(error));
    case Ok(bytes) =>
      created := true;
      CreatedOpens(reader, verify, core, random, parents, sequence, body, bytes);
      r := OpenCommit(reader, verify, bytes);
  }

  /** What a push publishes is what the vault's other devices read: one operation for each pending one, under the
      heads the push knew, with the manifest's root and blob. */
  method PushThenOpen(reader: Reader, verify: Verifier, core: Core, random: Random, spelling: PR.Spelling,
                      changes: seq<R.Operation>, records: PR.Records, timestamp: nat, sequence: nat, root: Bytes32,
                      blob: Bytes32, parents: seq<Id>)
    returns (created: bool, r: Result<OpenedCommit, OpenError>)
    requires Trusts(reader, verify, core) && PR.AllPrepared(changes, records) && PR.KeepsOrder(spelling, records.Keys)
    requires StrictlyIncreasing(parents) && PR.CommitsKeepOrder(spelling, ToSet(parents))
    requires timestamp > 0 && sequence > 0
    ensures created <==> PR.PushFits(changes, timestamp, sequence, |parents|)
    ensures created ==>
              && r.Ok? && r.value.deviceId == core.deviceId && r.value.deviceSequence == sequence
              && |r.value.parents| == |parents|
              && (forall i :: 0 <= i < |parents| ==> r.value.parents[i] == spelling.commit(parents[i]))
              && r.value.body.logicalTimestamp == timestamp
              && PR.CarriesAll(r.value.body.operations, spelling, changes, records)
              && r.value.body.manifestRoot == root && r.value.body.manifestBlobId == blob
  {
    var record := PR.CreatePush(core, random, spelling, changes, records, timestamp, sequence, root, blob, parents);
    if record.Err? { return false, Err(Unreadable(Cbor.LimitExceeded)); }
    var body := PR.PushBody(spelling, changes, records, timestamp, root, blob);
    PR.PushIsCreatableExactly(spelling, changes, records, timestamp, sequence, root, blob, parents);
    CreatedOpens(reader, verify, core, random, PR.Written(spelling, parents), sequence, body, record.value);
    created := true;
    r := OpenCommit(reader, verify, record.value);
  }
}
