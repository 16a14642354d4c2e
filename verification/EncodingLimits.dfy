/** Which manifests and commit bodies fit their byte limits (crates/ll-versioning/src/manifest.rs). */
module EncodingLimits {
  import opened Basics
  import opened Cbor
  import opened Manifest
  import opened BodyCodec

  lemma SizeOf9(t: seq<Token>)
    requires |t| == 9
    ensures |EncodeTokens(t)| ==
        Size(t[0]) + Size(t[1]) + Size(t[2]) + Size(t[3]) + Size(t[4]) + Size(t[5]) + Size(t[6])
                                 + Size(t[7]) + Size(t[8])
  {
    SizeFrom(t, 0); SizeFrom(t, 1); SizeFrom(t, 2); SizeFrom(t, 3); SizeFrom(t, 4);
    SizeFrom(t, 5); SizeFrom(t, 6); SizeFrom(t, 7); SizeFrom(t, 8);
    assert t[0..] == t;
  }

  lemma SizeOf7(t: seq<Token>)
    requires |t| == 7
    ensures |EncodeTokens(t)| ==
        Size(t[0]) + Size(t[1]) + Size(t[2]) + Size(t[3]) + Size(t[4]) + Size(t[5]) + Size(t[6])
  {
    SizeFrom(t, 0); SizeFrom(t, 1); SizeFrom(t, 2); SizeFrom(t, 3); SizeFrom(t, 4); SizeFrom(t, 5); SizeFrom(t, 6);
    assert t[0..] == t;
  }

  lemma SizeOf8(t: seq<Token>)
    requires |t| == 8
    ensures |EncodeTokens(t)| ==
        Size(t[0]) + Size(t[1]) + Size(t[2]) + Size(t[3]) + Size(t[4]) + Size(t[5]) + Size(t[6])
                                 + Size(t[7])
  {
    SizeFrom(t, 0); SizeFrom(t, 1); SizeFrom(t, 2); SizeFrom(t, 3); SizeFrom(t, 4); SizeFrom(t, 5); SizeFrom(t, 6);
    SizeFrom(t, 7);
    assert t[0..] == t;
  }

  // ----- manifests

  lemma EntrySize(e: ManifestEntry)
    ensures |EncodeTokens(EntryTokens(e))| <= 165
  {
    SizeOf9(EntryTokens(e));
  }

  lemma {:induction false} EntriesSize(entries: seq<ManifestEntry>)
    ensures |EncodeTokens(EntriesTokens(entries))| <= 165 * |entries|
  {
    if entries != [] {
      EntriesSize(entries[1..]);
      EntrySize(entries[0]);
      EncodeConcat(EntryTokens(entries[0]), EntriesTokens(entries[1..]));
    }
  }

  /** The entry limit implies the byte limit: the encoder fails only on an invalid manifest. */
  lemma ValidManifestsFit(m: Manifest)
    requires ValidManifest(m)
    ensures |ManifestBytes(m)| <= MAX_MANIFEST_BYTES
  {
    EncodeConcat(ManifestHeader(m), EntriesTokens(m.entries));
    SizeOf7(ManifestHeader(m));
    EntriesSize(m.entries);
  }

  // ----- commit bodies

  lemma CreationSize(op: Operation)
    requires op.kind.Create? && ValidOperation(op)
    ensures |EncodeTokens(OperationTokens(op))| == 89
  {
    SizeOf7(OperationTokens(op));
  }

  lemma {:induction false} CreationsSize(ops: seq<Operation>)
    requires forall op :: op in ops ==> op.kind.Create? && ValidOperation(op)
    ensures |EncodeTokens(OperationsTokens(ops))| == 89 * |ops|
  {
    if ops != [] {
      CreationsSize(ops[1..]);
      CreationSize(ops[0]);
      EncodeConcat(OperationTokens(ops[0]), OperationsTokens(ops[1..]));
    }
  }

  lemma HeaderSize(body: CommitBody)
    ensures 7 <= |EncodeTokens(BodyHeader(body))| <= 23
  {
    SizeOf7(BodyHeader(body));
  }

  lemma MiddleSize(body: CommitBody)
    requires body.mergeBase.None? && body.conflictObjects == []
    ensures |EncodeTokens(BodyMiddle(body))| == 74
  {
    SizeOf8(BodyMiddle(body));
  }

  const MAX_CREATIONS_PER_BODY: nat := 2944

  /** The byte limit, not the operation limit, bounds one body: a body of creations is encoded exactly when it
      has at most 2944 of them. */
  lemma CreationsFitExactly(body: CommitBody)
    requires ValidBody(body) && body.mergeBase.None? && body.conflictObjects == []
    requires forall op :: op in body.operations ==> op.kind.Create?
    ensures |BodyBytes(body)| <= MAX_COMMIT_BODY_BYTES <==> |body.operations| <= MAX_CREATIONS_PER_BODY
  {
    BodyInParts(body);
    HeaderSize(body);
    MiddleSize(body);
    CreationsSize(body.operations);
    assert ConflictTokens(body.conflictObjects) == [];
  }

  lemma OperationSize(op: Operation)
    ensures |EncodeTokens(OperationTokens(op))| >= 23
  {
    SizeOf7(OperationTokens(op));
  }

  lemma {:induction false} OperationsSize(ops: seq<Operation>)
    ensures |EncodeTokens(OperationsTokens(ops))| >= 23 * |ops|
  {
    if ops != [] {
      OperationsSize(ops[1..]);
      OperationSize(ops[0]);
      EncodeConcat(OperationTokens(ops[0]), OperationsTokens(ops[1..]));
    }
  }

  /** No encodable commit comes near `MAX_OPERATIONS`. */
  lemma OperationLimitIsNeverReached(body: CommitBody)
    requires |BodyBytes(body)| <= MAX_COMMIT_BODY_BYTES
    ensures |body.operations| < 11_398 < MAX_OPERATIONS
  {
    BodyInParts(body);
    OperationsSize(body.operations);
  }
}
