# Learning-loop synchronization: a verified model

This project models the synchronization core of the repository and proves properties of it with Dafny:

- **the commit tables of the server** (`CommitStore`, `CommitRuns`), the in-memory commit graph (`GraphIndex`), and
  the refinement between the two (`StoreRefinesGraph`);
- **publication**: any number of devices that pull, prepare, send and retry over a network that loses, repeats and
  delays messages, as a state machine (`Protocol`, `ProtocolTheorems`), and the engine's `push` as a class every
  outcome of which is a run of that machine (`Publishing`, `PushRecords`, `Stage`), particular runs (`ProtocolRuns`)
  and whole cycles of pull, reconcile and push (`PushCycle`);
- **paging and merge bases** (`Paging`, `MergeBase`);
- **resumable uploads** as a state machine of durable steps with a crash between any two (`BlobStore`), the server's
  operations as those steps (`BlobStorage`), and the client's upload and download loops against it (`Transfer`);
- **conflict handling**: the line merge (`Hunks`, `Merge`), the choice among heads (`SelectEntries`), applying one
  entry to the vault (`Vault`, `ApplyEntry`), and the reconciler's diff (`Reconcile`);
- **indexes and encodings**: the two collision indexes (`Paths`), the deterministic CBOR manifest and commit body
  (`Cbor`, `Manifest`, `BodyCodec`, `EncodingLimits`), the encrypted and signed commit record (`CommitRecord`), how the
  other devices read it (`CommitExchange`), and Noise record framing (`Noise`);
- **learning nodes**: moves and merges on the parent map (`Forest`, `LearningServices`) and the map layout
  (`TopicMap`).

`dafny verify dfyconfig.toml` checks everything.  Code that updates state in place is a class or a method with loops;
its contract ties it to a specification function or states the property outright, and lemmas prove what follows over
all inputs or all runs.

## Conventions

- Identifiers are natural numbers: they are fixed-length byte strings that are only compared, and byte order on one
  length is numeric order.  One vault's rows are modelled.  A signed record stands for the commit it decodes to; the
  decoder's exact re-encoding check makes the two correspond (crates/ll-versioning/src/commit.rs:123-157).
- Hashes are injective (`BlobStore.Digest`, `Protocol.CollisionFree`); a signature is "the author is an active
  device"; the Noise cipher is an authenticated map keyed by the nonce (`Noise.Lawful`).
- Collision keys, canonicalization, decoding, disk space, clocks and new identifiers are arbitrary functions or
  parameters.  Where identifiers are written as bytes (`PushRecords`), the order of those in play is kept; the object
  cipher appends a tag of 16 bytes and unseals exactly what it sealed under the same key, nonce, identity and purpose
  (`CommitRecord.Authentic`), and a device's public key verifies what it signed.  The second `require_active_device` of
  an operation is the same check as the first.
- SQL transactions are atomic.  Between two durable file or table steps a crash may happen; a new part file's
  directory entry is durable once created.
- `ApplyEntry` assumes what its caller establishes: the snapshot matches the vault and is free of portable collisions
  (`scanLocal` rejects others; `Paths.GroupsReportConflicts` shows that test exact), and a conflict copy's collision
  key differs from its original's and is as deep.
- CBOR heads of any width are read, as the decoder library does; the exact re-encoding check then refuses all but the
  shortest.  PROTOCOL_VERSION is 1.

## Where the code does less than one might expect

- A device that knows more than 2048 commits can never pull again (`Paging.OversizedKnownSetBlocksPull`); the exact
  condition for a successful pull is in `Paging.PullPages`.  Commits by a revoked device block it too.
- A prepared root commit is refused forever once another device's root is stored first
  (`ProtocolTheorems.LateRootIsRefusedForever`; a run to that state is `ProtocolRuns.LateRootIsReachable`).
- A push makes every head a parent, and a commit may have 16: a device with more heads publishes nothing until a pull
  reports fewer (`ProtocolRuns.CrowdedUntilRelieved`).  Once the server itself has more than 16 and no publication is under
  way, no device ever publishes again (`ProtocolRuns.CongestedForever`); 17 devices that publish from one state bring that
  about (`ProtocolRuns.CongestionIsReachable`).
- When both hunks start at one line and the local one is an insertion, `mergeText` can lose the inserted line
  (`Merge.MergeCanLoseALine`); `Merge.LocalInsertionTieMergesExactly` says exactly when it does not.
- A creation that is still pending when its file is scanned again is doubled
  (`Reconcile.RescannedCreationIsDoubled`); `Reconcile.MergedDiffExactly` says exactly when a scan with pending
  operations is still the difference.  After a lost request both creations get published at one path
  (`PushCycle.DoubledCreationIsPublished`), and every later pull is refused (`PushCycle.DoubledCreationBlocksPulls`).
- A retry seldom sends the bytes staged first: whatever a scan still calls for gets a new operation and is encrypted
  anew (`PushCycle.ScannedIsEncryptedAnew`), and so is a manifest whose upload failed (`Stage.FailedManifestIsForgotten`);
  `Stage.SurvivesCleanupExactly` says exactly which staged ciphertexts outlive the cleanup a push begins with.
- With three heads the newest version can lose, because an equal older version later in the list stands in for it
  (`SelectEntries.NewestCanLose`, exactly `SelectEntries.NewestWinsExactly`).
- The plugin's collision groups forget descendants visited before a crowded ancestor
  (`Paths.DescendantCanBeForgotten`, exactly `Paths.DescendantReportedExactly`); no conflict goes unreported, and
  what the reconciler keeps is conflict-free (`Reconcile.RejectCollisions`).
- One push holds at most 2942 creations: the 256 KiB limit on the encrypted body binds long before the limit of 100 000
  operations (`CommitRecord.CreationsPerCommit`; the unencrypted body alone would hold 2944,
  `EncodingLimits.CreationsFitExactly`).
- A retried publication restores `records` and `lamport` from the prepared commit, so what a pull recorded in between is
  overwritten: `PushCycle.PullThenRetry` says exactly when that loses something, `ProtocolRuns.ClockGoesBack` is a run.
- Merging a node into its own descendant closes a cycle (`LearningServices.MergingIntoChild`, exactly
  `LearningServices.MergeExactly`); with the target as focus the loop of `mobileNeighborhood` then never ends
  (`TopicMap.MergedFocusNeverEnds`, exactly `TopicMap.NeighborhoodLoopsExactly`).
- `uniquePath` inserts the number before the last dot of the whole path, which may belong to a folder
  (`Vault.NumberCanLandInAFolder`, exactly `Vault.NumberStaysInFolder` and, for conflict copies,
  `Vault.NumberedCopyStaysBeside`).

## Model

| member | source | states |
|---|---|---|
| CommitStore.Storage.AcceptCommit | crates/ll-server/src/storage/version.rs:49-140 | new tables and reply are exactly those of `Accept`: checks in order, row, edges and heads, or an error and no change |
| CommitStore.Storage.InsertCommit | crates/ll-server/src/storage/version.rs:69-140 | the path of a commit not stored yet: capacity, root, sequence, parents, then the rows |
| CommitStore.Storage.LinkParents | crates/ll-server/src/storage/version.rs:112-130 | the edge and head updates of all parents, failing as a whole on a repeated edge |
| CommitStore.Storage.ValidateNextDeviceSequence | crates/ll-server/src/storage/version.rs:249-270 | accepts exactly one past the device's highest stored sequence |
| CommitStore.Storage.LoadParentGeneration | crates/ll-server/src/storage/version.rs:272-293 | one past the greatest parent generation, or an error for a missing parent |
| CommitStore.Storage.Changes | crates/ll-server/src/storage/version.rs:185-228 | the page is the first `maximum` unknown commits in (generation, id) order and says whether more remain |
| CommitStore.Storage.RepairHeads | crates/ll-server/src/storage/version.rs:13-36 | the head table becomes the childless commits |
| CommitStore.LoadHeads | crates/ll-server/src/storage/version.rs:295-310 | the sorted heads, or an error above `MAX_HEADS` |
| CommitRuns.AcceptExactly | crates/ll-server/src/storage/version.rs:49-140 | on a reachable store a row is written if and only if the commit is admissible, and then exactly that row; any other call leaves every table unchanged |
| CommitRuns.AcceptKeepsInv | crates/ll-server/src/storage/version.rs:61-140 | accepting keeps: parents present, single root, generations, sequences 1..n, heads equal childless commits, head limit |
| CommitRuns.RunKeepsInv | crates/ll-server/src/storage/version.rs:13-140 | every store reachable by any run satisfies that invariant |
| CommitRuns.RepairIsNoOp | crates/ll-server/src/storage/version.rs:13-36 | on every reachable store `repair_heads` changes nothing |
| CommitRuns.RowsPersist | crates/ll-server/src/storage/version.rs:61-140 | a later store holds every earlier row unchanged |
| CommitRuns.RowsAreOwn | crates/ll-server/src/storage/version.rs:49-140 | over every run a stored row is filed under its own identifier, of this vault, and by the registered device that signed it |
| CommitRuns.AcceptIsIdempotent | crates/ll-server/src/storage/version.rs:55-68 | delivering one commit twice stores it once and reports the same heads |
| GraphIndex.CommitGraph.Insert | crates/ll-versioning/src/graph.rs:27-76 | accepts or refuses exactly as the index function does; nodes and heads change accordingly or not at all |
| GraphIndex.CommitGraph.Heads | crates/ll-versioning/src/graph.rs:79-81 | the sorted incremental heads |
| GraphIndex.CommitGraph.RecoveredHeads | crates/ll-versioning/src/graph.rs:85-97 | recomputing the childless nodes from the parents gives exactly the sorted incremental heads |
| GraphIndex.HeadsAreRecovered | crates/ll-versioning/src/graph.rs:79-97 | after any inserts the incremental heads equal the recovered ones |
| GraphIndex.InsertKeepsWellFormed | crates/ll-versioning/src/graph.rs:27-76 | inserts keep parents present, generations and heads right |
| GraphIndex.CommitGraph.Ancestors | crates/ll-versioning/src/graph.rs:142-153 | the work queue ends with exactly the reflexive-transitive parent closure |
| GraphIndex.CommitGraph.CommonAncestor | crates/ll-versioning/src/graph.rs:103-122 | a common ancestor with no other common ancestor below it; `None` exactly when there is none |
| GraphIndex.StoredCommitsShareRoot | crates/ll-versioning/src/graph.rs:103-122 | two stored commits always have the root as a common ancestor |
| GraphIndex.CommitGraph.MissingFrom | crates/ll-versioning/src/graph.rs:126-140 | exactly the unknown nodes, sorted by (generation, id) |
| GraphIndex.GraphOrderIsParentsFirst | crates/ll-versioning/src/graph.rs:126-140 | that order lists every parent before its child |
| StoreRefinesGraph.AcceptRefinesInsert | crates/ll-server/src/storage/version.rs:85-135 | a stored commit is an accepted graph insert; tables and graph stay mirror images |
| StoreRefinesGraph.NewCommitAgrees | crates/ll-versioning/src/graph.rs:27-76 | for a new commit the graph accepts exactly what the graph part of the tables accepts |
| StoreRefinesGraph.RunRefinesGraph | crates/ll-server/src/storage/version.rs:49-140 | after any run some sequence of graph inserts mirrors the tables: nodes, parents, generations, heads |
| Paging.PageIsUsable | plugin/src/sync/pull.ts:133-160 | on any page of a reachable store every parent is known or earlier on the page: the unknown-parent error cannot fire |
| Paging.PullPage | plugin/src/sync/pull.ts:133-160 | one request fails only on an oversized known list or an unregistered signer, else makes progress |
| Paging.AbsorbPage | plugin/src/sync/pull.ts:140-157 | verifying a page adds exactly its commits, faithfully, or fails on a signer |
| Paging.PullPages | plugin/src/sync/pull.ts:133-160 | the loop ends with every server commit known if and only if no request exceeds 2048 ids and all signers are active |
| Paging.SmallStoresArePullable | plugin/src/sync/pull.ts:133-160 | a store of at most `MAX_KNOWN_COMMITS` commits by active devices can always be pulled |
| Paging.OversizedKnownSetBlocksPull | crates/ll-server/src/storage/version.rs:185-200 | with one known commit too many every pull fails |
| Protocol.StepIsSafe | plugin/src/sync/engine.ts:118-246 | each step of pull, prepare, send, deliver, acknowledge, crash and server event keeps the invariant |
| Protocol.RunIsSafe | plugin/src/sync/engine.ts:118-246 | the invariant holds over every run of any number of devices |
| Protocol.PreparedIsFresh | plugin/src/sync/engine.ts:167-171 | with an injective hash a newly prepared commit's identifier is new to the store and to all devices |
| ProtocolTheorems.PublicationAgrees | plugin/src/sync/engine.ts:118-246 | over every run the server's highest sequence is the device's, or one more while the device holds exactly the stored commit |
| ProtocolTheorems.SequencesFit | crates/ll-server/src/storage/version.rs:249-270 | sequence numbers never leave the signed 64-bit range |
| ProtocolTheorems.RetrySucceedsExactly | plugin/src/sync/engine.ts:122-124 | a retry succeeds if and only if none of the named conditions blocks it; its sequence never does |
| ProtocolTheorems.LateRootIsRefusedForever | crates/ll-server/src/storage/version.rs:74-84 | a prepared root commit that came second is refused in every later state of every run |
| ProtocolRuns.LateRootIsReachable | crates/ll-server/src/storage/version.rs:74-84 | a run of two devices that leads to such a late root |
| ProtocolRuns.CrowdedUntilRelieved | crates/ll-versioning/src/commit.rs:159-165 | over every run, a device with more than 16 heads and nothing prepared prepares nothing until a pull reports at most 16 |
| ProtocolRuns.CongestedForever | plugin/src/sync/engine.ts:167-171 | with more than 16 heads on the server and no publication under way, no commit is stored in any later state, whatever the devices do |
| ProtocolRuns.CongestionIsReachable | plugin/src/sync/engine.ts:167-171 | 17 or more devices that pull one state and each publish bring the system there |
| ProtocolRuns.AcknowledgeLowersClockExactly | plugin/src/sync/engine.ts:224-230 | recording an acceptance turns the clock back if and only if a pull has moved it past the commit's timestamp |
| ProtocolRuns.ClockGoesBack | plugin/src/sync/engine.ts:122-124 | a run with a lost reply, a pull and a retry after which the clock is lower than before |
| ProtocolTheorems.AncestorsAreEarlier | plugin/src/sync/engine.ts:153-157 | over every run an accepted commit is strictly later than all its ancestors |
| ProtocolTheorems.KnownShareRoot | plugin/src/sync/pull.ts:633-669 | all commits a device knows descend from the single stored root |
| ProtocolTheorems.MergeBaseOfReachableState | plugin/src/sync/pull.ts:633-669 | in every reachable state the computed merge base exists, is common to all heads and has no common ancestor below it |
| MergeBase.Ancestors | plugin/src/sync/pull.ts:649-669 | breadth-first search finds exactly the ancestors and fails exactly on an absent one |
| MergeBase.NearestCommonAncestor | plugin/src/sync/pull.ts:633-647 | the common ancestor of greatest (timestamp, id); the best one when timestamps increase along edges |
| Stage.Staging.PutStaged | plugin/src/sync/engine.ts:370-408 | the staged ciphertext is reused if cached, else the new one is cached and then recorded; nothing else changes |
| Stage.Staging.StageAndUpload | plugin/src/sync/engine.ts:370-410 | on success the server stores exactly the staged bytes; with enough replies it succeeds exactly when the server admits the upload; whatever happens the bytes stay staged |
| Stage.SurvivesCleanupExactly | plugin/src/sync/engine.ts:427-442 | after the cleanup a key still yields its first ciphertext, whatever a new encryption gives, if and only if it is one of the prepared commit's or of a pending operation's and no other staged key shares its digest |
| Stage.CleanKeepsJust | plugin/src/sync/engine.ts:427-442 | of the staged keys exactly the prepared commit's and the path and content keys of pending operations stay, each with its ciphertext if and only if no removed key has its digest |
| Stage.FixedUntilDropped | plugin/src/sync/engine.ts:370-442 | over any sequence of stagings and cleanups a staged ciphertext stays until a cleanup first drops it |
| Stage.FailedManifestIsForgotten | plugin/src/sync/engine.ts:137-151 | a manifest staged for a commit that was not saved is forgotten by the next cleanup |
| Stage.Staging.CleanupStagedKeys | plugin/src/sync/engine.ts:412-425 | removes exactly the entries of the keys and their ciphertexts |
| Stage.CleanupForgetsExactly | plugin/src/sync/engine.ts:412-425 | another key loses its ciphertext if and only if it shares the digest of a cleaned key |
| Stage.Staging.CleanupUnreferenced | plugin/src/sync/engine.ts:427-442 | keeps exactly the prepared commit's keys and the path and content keys of pending operations, each with its ciphertext if and only if no removed key shares the digest; any other staged key goes |
| PushRecords.PrepareOperation | plugin/src/sync/engine.ts:248-327 | succeeds if and only if the file is as scanned, the record has what is not encrypted anew and the uploads succeed; the record is, kind by kind, the old one with the new path, revision, hash, type and staged digests; no ciphertext staged before is lost |
| PushRecords.ManifestInput | plugin/src/sync/engine.ts:471-488 | one entry for each record, with its type, revision, tombstone, hash and the written digests of its path, content and metadata; a valid manifest exactly up to the entry limit |
| PushRecords.ToCommit | plugin/src/sync/engine.ts:490-517 | the operation is valid and carries the kind, object and revisions of the change, the path's digest just for creations and renames, and the content's just for creations, modifications and merges |
| PushRecords.ReconciledIsWellBased | plugin/src/sync/reconcile.ts:127-169 | every operation of a scan follows its base revision; only creations start at zero |
| PushRecords.PushBodyIsValid | plugin/src/sync/engine.ts:153-165 | the body of a push is valid exactly up to the operation limit |
| PushRecords.CreatePush | plugin/src/sync/engine.ts:153-171 | the signed commit of a push is created if and only if the clock and sequence fit, the heads are at most 16 and the size so computed and 170 more are within 256 KiB; it is the record of that commit |
| PushRecords.CreateCommit | plugin/src/sync/engine.ts:137-171 | the manifest is staged and uploaded, then the commit created, exactly within those limits and the entry limit; the commit carries the pending operations and the root and staged digest of a manifest with one entry for each record |
| PushRecords.SizeIsThat | plugin/src/sync/engine.ts:157-165 | the exact size of a push's body from the kinds and revisions of the operations and the clock alone |
| CommitRecord.CreateSignedCommit | crates/ll-client/src/vault.rs:104-124 | succeeds if and only if the body is valid, its bytes and 170 more are within the body limit, the sequence is positive and there are at most 16 sorted parents; the result is the record of that commit |
| CommitRecord.ValidateUnsigned | crates/ll-versioning/src/commit.rs:159-175 | accepts exactly the valid unsigned commits, whose body is an envelope of the vault and of type commit |
| CommitRecord.EncodeSignedCommit | crates/ll-versioning/src/commit.rs:102-120 | succeeds exactly on a valid commit under its right identifier; the limit on the whole record never refuses one; the bytes are those of `RecordIsSpelled` around those of `UnsignedIsSpelled` |
| CommitRecord.UnsignedIsSpelled | crates/ll-versioning/src/commit.rs:177-208 | the bytes of an unsigned commit one by one: a map of eight with shortest heads, integers most significant byte first |
| CommitRecord.RecordIsSpelled | crates/ll-versioning/src/commit.rs:108-119 | the bytes of a record: a map of three with the unsigned commit, its identifier and the signature |
| CommitRecord.DecodeSignedCommit | crates/ll-versioning/src/commit.rs:128-157 | returns `c` if and only if the input is the record of the valid commit `c` |
| CommitRecord.DecodeUnsigned | crates/ll-versioning/src/commit.rs:211-263 | returns `u` if and only if the input is the encoding of the valid unsigned commit `u` |
| CommitRecord.EncryptObject | crates/ll-crypto/src/object.rs:93-124 | succeeds exactly within the limits; the envelope has the identity and seals the plaintext under the random key, and that key under the vault's key for the object's type |
| CommitRecord.DecodeObjectEnvelope | crates/ll-crypto/src/object.rs:174-226 | returns `e` if and only if the input is the encoding of the valid envelope `e` |
| CommitRecord.EnvelopeIsSpelled | crates/ll-crypto/src/object.rs:274-297 | the bytes of an envelope one by one: a map of nine with shortest heads |
| CommitRecord.DecryptObject | crates/ll-crypto/src/object.rs:131-168 | returns an envelope and a plaintext if and only if the input is that envelope and seals that plaintext |
| CommitRecord.EncryptThenDecrypt | crates/ll-crypto/src/object.rs:86-168 | whatever is encrypted within the limits is decrypted, under the same identity |
| CommitExchange.Decrypt | crates/ll-client/src/vault.rs:91-97 | the plaintext if and only if the object belongs to this vault and its keys open it |
| CommitExchange.OpenCommit | wasm/ll-client-core/src/formats.rs:163-205 | succeeds if and only if the input is a record with its right identifier and a valid signature whose body the vault's keys open to the encoding of a valid body; returns just what it says |
| CommitExchange.CreateThenOpen | crates/ll-client/src/vault.rs:104-124 | a created commit is read by every other device of the vault with the same parents, signer, sequence and body; creation fails exactly on the limits |
| CommitExchange.PushThenOpen | plugin/src/sync/engine.ts:153-171 | from pending operations on one device to the decoded body on another: one operation for each pending one with its kind, revisions and digests, the heads as parents, the manifest's root and digest, the clock and sequence |
| CommitRecord.CreationsPerCommit | crates/ll-versioning/src/commit.rs:11-12 | a commit of creations can be created if and only if there are at most 2942 |
| Publishing.SyncEngine.RecordPull | plugin/src/sync/pull.ts:168-220 | the state update of a pull is the protocol's pull step; records change only when there are heads |
| Publishing.SyncEngine.RecordAcceptance | plugin/src/sync/engine.ts:198-246 | sequence, clock, heads, known ids, records and pending operations after an acceptance; the records of published operations and no others carry the commit; published operations and no others leave `pending`; just the commit's staged keys are cleaned up |
| Publishing.SyncEngine.PublishPrepared | plugin/src/sync/engine.ts:198-246 | every outcome is a protocol run of the saved commit; it succeeds if and only if both messages arrive and the server accepts; without a received acceptance the durable state is unchanged |
| Publishing.SyncEngine.Prepare | plugin/src/sync/engine.ts:131-196 | a commit is saved if and only if every operation can be prepared, the manifest uploads and the push keeps its limits, all of it in terms of the state before the call; it names the pending operations and their keys, has the next sequence and clock and the heads as parents; a failure leaves the protocol state and all staged ciphertexts alone |
| Publishing.SyncEngine.Push | plugin/src/sync/engine.ts:118-196 | retries exactly the prepared commit, or does nothing, or prepares a new one, exactly when `Prepare` can, and publishes it; succeeds if and only if the messages arrive and the server accepts; every outcome is a protocol run; after a failure the keys of the prepared commit and of pending operations still have their ciphertexts, unless a removed key shared the digest; a success removes the commit's |
| Publishing.RemainingIsWell | plugin/src/sync/engine.ts:237-239 | the operations that stay pending are still sorted, one for each object |
| PushCycle.PullThenRetry | plugin/src/sync/engine.ts:122-124 | when a retry follows a pull, what the pull recorded survives if and only if the prepared records agree with it, and the clock goes back if and only if the pull had moved it past the commit's |
| PushCycle.ScannedIsEncryptedAnew | plugin/src/sync/reconcile.ts:127-169 | after a scan, the ciphertexts staged for a pending operation are sent if and only if its object no longer differs and no forgotten key shares them |
| PushCycle.RescannedModificationIsEncryptedAnew | plugin/src/sync/reconcile.ts:127-144 | a modification scanned again is sent in a new encryption |
| PushCycle.DoubledCreationIsPublished | plugin/src/sync/reconcile.ts:190-201 | a creation scanned again while its request was lost ends up published twice at one path |
| PushCycle.DoubledCreationBlocksPulls | plugin/src/sync/pull.ts:607-631 | two live objects at one path make every later pull fail |
| BlobStorage.Storage.BeginUpload | crates/ll-server/src/storage/blob.rs:30-113 | resumes the upload with the same key or allocates one exactly within the limits, counted over the device's rows, or the exact error; its durable steps are a run of the machine |
| BlobStorage.Storage.AppendUploadChunk | crates/ll-server/src/storage/blob.rs:117-181 | accepts the chunk exactly at the recorded offset and within the size, or the exact error; row and file then agree |
| BlobStorage.Storage.WriteChunk | crates/ll-server/src/storage/blob.rs:143-172 | whatever tail a crash left, file, row and acknowledged bytes are extended by exactly the chunk |
| BlobStorage.Storage.CommitUpload | crates/ll-server/src/storage/blob.rs:184-239 | publishes exactly a complete upload whose content has the declared size and digest, or whose object is already there, or the exact error |
| BlobStorage.Storage.RecordUpload | crates/ll-server/src/storage/blob.rs:205-239 | the verified part moves into place, the blob is recorded and the upload row removed |
| BlobStorage.VerifyFile | crates/ll-server/src/storage/blob.rs:327-349 | streaming verification accepts exactly the declared size and digest |
| BlobStorage.Storage.ReadBlobChunk | crates/ll-server/src/storage/blob.rs:242-279 | one range of a published blob with its total size and completeness flag, or the exact error |
| BlobStore.StepIsSafe | crates/ll-server/src/storage/blob.rs:83-231 | each durable step, crashes included, keeps the file and row invariant |
| BlobStore.RunIsSafe | crates/ll-server/src/storage/blob.rs:83-231 | over every run part files start with the acknowledged chunks or the upload is complete and published, and every blob row has its object |
| BlobStore.ResumeIsPossible | crates/ll-server/src/storage/blob.rs:117-181 | after any crash an unfinished upload continues at its recorded offset |
| BlobStore.PublishedObjectsPersist | crates/ll-server/src/storage/blob.rs:184-239 | a published object is never changed or lost |
| BlobStore.AcknowledgedBytesPersist | crates/ll-server/src/storage/blob.rs:117-239 | acknowledged bytes stay until their object is a blob |
| Transfer.UploadCiphertext | plugin/src/sync/engine.ts:329-368 | from any offset the server reports and however long the connection lasts, the device's uploads stay honest; with enough replies the ciphertext is stored under its digest exactly when admitted |
| Transfer.SendChunks | plugin/src/sync/engine.ts:343-357 | the loop ends with every byte accepted in order, or where the connection broke |
| Transfer.ServeOther | crates/ll-server/src/storage/blob.rs:30-239 | no request by another device puts foreign bytes into a device's uploads |
| Transfer.AnswersAreHonest | crates/ll-server/src/storage/blob.rs:242-279 | in every safe store a range request for a stored blob is answered with the right bytes |
| Transfer.Download | plugin/src/transport/session.ts:254-302 | a session that asks the server itself gets a stored blob byte for byte |
| Transfer.Session.NextRange | plugin/src/transport/session.ts:259-288 | one more range, accepted exactly when consistent with what was announced |
| Transfer.Session.Exchange | plugin/src/transport/session.ts:320-338 | a closed session refuses; any failure closes it |
| Transfer.Session.GetBlob | plugin/src/transport/session.ts:254-302 | terminates for every server; an honest one's blob is returned byte for byte, the empty one included |
| Transfer.Assemble | plugin/src/transport/session.ts:289-302 | the output buffer is the concatenation of the chunks |
| Transfer.UploadThenDownload | plugin/src/sync/engine.ts:329-368 | upload followed by download from the server is the identity |
| Hunks.SingleHunk | plugin/src/sync/merge.ts:122-145 | the counters compute the specified hunk |
| Hunks.HunkRebuilds | plugin/src/sync/merge.ts:122-145 | splicing the hunk into the base rebuilds the changed lines |
| Hunks.HunkIsTight | plugin/src/sync/merge.ts:122-145 | the hunk's first and last lines really differ |
| Hunks.MergeSameLength | plugin/src/sync/merge.ts:28-50 | a conflict if and only if some line differs three ways; else each line is the side's that changed it, or the base's |
| Hunks.MergeLinesIsRight | plugin/src/sync/merge.ts:36-70 | what the merge of any three line lists is: line by line on equal counts, else the base with both hunks, or a conflict |
| Hunks.HunkIsHunk | plugin/src/sync/merge.ts:122-145 | the hunk is the stretch between the longest common beginning and the longest common rest |
| Hunks.OverlapIsMeeting | plugin/src/sync/merge.ts:146-151 | hunks overlap if and only if some line is replaced by both, one inserts inside the other, or both insert at one place |
| Hunks.LinewiseMergeIsSymmetric | plugin/src/sync/merge.ts:28-50 | lines merged one by one do not depend on which side is local |
| Hunks.SpliceHunks | plugin/src/sync/merge.ts:64-70 | splices later starts first, the local hunk first on a tie |
| Hunks.ConflictIsSymmetric | plugin/src/sync/merge.ts:146-151 | overlap does not depend on which side is local |
| Hunks.DisjointHunksBothApply | plugin/src/sync/merge.ts:64-70 | disjoint hunks that start on different lines are both applied, whichever side is local |
| Hunks.TieIsInsertion | plugin/src/sync/merge.ts:146-151 | disjoint hunks with one start: one of them is an insertion |
| Hunks.TieWithRemoteInsertion | plugin/src/sync/merge.ts:64-70 | a tie with a remote insertion applies both |
| Hunks.TieWithLocalInsertion | plugin/src/sync/merge.ts:66-68 | a tie with a local insertion applies both if and only if the remote side only deletes and the stated repetition holds |
| Hunks.TieCanLoseTheInsertion | plugin/src/sync/merge.ts:66-68 | for any lines of the stated shape, a tie whose inserted line disappears and whose replaced line survives |
| Merge.MergeText | plugin/src/sync/merge.ts:14-70 | a side that alone changed is taken; on equal line counts each line is the side's that changed it, with a conflict if and only if some line differs three ways; else the base with both hunks, with a conflict if and only if they meet |
| Merge.EqualLineCountsMergeLineByLine | plugin/src/sync/merge.ts:36-50 | the same of texts: the lines of the merged text, split again, are the changed ones |
| Merge.JoinSplit | plugin/src/sync/merge.ts:118-120 | splitting into lines and joining is the identity |
| Merge.IdenticalHunksAreImpossible | plugin/src/sync/merge.ts:53-63 | the branch for identical overlapping hunks is never reached |
| Merge.SwappingSidesKeepsConflicts | plugin/src/sync/merge.ts:14-70 | for all texts, whether the merge conflicts is symmetric |
| Merge.DisjointChangesMerge | plugin/src/sync/merge.ts:14-70 | disjoint changes starting on different lines merge to the base with both applied |
| Merge.LocalInsertionTieMergesExactly | plugin/src/sync/merge.ts:64-70 | for all texts with such a tie, the merge is the base with both changes if and only if the repetition holds |
| Merge.MergeCanLoseALine | plugin/src/sync/merge.ts:66-68 | three texts on which the inserted line disappears, and does not with the sides swapped |
| SelectEntries.UniqueVariants | plugin/src/sync/pull.ts:728-734 | one entry for each value, the last one |
| SelectEntries.Choose | plugin/src/sync/pull.ts:567-603 | the newest changed variant wins; the others are conflicts, distinct and equal to neither winner nor base |
| SelectEntries.Select | plugin/src/sync/pull.ts:556-605 | a selection for exactly the objects of the base and the heads; it is what the last head with its value holds |
| SelectEntries.LastHolderIsLastHead | plugin/src/sync/pull.ts:567-574 | an entry is the last of its value among an object's entries if and only if no later head holds the value |
| SelectEntries.NothingDropped | plugin/src/sync/pull.ts:556-605 | every head's value is selected, a listed conflict, or the base's |
| SelectEntries.NothingInvented | plugin/src/sync/pull.ts:556-605 | every selected or conflicting entry is some head's own |
| SelectEntries.OneSidedChangeWins | plugin/src/sync/pull.ts:556-605 | a value only one side changed to is selected without a conflict |
| SelectEntries.NewestWinsExactly | plugin/src/sync/pull.ts:728-734 | the newest changed entry wins if and only if no later head holds its value |
| SelectEntries.NewestCanLose | plugin/src/sync/pull.ts:728-734 | three heads whose newest version loses |
| SelectEntries.ValidateSelectedPaths | plugin/src/sync/pull.ts:607-631 | accepted exactly when no two selected paths that are no tombstones conflict |
| Vault.VaultPort.Rename | plugin/src/obsidian/vault-port.ts:61-70 | succeeds only onto a path where nothing exists; moves exactly one file, and a failure changes none |
| Vault.UniquePath | plugin/src/sync/pull.ts:478-492 | the first alternative that does not exist: all before it do; the search ends |
| Vault.NumberIsSpelled | plugin/src/sync/pull.ts:482-486 | the number goes between the text before the last dot and the rest |
| Vault.DecimalDenotes | plugin/src/sync/pull.ts:485-489 | the number is written in decimal digits that denote it, without a leading zero |
| Vault.CopyIsSpelled | plugin/src/sync/merge.ts:72-90 | a copy's name for any folder, stem and extension: the mark goes in front of the extension |
| Vault.NumberStaysInFolder | plugin/src/sync/pull.ts:482-487 | a numbered alternative is in its candidate's folder if and only if the candidate has no dot or its last one is in the file name |
| Vault.ConflictCopyStaysBeside | plugin/src/sync/merge.ts:72-90 | a conflict copy is in the original's folder |
| Vault.NumberedCopyStaysBeside | plugin/src/sync/pull.ts:449-492 | a numbered conflict copy is in the original's folder if and only if no folder above has a dot, or the name, device or time has one |
| Vault.NumberCanLandInAFolder | plugin/src/sync/pull.ts:482-487 | the second conflict copy of a note in a folder named with a dot lands in another folder |
| ApplyEntry.PullEngine.PreserveBytes | plugin/src/sync/pull.ts:449-460 | the copy is new and holds the bytes, a new conflict record names it, and no existing file changes |
| ApplyEntry.PullEngine.ApplyRemoteWinner | plugin/src/sync/pull.ts:386-419 | the remote content takes its path; a file in the way is preserved first |
| ApplyEntry.PullEngine.ApplyConcurrent | plugin/src/sync/pull.ts:340-384 | merges, or keeps a copy of the local file and lets the remote win |
| ApplyEntry.PullEngine.ApplyEntry | plugin/src/sync/pull.ts:284-384 | whether it returns or throws: every file that differs from the record in hash or path still has its bytes somewhere or was merged into the remote text, and other files stay; what a returning call has done, case by case: deleted, installed, merged, set aside or nothing |
| ApplyEntry.LocatedExactly | plugin/src/sync/pull.ts:671-686 | an entry's own file is the one at the recorded path, or else the only one with the recorded hash |
| ApplyEntry.CopyIsElsewhere | plugin/src/sync/pull.ts:421-460 | a conflict copy of a file in the way is never at the path itself |
| Reconcile.MatchPaths | plugin/src/sync/reconcile.ts:49-63 | exactly the changed files at recorded paths become modifications; what is left is unmatched |
| Reconcile.MatchRenames | plugin/src/sync/reconcile.ts:65-85 | exactly the lone pairs of vanished record and new file with one content become renames |
| Reconcile.DiffRecords | plugin/src/sync/reconcile.ts:42-98 | the operations are the complete difference, one for each object, each one revision above its base, creations on new objects |
| Reconcile.DiffApplies | plugin/src/sync/reconcile.ts:42-98 | applying the difference to the records gives exactly the scanned files |
| Reconcile.RejectCollisions | plugin/src/sync/reconcile.ts:172-188 | exactly the files in no group remain, among them every file that conflicts with no other, and they are free of conflicts; an issue is added exactly when there was one |
| Reconcile.ScanFiles | plugin/src/sync/reconcile.ts:100-125 | the readable files with valid paths in listing order, and the right issue for every other and for no more |
| Reconcile.ReadableIsListing | plugin/src/sync/reconcile.ts:100-125 | the scanned map has exactly the readable files of the listing with their hashes |
| Reconcile.MergeWithPending | plugin/src/sync/reconcile.ts:190-201 | sorted, one operation for each object, scanned ones replacing pending ones |
| Reconcile.MergedDiffExactly | plugin/src/sync/reconcile.ts:190-201 | the merged list is the exact difference if and only if every pending operation is on a record that still differs |
| Reconcile.NumberSurvivesExactly | plugin/src/sync/reconcile.ts:190-201 | a pending operation keeps its identifier through a scan if and only if its object no longer differs |
| Reconcile.RescannedCreationIsDoubled | plugin/src/sync/reconcile.ts:146-157 | a left-over creation yields two creations of one path |
| Reconcile.Scan | plugin/src/sync/reconcile.ts:42-98 | over the records that are no tombstones and the readable files of the listing: issues exactly for unreadable, invalid or conflicting files; without issues the result is the exact difference if and only if every pending operation is on a record that still differs, and just the others keep their identifiers; without pending operations and with the remote initialized, applying the result gives exactly the scanned files |
| Reconcile.ActiveIsActive | plugin/src/sync/reconcile.ts:46-48 | the compared records: a path has one if and only if some record there is no tombstone, and it is the last such |
| Paths.PortablePathConflictGroups | plugin/src/sync/paths.ts:15-49 | the groups the loop builds, member by member |
| Paths.GroupsReportConflicts | plugin/src/sync/paths.ts:3-49 | a group exists if and only if some two entries conflict |
| Paths.GroupsReportPrefixes | plugin/src/sync/paths.ts:3-49 | a group exists if and only if one entry's key is another's, or that followed by a slash and more |
| Paths.ConflictIsReported | plugin/src/sync/paths.ts:15-49 | of two conflicting entries at least one is in a group |
| Paths.ReportedConflicts | plugin/src/sync/paths.ts:15-49 | whatever is in a group conflicts with another entry |
| Paths.DescendantReportedExactly | plugin/src/sync/paths.ts:27-43 | a descendant is in its ancestor's group if and only if the ancestor is not crowded or was visited first |
| Paths.DescendantCanBeForgotten | plugin/src/sync/paths.ts:29-31 | three paths whose descendant is in no group |
| Paths.DetectCollisions | crates/ll-canonical/src/path.rs:176-224 | the two indexes the server-side detector builds |
| Paths.DetectorIsComplete | crates/ll-canonical/src/path.rs:176-224 | every conflicting pair is together in some group |
| Paths.DetectorIsSound | crates/ll-canonical/src/path.rs:176-224 | every group member conflicts with another entry |
| Cbor.HeadIsShortest | crates/ll-versioning/src/manifest.rs:418-424 | the written head is the only shortest one that reads back as the same value |
| Cbor.HeadIsStandard | crates/ll-versioning/src/manifest.rs:142-172 | the head is the one of section 3 of RFC 8949, written out for each width |
| Cbor.BigEndianDigit | crates/ll-crypto/src/noise.rs:111-116 | network byte order: byte i of n in width w is n / 256^(w-1-i) modulo 256 |
| Cbor.TokensAreUnique | crates/ll-versioning/src/manifest.rs:399-424 | different token streams have different encodings |
| Manifest.ValidateManifest | crates/ll-versioning/src/manifest.rs:322-346 | accepts exactly the valid manifests |
| Manifest.EncodeManifest | crates/ll-versioning/src/manifest.rs:142-172 | succeeds exactly on valid manifests that fit, with the bytes of `ManifestIsSpelled` |
| Manifest.ManifestIsSpelled | crates/ll-versioning/src/manifest.rs:142-172 | the bytes of a manifest one by one: map, version, vault, and each entry an array of eight with shortest heads |
| Manifest.LessExactly | crates/ll-versioning/src/manifest.rs:331-335 | the order of entries: at the first place where two identifiers differ the lesser has the lesser byte |
| Manifest.KeyLessExactly | crates/ll-versioning/src/manifest.rs:348-397 | operations are ordered by the object's identifier followed by the kind |
| Manifest.DecodeManifest | crates/ll-versioning/src/manifest.rs:179-213 | returns `m` if and only if the input is those bytes of the valid manifest `m` and within the limit |
| Manifest.ManifestsAreUnique | crates/ll-versioning/src/manifest.rs:142-213 | two valid manifests with one encoding are equal |
| BodyCodec.ValidateCommitBody | crates/ll-versioning/src/manifest.rs:348-397 | accepts exactly the valid bodies |
| BodyCodec.EncodeCommitBody | crates/ll-versioning/src/manifest.rs:220-258 | succeeds exactly on valid bodies that fit, with the bytes of `BodyIsSpelled` |
| BodyCodec.BodyIsSpelled | crates/ll-versioning/src/manifest.rs:220-258 | the bytes of a body one by one: map, version, clock, operations, root, digest, merge base and conflicts with shortest heads |
| BodyCodec.DecodeCommitBody | crates/ll-versioning/src/manifest.rs:265-318 | returns `body` if and only if the input is those bytes of the valid `body` and within the limit |
| BodyCodec.BodiesAreUnique | crates/ll-versioning/src/manifest.rs:220-318 | two valid bodies with one encoding are equal |
| EncodingLimits.ValidManifestsFit | crates/ll-versioning/src/manifest.rs:6-7 | every valid manifest is within the byte limit |
| EncodingLimits.CreationsFitExactly | crates/ll-versioning/src/manifest.rs:220-258 | a body of creations fits if and only if there are at most 2944 |
| EncodingLimits.OperationLimitIsNeverReached | crates/ll-versioning/src/manifest.rs:8-8 | no encodable body has 11 398 operations or more |
| Noise.CapacityIsExact | crates/ll-crypto/src/noise.rs:96-107 | the precomputed capacity is the exact length of the records |
| Noise.EncryptTransportRecords | crates/ll-crypto/src/noise.rs:89-118 | accepts exactly nonempty plaintexts within the limit while nonces last; the stream begins with the first sealed length, high byte first, and that chunk; the stream, its length and the counter |
| Noise.DecryptTransportRecords | crates/ll-crypto/src/noise.rs:126-166 | succeeds if and only if the input is a stream of authentic records from the expected nonce on, and returns its content |
| Noise.StreamsAreUnique | crates/ll-crypto/src/noise.rs:126-166 | a stream determines its chunks |
| Noise.FirstRecord | crates/ll-crypto/src/noise.rs:110-117 | the two prefix bytes are the sealed length divided by 256 and its remainder, before the sealed first 61440 bytes |
| Noise.Exchange | crates/ll-crypto/src/noise.rs:89-166 | what one end encrypts the other decrypts, and the two counters stay equal |
| Noise.FullPageFits | crates/ll-protocol/src/limits.rs:6-34 | a page of three commits of any permitted size passes the transport limit |
| Noise.PageLimitIsTight | crates/ll-protocol/src/limits.rs:34-34 | a fourth commit of the maximal size does not |
| Noise.EveryPageFits | crates/ll-server/src/storage/version.rs:185-228 | every page the server answers with, whatever its records, passes the transport |
| Noise.ChangesSize | crates/ll-protocol/src/codec.rs:509-516 | the message around a page adds at most 30 bytes to its commits |
| Noise.ChangesIsSpelled | crates/ll-protocol/src/codec.rs:509-516 | the bytes of that message one by one |
| Forest.ChainEndsExactly | plugin/src/learning/maps.ts:150-155 | a chain of parents ends if and only if it meets no cycle |
| Forest.RedirectionExactly | plugin/src/learning/service.ts:277-351 | giving nodes a new parent keeps the map acyclic if and only if that parent is below none of them |
| LearningServices.LearningService.IsDescendant | plugin/src/learning/service.ts:1016-1036 | on any parent map, true exactly for the node itself and those above the candidate |
| LearningServices.LearningService.NextSiblingOrder | plugin/src/learning/service.ts:1006-1014 | the least order above every sibling's |
| LearningServices.LearningService.MoveNode | plugin/src/learning/service.ts:277-299 | refused exactly when it would leave the topic or close a cycle; otherwise the node is last under its new parent and the map stays acyclic |
| LearningServices.LearningService.MergeNodes | plugin/src/learning/service.ts:324-361 | children of the source move to the target; the map stays acyclic if and only if the target was not below the source |
| LearningServices.MergingIntoChild | plugin/src/learning/service.ts:348-351 | merging a node into its child makes the child its own parent |
| TopicMap.LayoutOrder | plugin/src/learning/maps.ts:190-219 | on any parent map every node is output once and only what lies below a node comes between it and its children; nodes below a root come first, each after its parent, siblings in (order, title, id) order |
| TopicMap.Layout.Visit | plugin/src/learning/maps.ts:202-211 | outputs the node and what hangs below it depth first, siblings in order, and leaves no child of an output node unvisited |
| TopicMap.AllDepths | plugin/src/learning/maps.ts:221-251 | terminates on any parent map and gives each node whose chain of parents ends its depth |
| TopicMap.NeighborhoodLoopsExactly | plugin/src/learning/maps.ts:150-155 | the loop up the parents goes on for ever if and only if the focus's chain does not end |
| TopicMap.MergedFocusNeverEnds | plugin/src/learning/maps.ts:150-155 | after a node was merged into one below it, the loop never ends for the merged node |
| TopicMap.MobileNeighborhood | plugin/src/learning/maps.ts:140-163 | when the loop ends: exactly the focus, what is above it, its children and its siblings |
| TopicMap.StableNodes | plugin/src/learning/maps.ts:253-261 | a sorted permutation |

## Left out

- MergeBase.Ancestors: the distances it also computes are never read by its caller and are not modelled.
- ApplyEntry.PullEngine.ApplyEntry: one call against a matching snapshot; the whole pull scans the vault once and then
  changes it entry by entry, so no such claim holds for its later calls.  Any call of the host may fail, so nothing
  promises that `ApplyEntry` returns rather than throws.
- Paths.PortablePathConflictGroups: the sorted order in which groups and members are presented; likewise the order of the reconciler's collision issues.
- Paths.DetectCollisions: the sorted order of its two lists.
- Reconcile.Scan: detection times.
- PushRecords.PrepareOperation: an upload is one success-or-failure parameter; `Stage.Staging.StageAndUpload` with `Transfer.UploadCiphertext` proves what a success means.
- Publishing.SyncEngine.PublishPrepared: the check that the prepared commit did not change during publication, since one engine runs at a time.
- Publishing.SyncEngine.Push: the uploads within it are success flags, as in `PushRecords.PrepareOperation`.
- Transfer.UploadCiphertext: the saved upload progress, which is never read back.
- TopicMap.AllDepths: repeated node identifiers (their precondition excludes them); `LayoutOrder` allows them.
- Vault.VaultPort.Rename: the links in other notes that the host application updates.
- TopicMap.MobileNeighborhood: a focus on whose chain the loop never ends (`TopicMap.NeighborhoodLoopsExactly`); the choice of the focus, and the plain first fifty nodes when there is none.
- LearningServices.LearningService.MergeNodes: the appended correction text and the other note properties.
- Manifest.EncodeManifest: `Manifest::new`, which sorts entries first, and the Merkle root.
- Cryptographic primitives, key derivation, the Noise handshake, password policy.
- HTTP routing, sessions, rate limiting, configuration; the full request and response codec.
- SQLite, filesystem and IndexedDB internals; syncing of directory entries.
- Unicode normalization, case folding and canonicalization of text; Markdown section editing, the review scheduler, the outline parser, the user interface.
- The reset of a device's local state.
