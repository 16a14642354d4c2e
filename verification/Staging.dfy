/** Durable staging of ciphertexts before they are uploaded (plugin/src/sync/engine.ts).  Encryption is
    randomized, so a retry should send the bytes staged first, not newly encrypted ones. */
module Stage {
  import opened Basics
  import opened BlobStore
  import B = BlobStorage
  import T = Transfer

  datatype Key = PathKey(operationId: Id) | ContentKey(operationId: Id) | ManifestKey(operationIds: set<Id>)

  type Staged = map<Key, Digest>
  type Cache = map<Digest, Bytes>

  /** `stagedObjects` of the durable state, and the ciphertext cache. */
  datatype Ciphertexts = Ciphertexts(staged: Staged, cache: Cache)

  /** Each ciphertext is cached under its own digest. */
  ghost predicate Keyed(cache: Cache) {
    forall hash :: hash in cache ==> Of(cache[hash]) == hash
  }

  predicate Has(c: Ciphertexts, key: Key) {
    key in c.staged && c.staged[key] in c.cache
  }

  /** The ciphertext a push uses for the key: the staged one if the cache still has it, else a new one. */
  function Current(c: Ciphertexts, key: Key, created: Bytes): Bytes {
    if Has(c, key) then c.cache[c.staged[key]] else created
  }

  function Put(c: Ciphertexts, key: Key, created: Bytes): Ciphertexts {
    var ciphertext := Current(c, key, created);
    Ciphertexts(c.staged[key := Of(ciphertext)], c.cache[Of(ciphertext) := ciphertext])
  }

  /** The digests of the staged objects under these keys. */
  function DigestsOf(staged: Staged, keys: set<Key>): set<Digest> {
    set k | k in staged && k in keys :: staged[k]
  }

  function Remove(c: Ciphertexts, keys: set<Key>): Ciphertexts {
    Ciphertexts(c.staged - keys, c.cache - DigestsOf(c.staged, keys))
  }

  /** A pending operation or the prepared commit refers to the key; manifests only the latter does. */
  predicate Referenced(key: Key, pendingIds: set<Id>, preparedKeys: set<Key>) {
    || key in preparedKeys
    || (key.PathKey? && key.operationId in pendingIds)
    || (key.ContentKey? && key.operationId in pendingIds)
  }

  function Unreferenced(c: Ciphertexts, pendingIds: set<Id>, preparedKeys: set<Key>): set<Key> {
    set k | k in c.staged && !Referenced(k, pendingIds, preparedKeys)
  }

  function Clean(c: Ciphertexts, pendingIds: set<Id>, preparedKeys: set<Key>): Ciphertexts {
    Remove(c, Unreferenced(c, pendingIds, preparedKeys))
  }

  /** Cleaning up keys forgets another key's ciphertext exactly when it shares its digest with a cleaned one. */
  lemma CleanupForgetsExactly(c: Ciphertexts, keys: set<Key>, other: Key)
    requires Has(c, other) && other !in keys
    ensures !Has(Remove(c, keys), other) <==> exists k :: k in keys && k in c.staged && c.staged[k] == c.staged[other]
  {}

  /** The keys under which the two ciphertexts of each operation are staged. */
  ghost function KeysOfOperations(operationIds: set<Id>): set<Key> {
    (set id | id in operationIds :: PathKey(id)) + (set id | id in operationIds :: ContentKey(id))
  }

  /** No staged key outside `kept` has the digest of this one. */
  ghost predicate Alone(c: Ciphertexts, kept: set<Key>, key: Key) {
    key in c.staged && forall other :: other in c.staged && other !in kept ==> c.staged[other] != c.staged[key]
  }

  /** Of the staged keys just those in `kept` stay, each with its digest, and with its ciphertext exactly when no
      removed key shares the digest. */
  ghost predicate KeepsJust(before: Ciphertexts, after: Ciphertexts, kept: set<Key>) {
    && (forall key :: key in after.staged <==> key in before.staged && key in kept)
    && (forall key :: key in after.staged ==> after.staged[key] == before.staged[key])
    && (forall hash :: hash in after.cache ==> hash in before.cache && after.cache[hash] == before.cache[hash])
    && (forall key :: key in after.staged && before.staged[key] in before.cache ==>
          (before.staged[key] in after.cache <==> Alone(before, kept, key)))
  }

  /** The cleanup keeps the prepared commit's keys and those of pending operations. */
  lemma CleanKeepsJust(c: Ciphertexts, pendingIds: set<Id>, preparedKeys: set<Key>)
    ensures KeepsJust(c, Clean(c, pendingIds, preparedKeys), preparedKeys + KeysOfOperations(pendingIds))
  {
    var kept := preparedKeys + KeysOfOperations(pendingIds);
    forall key ensures key in kept <==> Referenced(key, pendingIds, preparedKeys) {}
    assert Unreferenced(c, pendingIds, preparedKeys) == c.staged.Keys - kept;
  }

  /** After a push that failed: keys in `kept` still have their ciphertexts unless a removed key shared the digest,
      and no other key that was staged is, except where it was staged anew. */
  ghost predicate KeepsAtLeast(before: Ciphertexts, after: Ciphertexts, kept: set<Key>, anew: set<Key>) {
    && (forall key ::
          key in before.staged && key in kept && before.staged[key] in before.cache && Alone(before, kept, key) ==>
            && key in after.staged && after.staged[key] == before.staged[key] && before.staged[key] in after.cache
            && after.cache[before.staged[key]] == before.cache[before.staged[key]])
    && (forall key :: key in before.staged && key !in kept && key !in anew ==> key !in after.staged)
  }

  lemma RetainsAtLeast(before: Ciphertexts, cleaned: Ciphertexts, after: Ciphertexts, kept: set<Key>, anew: set<Key>)
    requires KeepsJust(before, cleaned, kept) && Retains(cleaned, after)
    requires after.staged.Keys <= cleaned.staged.Keys + (anew + kept)
    ensures KeepsAtLeast(before, after, kept, anew)
  {
    forall key | key in before.staged && key in kept && before.staged[key] in before.cache && Alone(before, kept, key)
      ensures Has(after, key) && after.staged[key] == before.staged[key]
      ensures after.cache[after.staged[key]] == before.cache[before.staged[key]]
    {
      assert key in cleaned.staged && Has(cleaned, key);
      assert RetainedAt(cleaned, after, key);
    }
  }

  // ----- what a retry sends

  /** Whatever a second encryption would give, the key's ciphertext is this one. */
  ghost predicate Fixed(c: Ciphertexts, key: Key, ciphertext: Bytes) {
    forall created: Bytes :: Current(c, key, created) == ciphertext
  }

  lemma FixedExactly(c: Ciphertexts, key: Key, ciphertext: Bytes)
    ensures Fixed(c, key, ciphertext) <==> Has(c, key) && c.cache[c.staged[key]] == ciphertext
  {
    var other: Bytes := ciphertext + [0];
    if Fixed(c, key, ciphertext) {
      assert Current(c, key, other) == ciphertext != other;
    }
  }

  /** The cleanup at the start of a push leaves a staged key its ciphertext exactly when it is one of the prepared
      commit's or of a pending operation's, and no other key shares its digest; otherwise the next encryption replaces
      it. */
  lemma SurvivesCleanupExactly(c: Ciphertexts, pendingIds: set<Id>, preparedKeys: set<Key>, key: Key, ciphertext: Bytes)
    requires Fixed(c, key, ciphertext)
    ensures Fixed(Clean(c, pendingIds, preparedKeys), key, ciphertext) <==>
              var kept := preparedKeys + KeysOfOperations(pendingIds);
              key in kept && Alone(c, kept, key)
  {
    var kept := preparedKeys + KeysOfOperations(pendingIds);
    CleanKeepsJust(c, pendingIds, preparedKeys);
    var cleaned := Clean(c, pendingIds, preparedKeys);
    FixedExactly(c, key, ciphertext);
    FixedExactly(cleaned, key, ciphertext);
  }

  /** A manifest is staged before the commit that refers to it is saved.  When its upload, or anything after it, fails,
      the next push forgets it and encrypts another one. */
  lemma FailedManifestIsForgotten(c: Ciphertexts, operationIds: set<Id>, pendingIds: set<Id>, created: Bytes)
    ensures var cleaned := Clean(c, pendingIds, {});
            ManifestKey(operationIds) !in cleaned.staged
                && Current(cleaned, ManifestKey(operationIds), created) == created
  {}

  datatype Event = Encrypt(key: Key, created: Bytes) | Cleanup(pendingIds: set<Id>, preparedKeys: set<Key>)

  function After(c: Ciphertexts, event: Event): Ciphertexts {
    match event
    case Encrypt(key, created) => Put(c, key, created)
    case Cleanup(pendingIds, preparedKeys) => Clean(c, pendingIds, preparedKeys)
  }

  function Run(c: Ciphertexts, events: seq<Event>): Ciphertexts
    decreases |events|
  {
    if events == [] then c else After(Run(c, events[..|events| - 1]), events[|events| - 1])
  }

  /** A cleanup that takes the key's ciphertext away. */
  ghost predicate Drops(c: Ciphertexts, event: Event, key: Key) {
    event.Cleanup?
    && var kept := event.preparedKeys + KeysOfOperations(event.pendingIds);
       key !in kept || !Alone(c, kept, key)
  }

  /** Over any stagings and cleanups a staged ciphertext stays until a cleanup first drops it. */
  lemma {:induction false} FixedUntilDropped(c: Ciphertexts, events: seq<Event>, key: Key, ciphertext: Bytes)
    requires Keyed(c.cache) && Fixed(c, key, ciphertext)
    requires forall n {:trigger events[n]} :: 0 <= n < |events| ==> !Drops(Run(c, events[..n]), events[n], key)
    ensures Keyed(Run(c, events).cache) && Fixed(Run(c, events), key, ciphertext)
    decreases |events|
  {
    if events != [] {
      var before, last := events[..|events| - 1], events[|events| - 1];
      forall n {:trigger before[n]} | 0 <= n < |before| ensures !Drops(Run(c, before[..n]), before[n], key) {
        assert before[..n] == events[..n] && before[n] == events[n];
      }
      FixedUntilDropped(c, before, key, ciphertext);
      match last
      case Cleanup(pendingIds, preparedKeys) =>
        SurvivesCleanupExactly(Run(c, before), pendingIds, preparedKeys, key, ciphertext);
      case Encrypt(other, created) =>
        PutRetains(Run(c, before), other, created);
        FixedExactly(Run(c, before), key, ciphertext);
        FixedExactly(Run(c, events), key, ciphertext);
    }
  }

  // ----- what a failed push leaves behind

  /** Every key that had its ciphertext still has it. */
  ghost predicate Retains(before: Ciphertexts, after: Ciphertexts) {
    forall k :: Has(before, k) ==> RetainedAt(before, after, k)
  }

  ghost predicate RetainedAt(before: Ciphertexts, after: Ciphertexts, k: Key)
    requires Has(before, k)
  {
    Has(after, k) && after.staged[k] == before.staged[k]
        && after.cache[after.staged[k]] == before.cache[before.staged[k]]
  }

  lemma PutRetains(c: Ciphertexts, key: Key, created: Bytes)
    requires Keyed(c.cache)
    ensures Retains(c, Put(c, key, created)) && Keyed(Put(c, key, created).cache)
  {}

  lemma RetainsTransitively(a: Ciphertexts, b: Ciphertexts, c: Ciphertexts)
    requires Retains(a, b) && Retains(b, c)
    ensures Retains(a, c)
  {}

  class Staging {
    var staged: Staged
    var cache: Cache

    constructor ()
      ensures View() == Ciphertexts(map[], map[])
    {
      staged, cache := map[], map[];
    }

    function View(): Ciphertexts
      reads this
    {
      Ciphertexts(staged, cache)
    }

    /** The first half of `stageAndUpload`: the ciphertext is in the cache before the state mentions it. */
    method PutStaged(key: Key, created: Bytes) returns (ciphertext: Bytes)
      requires Keyed(cache)
      modifies this
      ensures Keyed(cache) && ciphertext == Current(old(View()), key, created)
      ensures View() == Put(old(View()), key, created) && Retains(old(View()), View())
    {
      PutRetains(View(), key, created);
      if key in staged && staged[key] in cache {
        ciphertext := cache[staged[key]];
        assert staged[key := Of(ciphertext)] == staged && cache[Of(ciphertext) := ciphertext] == cache;
        return;
      }
      if key in staged { staged := staged - {key}; }
      ciphertext := created;
      cache := cache[Of(ciphertext) := ciphertext];
      staged := staged[key := Of(ciphertext)];
    }

    /** `stageAndUpload`: on success the server stores exactly the staged ciphertext; on failure it stays staged. */
    method StageAndUpload(key: Key, created: Bytes, server: B.Storage, device: Id, available: nat, newId: Id,
                          replies: nat, served: bool)
      returns (r: Result<Digest, T.TransferError>)
      requires Keyed(cache) && Safe(server.State()) && T.HonestDevice(server, device)
      requires newId !in server.parts && newId !in server.uploads && newId !in server.accepted
      modifies this, server`parts, server`objects, server`uploads, server`blobs, server`accepted
      ensures Keyed(cache) && Safe(server.State()) && T.HonestDevice(server, device)
      ensures View() == Put(old(View()), key, created)
      ensures r.Ok? ==>
                var ciphertext := Current(old(View()), key, created);
                && r.value == Of(ciphertext) && r.value in server.blobs
                && r.value in server.objects && server.objects[r.value] == ciphertext
      ensures r.Ok? ==> old(T.Admitted(server, device, Current(View(), key, created), available))
      ensures r.Err? && r.error != T.ConnectionLost ==>
                !old(T.Admitted(server, device, Current(View(), key, created), available))
      ensures r == Err(T.ConnectionLost) ==> replies < T.ChunksFor(|Current(old(View()), key, created)|) + 2
    {
      var ciphertext := PutStaged(key, created);
      r := T.UploadCiphertext(server, device, ciphertext, available, newId, replies, served);
    }

    /** `cleanupStagedKeys`. */
    method CleanupStagedKeys(keys: set<Key>)
      modifies this
      ensures View() == Remove(old(View()), keys)
    {
      var obsolete := set k | k in staged && k in keys;
      var rest := obsolete;
      while rest != {}
        invariant rest <= obsolete && staged == old(staged)
        invariant cache == old(cache) - DigestsOf(staged, obsolete - rest)
        decreases rest
      {
        var k :| k in rest;
        assert DigestsOf(staged, obsolete - (rest - {k})) == DigestsOf(staged, obsolete - rest) + {staged[k]};
        cache := cache - {staged[k]};
        rest := rest - {k};
      }
      assert DigestsOf(staged, obsolete) == DigestsOf(staged, keys);
      staged := staged - keys;
    }

    /** `cleanupUnreferencedStagedObjects`: of the staged keys those stay that a pending operation or the prepared
        commit refers to, with their ciphertexts unless an unreferenced key shares the digest. */
    method CleanupUnreferenced(pendingIds: set<Id>, preparedKeys: set<Key>)
      modifies this
      ensures View() == Clean(old(View()), pendingIds, preparedKeys)
      ensures KeepsJust(old(View()), View(), preparedKeys + KeysOfOperations(pendingIds))
    {
      CleanKeepsJust(View(), pendingIds, preparedKeys);
      var unreferenced := set k | k in staged && !Referenced(k, pendingIds, preparedKeys);
      CleanupStagedKeys(unreferenced);
    }
  }
}
