/** Applying one selected remote entry to the vault (plugin/src/sync/pull.ts). */
module ApplyEntry {
  import opened Basics
  import opened Vault
  import opened Paths
  import Merge

  /** Functions of the host and of libraries: they are arbitrary.  `saveText` is what writing text
      leaves in a file (canonicalization and re-encoding), `None` when it throws. */
  datatype Core = Core(
    collisionKey: string -> string,
    isText: string -> bool,
    isMarkdown: string -> bool,
    saveText: Content -> Option<Content>,
    decodeText: Content -> Option<string>,
    encodeText: string -> Content,
    copyPath: (string, string, nat) -> string,
    recordPath: nat -> string,
    recordContent: (string, string, string, nat) -> Content)

  datatype Local = Local(path: string, bytes: Content, canonical: Content, hash: Id)

  /** `cleartext` is the content of the recorded blob, when there is one and it can be fetched. */
  datatype Record = Record(path: string, revision: nat, canonicalHash: Id, tombstone: bool, hasContent: bool,
                           cleartext: Option<Content>)

  /** `content` is the verified plaintext; `None` when it is absent or fails verification. */
  datatype Entry = Entry(path: string, revision: nat, hash: Id, tombstone: bool, content: Option<Content>)

  /** What `write(path, bytes, text)` leaves in a file. */
  ghost predicate Stores(core: Core, text: bool, bytes: Content, stored: Content) {
    if text then core.saveText(bytes) == Some(stored) else stored == bytes
  }

  // ----- the decisions, as functions

  function FindPath(locals: seq<Local>, path: string): Option<Local> {
    if locals == [] then None else if locals[0].path == path then Some(locals[0]) else FindPath(locals[1..], path)
  }

  function WithHash(locals: seq<Local>, hash: Id): seq<Local> {
    if locals == [] then []
    else (if locals[0].hash == hash then [locals[0]] else []) + WithHash(locals[1..], hash)
  }

  /** The file at the recorded path, else the only file with the recorded content. */
  function LocateLocal(base: Option<Record>, locals: seq<Local>): Option<Local> {
    if base.None? then None
    else
      var exact := FindPath(locals, base.value.path);
      if exact.Some? then exact
      else
        var matches := WithHash(locals, base.value.canonicalHash);
        if |matches| == 1 then Some(matches[0]) else None
  }

  /** The first local file, other than `excluded`, that conflicts portably with `path`. */
  function FindCollision(core: Core, locals: seq<Local>, path: string, excluded: Option<string>): Option<Local> {
    if locals == [] then None
    else if Some(locals[0].path) != excluded && PortablePathsConflict(locals[0].path, path, core.collisionKey)
    then Some(locals[0])
    else FindCollision(core, locals[1..], path, excluded)
  }

  predicate SameAsBase(remote: Entry, base: Record) {
    remote.path == base.path && remote.revision == base.revision
    && remote.hash == base.canonicalHash && remote.tombstone == base.tombstone
  }

  predicate LocalChanged(local: Local, base: Record) {
    local.hash != base.canonicalHash || local.path != base.path
  }

  // ----- lemmas about the searches

  lemma {:induction false} FindPathFinds(locals: seq<Local>, path: string)
    ensures FindPath(locals, path).Some? ==>
              FindPath(locals, path).value in locals && FindPath(locals, path).value.path == path
    ensures FindPath(locals, path).None? ==> forall l :: l in locals ==> l.path != path
  {
    if locals != [] {
      FindPathFinds(locals[1..], path);
      assert locals == [locals[0]] + locals[1..];
    }
  }

  /** A lone match is the only file with the hash. */
  lemma {:induction false} WithHashFinds(locals: seq<Local>, hash: Id)
    requires DistinctPaths(locals)
    ensures forall l :: l in WithHash(locals, hash) <==> l in locals && l.hash == hash
    ensures DistinctPaths(WithHash(locals, hash))
  {
    if locals != [] {
      WithHashFinds(locals[1..], hash);
      assert locals == [locals[0]] + locals[1..];
      forall l | l in locals[1..] ensures l.path != locals[0].path {
        var i :| 0 <= i < |locals[1..]| && locals[1..][i] == l;
        assert locals[i + 1] == l;
      }
    }
  }

  ghost predicate DistinctPaths(locals: seq<Local>) {
    forall i, j :: 0 <= i < j < |locals| ==> locals[i].path != locals[j].path
  }

  lemma LoneMatch(locals: seq<Local>, hash: Id)
    requires DistinctPaths(locals)
    ensures |WithHash(locals, hash)| == 1 ==>
              forall l :: l in locals && l.hash == hash ==> l == WithHash(locals, hash)[0]
    ensures forall l :: l in locals && l.hash == hash && (forall x :: x in locals && x.hash == hash ==> x == l) ==>
              WithHash(locals, hash) == [l]
  {
    WithHashFinds(locals, hash);
    var matches := WithHash(locals, hash);
    forall l | l in locals && l.hash == hash && (forall x :: x in locals && x.hash == hash ==> x == l)
      ensures matches == [l]
    {
      assert forall i :: 0 <= i < |matches| ==> matches[i] in matches;
      if |matches| >= 2 { FirstTwoDiffer(matches); }
    }
  }

  lemma FirstTwoDiffer(locals: seq<Local>)
    requires DistinctPaths(locals) && |locals| >= 2
    ensures locals[0] != locals[1]
  {
    assert locals[0].path != locals[1].path;
  }

  /** What is located is the entry's own file. */
  lemma LocatedExactly(base: Option<Record>, locals: seq<Local>)
    requires DistinctPaths(locals)
    ensures forall l :: IsOwn(base, locals, l) <==> LocateLocal(base, locals) == Some(l)
  {
    if base.Some? {
      FindPathFinds(locals, base.value.path);
      WithHashFinds(locals, base.value.canonicalHash);
      LoneMatch(locals, base.value.canonicalHash);
      OnlyAtPath(locals);
    }
  }

  lemma OnlyAtPath(locals: seq<Local>)
    requires DistinctPaths(locals)
    ensures forall a, b :: a in locals && b in locals && a.path == b.path ==> a == b
  {
    forall a, b | a in locals && b in locals && a.path == b.path ensures a == b {
      var i :| 0 <= i < |locals| && locals[i] == a;
      var j :| 0 <= j < |locals| && locals[j] == b;
      assert i == j;
    }
  }

  lemma {:induction false} FindCollisionFinds(core: Core, locals: seq<Local>, path: string, excluded: Option<string>)
    ensures var found := FindCollision(core, locals, path, excluded);
            && (found.Some? ==> found.value in locals && Some(found.value.path) != excluded)
            && (found.Some? ==> PortablePathsConflict(found.value.path, path, core.collisionKey))
            && (found.None? ==> forall l :: l in locals && Some(l.path) != excluded ==>
                  !PortablePathsConflict(l.path, path, core.collisionKey))
  {
    if locals != [] {
      FindCollisionFinds(core, locals[1..], path, excluded);
      assert locals == [locals[0]] + locals[1..];
    }
  }

  // ----- what is promised

  /** The snapshot taken before the call describes the vault's files. */
  ghost predicate Snapshot(locals: seq<Local>, files: map<string, Content>) {
    && (forall l :: l in locals ==> l.path in files && files[l.path] == l.bytes)
    && (forall p :: p in files ==> exists l :: l in locals && l.path == p)
    && DistinctPaths(locals)
  }

  /** No two local files conflict portably. */
  ghost predicate CollisionFree(core: Core, locals: seq<Local>) {
    forall a, b :: a in locals && b in locals && PortablePathsConflict(a.path, b.path, core.collisionKey) ==> a == b
  }

  ghost predicate IsCopyPath(core: Core, original: string, copy: string) {
    exists device: string, timestamp: nat, suffix: nat :: NamedCopy(core, original, copy, device, timestamp, suffix)
  }

  predicate NamedCopy(core: Core, original: string, copy: string, device: string, timestamp: nat, suffix: nat) {
    copy == Alternative(core.copyPath(original, device, timestamp), suffix)
  }

  lemma AlternativesAreCopies(core: Core, original: string, device: string, timestamp: nat, suffix: nat)
    ensures IsCopyPath(core, original, Alternative(core.copyPath(original, device, timestamp), suffix))
  {
    assert NamedCopy(core, original, Alternative(core.copyPath(original, device, timestamp), suffix), device, timestamp,
                     suffix);
  }

  /** A conflict copy stands beside its original under another portable name. */
  ghost predicate CopiesStandApart(core: Core) {
    forall original, copy :: IsCopyPath(core, original, copy) ==>
      && core.collisionKey(copy) != core.collisionKey(original)
      && Slashes(core.collisionKey(copy)) == Slashes(core.collisionKey(original))
  }

  ghost predicate Grew(before: map<string, Content>, after: map<string, Content>) {
    forall p :: p in before ==> p in after && after[p] == before[p]
  }

  /** The file's content is still at some path: its bytes, or what saving them as before leaves. */
  ghost predicate Kept(core: Core, local: Local, files: map<string, Content>) {
    exists q :: q in files
        && (files[q] == local.bytes || Stores(core, core.isText(local.path), local.bytes, files[q]))
  }

  /** The remote content is at its own path. */
  ghost predicate Installed(core: Core, remote: Entry, files: map<string, Content>) {
    remote.content.Some? && remote.path in files
    && Stores(core, core.isText(remote.path), remote.content.value, files[remote.path])
  }

  /** The remote content is in a new conflict copy and every local file is as it was. */
  ghost predicate SetAside(core: Core, remote: Entry, before: map<string, Content>, after: map<string, Content>) {
    && remote.content.Some? && Grew(before, after)
    && exists q :: q in after && q !in before && IsCopyPath(core, remote.path, q)
                && Stores(core, core.isText(remote.path), remote.content.value, after[q])
  }

  /** The remote content is set aside because a folder, or a file made during the call, is at its path. */
  ghost predicate Diverted(core: Core, remote: Entry, before: map<string, Content>, after: map<string, Content>,
                           folders: set<string>)
  {
    && SetAside(core, remote, before, after)
    && (remote.path in folders || (remote.path in after && remote.path !in before))
  }

  /** The remote entry replaced the local file, path and content, or was set aside. */
  ghost predicate TookOver(core: Core, local: Local, remote: Entry, before: map<string, Content>,
                           after: map<string, Content>, folders: set<string>)
  {
    || Diverted(core, remote, before, after, folders)
    || (Installed(core, remote, after) && (local.path != remote.path ==> local.path !in after))
  }

  /** The entry's own file: the one at the recorded path, or, if there is none, the only one with the recorded
      content. */
  ghost predicate IsOwn(base: Option<Record>, locals: seq<Local>, l: Local) {
    && base.Some? && l in locals
    && (l.path == base.value.path
        || ((forall x :: x in locals ==> x.path != base.value.path) && l.hash == base.value.canonicalHash
            && forall x :: x in locals && x.hash == base.value.canonicalHash ==> x == l))
  }

  /** What a three-way merge of these versions leaves in the file, when it is tried and does not conflict. */
  ghost predicate Merges(core: Core, base: Record, l: Local, remote: Entry, stored: Content) {
    && core.isMarkdown(remote.path) && l.path == remote.path == base.path && base.hasContent && base.cleartext.Some?
    && remote.content.Some?
    && exists b: string, t: string, r: string ::
         && core.decodeText(base.cleartext.value) == Some(b) && core.decodeText(l.canonical) == Some(t)
         && core.decodeText(remote.content.value) == Some(r)
         && MergesTo(core, Merge.MergeSpec(b, t, r), stored)
  }

  ghost predicate MergesTo(core: Core, merged: Merge.MergeResult, stored: Content) {
    !merged.Conflict? && Stores(core, true, core.encodeText(merged.content), stored)
  }

  /** No local edit is lost: a file is kept unless it is the entry's own and either exactly as recorded, content and
      path, or replaced by the merge of its text. */
  ghost predicate NothingLost(core: Core, base: Option<Record>, remote: Entry, locals: seq<Local>,
                              files: map<string, Content>)
  {
    forall l :: l in locals ==>
      || Kept(core, l, files)
      || (IsOwn(base, locals, l) && l.hash == base.value.canonicalHash && l.path == base.value.path)
      || (IsOwn(base, locals, l) && l.path in files && Merges(core, base.value, l, remote, files[l.path]))
  }

  /** Files that are neither the entry's own file nor in the way of its path stay as they are. */
  ghost predicate OthersUntouched(core: Core, base: Option<Record>, remote: Entry, locals: seq<Local>,
                                  files: map<string, Content>)
  {
    forall l | l in locals && !PortablePathsConflict(l.path, remote.path, core.collisionKey) ::
      IsOwn(base, locals, l) || (l.path in files && files[l.path] == l.bytes)
  }

  /** Every other local file is kept, in place unless it is in the way, and so is what was made since the snapshot. */
  ghost predicate SparesOthers(core: Core, local: Local, remote: Entry, locals: seq<Local>,
                               before: map<string, Content>, start: map<string, Content>, files: map<string, Content>)
  {
    && (forall l :: l in locals && l != local ==> Kept(core, l, files))
    && (forall l | l in locals && l != local && !PortablePathsConflict(l.path, remote.path, core.collisionKey) ::
          l.path in files && files[l.path] == l.bytes)
    && (forall q :: q in start && q !in before ==> q in files && files[q] == start[q])
  }

  /** The remote entry is what the record says in every field. */
  ghost predicate RemoteUnchanged(remote: Entry, base: Record) {
    && remote.path == base.path && remote.revision == base.revision
    && remote.hash == base.canonicalHash && remote.tombstone == base.tombstone
  }

  /** A remote deletion removes the entry's own file, keeping a copy unless it is as recorded. */
  ghost predicate Deleted(core: Core, base: Option<Record>, locals: seq<Local>,
                          before: map<string, Content>, after: map<string, Content>)
  {
    && ((forall l :: !IsOwn(base, locals, l)) ==> after == before)
    && (forall l :: IsOwn(base, locals, l) ==>
          if l.hash == base.value.canonicalHash && l.path == base.value.path then after == before - {l.path}
          else l.path !in after && Kept(core, l, after))
  }

  /** The merge replaced the file, or, where none is possible, the remote entry did and a copy is kept. */
  ghost predicate MergedOrTaken(core: Core, base: Record, l: Local, remote: Entry,
                                before: map<string, Content>, after: map<string, Content>, folders: set<string>)
  {
    || (remote.path in after && Merges(core, base, l, remote, after[remote.path])
        && after == before[remote.path := after[remote.path]])
    || ((forall stored :: !Merges(core, base, l, remote, stored)) && TookOver(core, l, remote, before, after, folders)
        && Kept(core, l, after))
  }

  /** What a call with a live remote entry has done to the entry's own file. */
  ghost predicate AppliedTo(core: Core, base: Record, l: Local, remote: Entry,
                            before: map<string, Content>, after: map<string, Content>, folders: set<string>)
  {
    if l.hash == base.canonicalHash && l.path == base.path then TookOver(core, l, remote, before, after, folders)
    else if RemoteUnchanged(remote, base) then after == before
    else MergedOrTaken(core, base, l, remote, before, after, folders)
  }

  /** What a call that returns has done. */
  ghost predicate Applied(core: Core, base: Option<Record>, remote: Entry, locals: seq<Local>,
                          before: map<string, Content>, after: map<string, Content>, folders: set<string>)
  {
    if remote.tombstone then Deleted(core, base, locals, before, after)
    else if base.None? then Installed(core, remote, after) || Diverted(core, remote, before, after, folders)
    else
      && ((forall l :: !IsOwn(base, locals, l)) ==>
            if RemoteUnchanged(remote, base.value) then after == before else SetAside(core, remote, before, after))
      && (forall l :: IsOwn(base, locals, l) ==> AppliedTo(core, base.value, l, remote, before, after, folders))
  }

  /** Only the file at `moved` may differ between the two vaults. */
  ghost predicate OnlyMoved(before: map<string, Content>, after: map<string, Content>, moved: string) {
    forall p :: p in before && p != moved ==> p in after && after[p] == before[p]
  }

  lemma RestIsKept(core: Core, locals: seq<Local>, before: map<string, Content>, after: map<string, Content>,
                   local: Local)
    requires Snapshot(locals, before) && local in locals && OnlyMoved(before, after, local.path)
    ensures forall l ::
              l in locals && l != local ==> l.path in after && after[l.path] == l.bytes && Kept(core, l, after)
  {}

  lemma AllAreKept(core: Core, locals: seq<Local>, before: map<string, Content>, after: map<string, Content>)
    requires Snapshot(locals, before) && Grew(before, after)
    ensures forall l :: l in locals ==> l.path in after && after[l.path] == l.bytes && Kept(core, l, after)
  {}

  /** A new file at `path` is the conflict record of this copy. */
  ghost predicate IsNote(core: Core, original: string, copy: string, reason: string, timestamp: nat, path: string,
                         before: map<string, Content>, after: map<string, Content>)
  {
    path !in before && path in after && path != copy
    && Stores(core, true, core.recordContent(original, copy, reason, timestamp), after[path])
  }

  ghost predicate Noted(core: Core, original: string, copy: string, reason: string,
                        before: map<string, Content>, after: map<string, Content>)
  {
    exists timestamp, path :: IsNote(core, original, copy, reason, timestamp, path, before, after)
  }

  lemma StillNoted(core: Core, original: string, copy: string, reason: string, before: map<string, Content>,
                   middle: map<string, Content>, after: map<string, Content>)
    requires before.Keys <= middle.Keys && Noted(core, original, copy, reason, middle, after)
    ensures Noted(core, original, copy, reason, before, after)
  {
    var timestamp, path :| IsNote(core, original, copy, reason, timestamp, path, middle, after);
    assert IsNote(core, original, copy, reason, timestamp, path, before, after);
  }

  class PullEngine {
    const core: Core
    const vault: VaultPort
    const localDeviceName: string

    constructor (core: Core, vault: VaultPort, localDeviceName: string)
      ensures this.core == core && this.vault == vault
    {
      this.core, this.vault, this.localDeviceName := core, vault, localDeviceName;
    }

    method Write(path: string, bytes: Content, text: bool) returns (ok: bool)
      modifies vault
      ensures old(vault.folders) <= vault.folders
      ensures ok ==> path in vault.files && Stores(core, text, bytes, vault.files[path])
      ensures ok ==> vault.files == old(vault.files)[path := vault.files[path]]
      ensures !ok ==> vault.files == old(vault.files)
    {
      var canonical := if text then core.saveText(bytes) else Some(bytes);
      if canonical.None? { return false; }
      ok := vault.Write(path, canonical.value);
    }

    method WriteConflictRecord(originalPath: string, conflictPath: string, reason: string, timestamp: nat)
      returns (ok: bool)
      requires conflictPath in vault.files
      modifies vault
      ensures old(vault.folders) <= vault.folders
      ensures Grew(old(vault.files), vault.files)
      ensures ok ==> Noted(core, originalPath, conflictPath, reason, old(vault.files), vault.files)
    {
      var path := UniquePath(vault, core.recordPath(timestamp));
      if path.Err? { return false; }
      ok := Write(path.value, core.recordContent(originalPath, conflictPath, reason, timestamp), true);
      assert ok ==>
          IsNote(core, originalPath, conflictPath, reason, timestamp, path.value, old(vault.files), vault.files);
    }

    /** Saves a copy under a name nobody uses, then the conflict record; existing files stay. */
    method PreserveBytes(originalPath: string, bytes: Content, reason: string, deviceName: string)
      returns (ok: bool, ghost copy: string)
      modifies vault
      ensures old(vault.folders) <= vault.folders
      ensures Grew(old(vault.files), vault.files)
      ensures ok ==>
                && copy !in old(vault.files) && copy in vault.files && IsCopyPath(core, originalPath, copy)
                && Stores(core, core.isText(originalPath), bytes, vault.files[copy])
                && Noted(core, originalPath, copy, reason, old(vault.files), vault.files)
    {
      copy := "";
      var timestamp: nat := *;
      var candidate := core.copyPath(originalPath, deviceName, timestamp);
      var conflictPath := UniquePath(vault, candidate);
      if conflictPath.Err? { return false, copy; }
      copy := conflictPath.value;
      ghost var suffix: nat :| copy == Alternative(candidate, suffix);
      AlternativesAreCopies(core, originalPath, deviceName, timestamp, suffix);
      ok := Write(conflictPath.value, bytes, core.isText(originalPath));
      if !ok { return; }
      ghost var middle := vault.files;
      ok := WriteConflictRecord(originalPath, conflictPath.value, reason, timestamp);
      if ok { StillNoted(core, originalPath, copy, reason, old(vault.files), middle, vault.files); }
    }

    method PreserveLocalConflict(local: Local, reason: string) returns (ok: bool, ghost copy: string)
      modifies vault
      ensures Grew(old(vault.files), vault.files)
      ensures ok ==> copy !in old(vault.files) && IsCopyPath(core, local.path, copy) && copy in vault.files
      ensures ok ==> Stores(core, core.isText(local.path), local.bytes, vault.files[copy])
      ensures ok ==> Noted(core, local.path, copy, reason, old(vault.files), vault.files)
    {
      ok, copy := PreserveBytes(local.path, local.bytes, reason, localDeviceName);
    }

    /** Preserves a file that is in the way and removes it; no other file changes. */
    method ClearAway(local: Local, reason: string) returns (ok: bool, ghost copy: string)
      requires local.path in vault.files
      modifies vault
      ensures forall p ::
                p in old(vault.files) && p != local.path ==> p in vault.files && vault.files[p] == old(vault.files)[p]
      ensures !ok ==> Grew(old(vault.files), vault.files)
      ensures ok ==>
                && local.path !in vault.files && copy !in old(vault.files) && copy in vault.files
                && IsCopyPath(core, local.path, copy)
                && Stores(core, core.isText(local.path), local.bytes, vault.files[copy])
    {
      ok, copy := PreserveLocalConflict(local, reason);
      if !ok { return; }
      ok := vault.Remove(local.path);
    }

    /** Renames when the path changed, then writes: only the file itself changes. */
    method MoveAndWrite(local: Local, remote: Entry, remoteBytes: Content) returns (ok: bool)
      requires remote.content == Some(remoteBytes)
      modifies vault
      ensures forall p ::
                p in old(vault.files) && p != local.path ==> p in vault.files && vault.files[p] == old(vault.files)[p]
      ensures ok ==> Installed(core, remote, vault.files) && (local.path != remote.path ==> local.path !in vault.files)
      ensures !ok && local.path in old(vault.files) ==>
                exists q :: q in vault.files && vault.files[q] == old(vault.files)[local.path]
    {
      if local.path != remote.path {
        ok := vault.Rename(local.path, remote.path);
        if !ok { return; }
      }
      ok := Write(remote.path, remoteBytes, core.isText(remote.path));
      assert !ok && local.path in old(vault.files) ==>
          remote.path in vault.files && vault.files[remote.path] == old(vault.files)[local.path];
    }

    /** The file at the destination is preserved and removed first. */
    method ReplaceDestination(destination: Local, local: Local, remote: Entry, remoteBytes: Content,
                              ghost locals: seq<Local>, ghost before: map<string, Content>)
      returns (ok: bool)
      requires Snapshot(locals, before) && local in locals && remote.content == Some(remoteBytes)
      requires Grew(before, vault.files) && destination in locals && destination.path != local.path
      requires PortablePathsConflict(destination.path, remote.path, core.collisionKey) && local.path != remote.path
      modifies vault
      ensures SparesOthers(core, local, remote, locals, before, old(vault.files), vault.files)
      ensures ok ==> TookOver(core, local, remote, before, vault.files, vault.folders)
    {
      OnlyAtPath(locals);
      ghost var copy;
      ok, copy := ClearAway(destination, "remote rename destination already exists");
      if !ok { return; }
      ghost var cleared := vault.files;
      ok := MoveAndWrite(local, remote, remoteBytes);
      assert vault.files[copy] == cleared[copy];
    }

    /** Puts the remote content at its path, in place of `local`. */
    method ApplyRemoteWinner(local: Local, remote: Entry, remoteBytes: Content, locals: seq<Local>,
                             ghost before: map<string, Content>)
      returns (ok: bool)
      requires Snapshot(locals, before) && local in locals && remote.content == Some(remoteBytes)
      requires Grew(before, vault.files)
      modifies vault
      ensures SparesOthers(core, local, remote, locals, before, old(vault.files), vault.files)
      ensures ok ==> TookOver(core, local, remote, before, vault.files, vault.folders)
    {
      OnlyAtPath(locals);
      if local.path == remote.path {
        ok := MoveAndWrite(local, remote, remoteBytes);
        return;
      }
      var destination := FindCollision(core, locals, remote.path, Some(local.path));
      FindCollisionFinds(core, locals, remote.path, Some(local.path));
      if destination.Some? {
        ok := ReplaceDestination(destination.value, local, remote, remoteBytes, locals, before);
        return;
      }
      var present := vault.Exists(remote.path);
      if present.Err? { return false; }
      if present.value {
        ghost var copy;
        ok, copy := PreserveBytes(remote.path, remoteBytes, "a local folder blocks the remote rename destination",
                                  "remote");
        return;
      }
      ok := MoveAndWrite(local, remote, remoteBytes);
    }

    method RemoveTombstoned(local: Local, asRecorded: bool) returns (ok: bool)
      requires local.path in vault.files && vault.files[local.path] == local.bytes
      modifies vault
      ensures forall p ::
                p in old(vault.files) && p != local.path ==> p in vault.files && vault.files[p] == old(vault.files)[p]
      ensures asRecorded || Kept(core, local, vault.files)
      ensures ok ==> local.path !in vault.files
      ensures ok && asRecorded ==> vault.files == old(vault.files) - {local.path}
    {
      if asRecorded {
        ok := vault.Remove(local.path);
        return;
      }
      ghost var copy;
      ok, copy := ClearAway(local, "remote deletion conflicts with a local modification or rename");
      assert ok ==> copy in vault.files;
    }

    /** A local file is in the way of a new remote file: it is preserved, removed and replaced. */
    method ReplaceCollision(collision: Local, remote: Entry, remoteBytes: Content, locals: seq<Local>)
      returns (ok: bool)
      requires Snapshot(locals, vault.files) && CollisionFree(core, locals) && CopiesStandApart(core)
      requires remote.content == Some(remoteBytes)
      requires collision in locals && PortablePathsConflict(collision.path, remote.path, core.collisionKey)
      modifies vault
      ensures OnlyMoved(old(vault.files), vault.files, collision.path)
      ensures Kept(core, collision, vault.files)
      ensures ok ==> Installed(core, remote, vault.files)
    {
      ghost var start := vault.files;
      ghost var copy;
      ok, copy := ClearAway(collision, "concurrent creation at the same portable path");
      if !ok {
        AllAreKept(core, locals, start, vault.files);
        return;
      }
      CopyIsElsewhere(core, collision.path, copy, remote.path);
      assert remote.path in start ==> remote.path == collision.path;
      ok := Write(remote.path, remoteBytes, core.isText(remote.path));
      assert copy in vault.files;
    }

    /** A path nobody recorded: whatever local file is in the way is preserved first. */
    method ApplyCreation(remote: Entry, remoteBytes: Content, locals: seq<Local>) returns (ok: bool)
      requires Snapshot(locals, vault.files) && CollisionFree(core, locals) && CopiesStandApart(core)
      requires remote.content == Some(remoteBytes)
      modifies vault
      ensures forall l :: l in locals ==> Kept(core, l, vault.files)
      ensures forall l | l in locals && !PortablePathsConflict(l.path, remote.path, core.collisionKey) ::
                l.path in vault.files && vault.files[l.path] == l.bytes
      ensures ok ==> Installed(core, remote, vault.files)
                     || Diverted(core, remote, old(vault.files), vault.files, vault.folders)
    {
      ghost var start := vault.files;
      var collision := FindCollision(core, locals, remote.path, None);
      FindCollisionFinds(core, locals, remote.path, None);
      if collision.Some? {
        ok := ReplaceCollision(collision.value, remote, remoteBytes, locals);
        RestIsKept(core, locals, start, vault.files, collision.value);
        return;
      }
      ok := false;
      var present := vault.Exists(remote.path);
      if present.Ok? {
        if present.value {
          ghost var copy;
          ok, copy := PreserveBytes(remote.path, remoteBytes, "a local folder blocks the remote file path", "remote");
        } else {
          ok := Write(remote.path, remoteBytes, core.isText(remote.path));
        }
      }
      AllAreKept(core, locals, start, vault.files);
    }

    /** Both sides changed: merge if possible, else keep a copy of the local file and let the remote win. */
    method ApplyConcurrent(base: Record, local: Local, remote: Entry, remoteBytes: Content, locals: seq<Local>)
      returns (ok: bool)
      requires Snapshot(locals, vault.files) && local in locals && remote.content == Some(remoteBytes)
      modifies vault
      ensures forall l :: l in locals && l != local ==> Kept(core, l, vault.files)
      ensures forall l | l in locals && l != local && !PortablePathsConflict(l.path, remote.path, core.collisionKey) ::
                l.path in vault.files && vault.files[l.path] == l.bytes
      ensures Kept(core, local, vault.files)
              || (local.path in vault.files && Merges(core, base, local, remote, vault.files[local.path]))
      ensures ok ==> MergedOrTaken(core, base, local, remote, old(vault.files), vault.files, vault.folders)
    {
      ghost var start := vault.files;
      if core.isMarkdown(remote.path) && core.isMarkdown(local.path) && local.path == base.path
         && remote.path == base.path && base.hasContent
      {
        if base.cleartext.None? { return false; }
        var b, l, r := core.decodeText(base.cleartext.value), core.decodeText(local.canonical),
            core.decodeText(remoteBytes);
        if b.None? || l.None? || r.None? { return false; }
        var merged := Merge.MergeText(b.value, l.value, r.value);
        if !merged.Conflict? {
          ok := Write(remote.path, core.encodeText(merged.content), true);
          RestIsKept(core, locals, start, vault.files, local);
          assert !ok ==> vault.files[local.path] == local.bytes;
          return;
        }
      }
      ghost var copy;
      ok, copy := PreserveLocalConflict(local, "concurrent changes could not be merged safely");
      if !ok {
        AllAreKept(core, locals, start, vault.files);
        return;
      }
      ghost var preserved := vault.files;
      ok := ApplyRemoteWinner(local, remote, remoteBytes, locals, start);
      assert vault.files[copy] == preserved[copy];
    }

    /** Applies one remote entry.  Whether it returns or throws, no local edit is lost and no unrelated
        file changes; when it returns, it has done what `Applied` says. */
    method ApplyEntry(base: Option<Record>, remote: Entry, locals: seq<Local>) returns (ok: bool)
      requires Snapshot(locals, vault.files) && CollisionFree(core, locals) && CopiesStandApart(core)
      modifies vault
      ensures NothingLost(core, base, remote, locals, vault.files)
      ensures OthersUntouched(core, base, remote, locals, vault.files)
      ensures ok ==> Applied(core, base, remote, locals, old(vault.files), vault.files, vault.folders)
    {
      var local := LocateLocal(base, locals);
      LocatedExactly(base, locals);
      if remote.tombstone {
        if local.None? { return true; }
        ok := RemoveTombstoned(local.value, !LocalChanged(local.value, base.value));
        return;
      }
      if remote.content.None? { return false; }
      var remoteBytes := remote.content.value;
      if base.None? {
        ok := ApplyCreation(remote, remoteBytes, locals);
        return;
      }
      var remoteChanged := !SameAsBase(remote, base.value);
      if local.None? {
        ok := true;
        if remoteChanged {
          ghost var copy;
          ok, copy := PreserveBytes(remote.path, remoteBytes, "remote modification conflicts with a local deletion",
                                    "remote");
        }
        return;
      }
      if !LocalChanged(local.value, base.value) {
        ok := ApplyRemoteWinner(local.value, remote, remoteBytes, locals, vault.files);
        return;
      }
      if !remoteChanged { return true; }
      ok := ApplyConcurrent(base.value, local.value, remote, remoteBytes, locals);
    }
  }

  /** A conflict copy of a file in the way of a path is never at that path itself. */
  lemma CopyIsElsewhere(core: Core, original: string, copy: string, path: string)
    requires CopiesStandApart(core) && IsCopyPath(core, original, copy)
    requires PortablePathsConflict(original, path, core.collisionKey)
    ensures copy != path
  {
    var a, b := core.collisionKey(original), core.collisionKey(path);
    if Under(a, b) { UnderHasMoreSlashes(a, b); }
    if Under(b, a) { UnderHasMoreSlashes(b, a); }
  }
}
