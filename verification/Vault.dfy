/** The local vault as the synchronizer sees it (plugin/src/obsidian/vault-port.ts). */
module Vault {
  import opened Basics

  type Content = Bytes

  /** Files and folders by path.  Every operation may fail before it changes a file; failures come
      from the host application and are arbitrary. */
  class VaultPort {
    var files: map<string, Content>
    var folders: set<string>

    constructor (files: map<string, Content>, folders: set<string>)
      ensures this.files == files && this.folders == folders
    {
      this.files := files;
      this.folders := folders;
    }

    predicate Present(path: string)
      reads this
    {
      path in files || path in folders
    }

    method Exists(path: string) returns (r: Result<bool, ()>)
      ensures r.Ok? ==> (r.value <==> path in files || path in folders)
    {
      var fails: bool := *;
      r := if fails then Err(()) else Ok(Present(path));
    }

    method Write(path: string, content: Content) returns (ok: bool)
      modifies this
      ensures old(folders) <= folders
      ensures ok ==> path !in old(folders) && files == old(files)[path := content]
      ensures !ok ==> files == old(files)
    {
      var created: set<string> := *;
      folders := folders + created;
      var fails: bool := *;
      if fails || path in folders { return false; }
      files := files[path := content];
      ok := true;
    }

    /** Renaming onto anything that exists is refused. */
    method Rename(from: string, to: string) returns (ok: bool)
      modifies this
      ensures old(folders) <= folders
      ensures ok ==> from in old(files) && to !in old(files) && to !in old(folders)
      ensures ok ==> files == (old(files) - {from})[to := old(files)[from]]
      ensures !ok ==> files == old(files)
    {
      var fails: bool := *;
      if fails || Present(to) || from !in files { return false; }
      var created: set<string> := *;
      folders := folders + created;
      files := (files - {from})[to := files[from]];
      ok := true;
    }

    method Remove(path: string) returns (ok: bool)
      modifies this`files
      ensures ok ==> files == old(files) - {path}
      ensures !ok ==> files == old(files)
    {
      var fails: bool := *;
      if fails || path in folders { return false; }
      files := files - {path};
      ok := true;
    }
  }

  // ----- conflict-copy names

  function Digit(d: nat): char
    requires d < 10
  {
    "0123456789"[d]
  }

  /** Decimal notation. */
  function Decimal(n: nat): string {
    if n < 10 then [Digit(n)] else Decimal(n / 10) + [Digit(n % 10)]
  }

  /** The number that digits denote. */
  ghost function Denoted(digits: string): int {
    if digits == "" then 0
    else 10 * Denoted(digits[..|digits| - 1]) + (digits[|digits| - 1] as int - '0' as int)
  }

  /** Decimal notation: digits that denote the number, without a leading zero. */
  lemma {:induction false} DecimalDenotes(n: nat)
    ensures Denoted(Decimal(n)) == n && (forall c :: c in Decimal(n) ==> '0' <= c <= '9')
    ensures Decimal(n) != "" && (Decimal(n)[0] == '0' <==> n == 0)
  {
    if n >= 10 { DecimalDenotes(n / 10); }
  }

  lemma DecimalLength(n: nat)
    ensures |Decimal(n)| >= 1 && (n < 10 <==> |Decimal(n)| == 1)
  {}

  lemma {:induction false} DecimalIsInjective(a: nat, b: nat)
    requires Decimal(a) == Decimal(b)
    ensures a == b
    decreases a
  {
    var x, y := Decimal(a), Decimal(b);
    DecimalLength(a);
    DecimalLength(b);
    assert x[|x| - 1] == Digit(a % 10) && y[|y| - 1] == Digit(b % 10);
    if a >= 10 {
      assert x[..|x| - 1] == Decimal(a / 10) && y[..|y| - 1] == Decimal(b / 10);
      DecimalIsInjective(a / 10, b / 10);
    }
  }

  /** `lastIndexOf`: -1 when the character does not occur. */
  function LastIndexOf(path: string, c: char): (at: int)
    ensures -1 <= at < |path|
  {
    if path == "" then -1
    else if path[|path| - 1] == c then |path| - 1
    else LastIndexOf(path[..|path| - 1], c)
  }

  lemma LastIndexIsLast(path: string, c: char)
    ensures var at := LastIndexOf(path, c); (at >= 0 ==> path[at] == c) && forall k :: at < k < |path| ==> path[k] != c
  {}

  lemma LastIndexIs(path: string, c: char, at: int)
    requires -1 <= at < |path| && (at >= 0 ==> path[at] == c) && forall k :: at < k < |path| ==> path[k] != c
    ensures LastIndexOf(path, c) == at
  {
    LastIndexIsLast(path, c);
  }

  function LastDot(path: string): int { LastIndexOf(path, '.') }

  function LastSlash(path: string): int { LastIndexOf(path, '/') }

  /** The folder a path is in, with its slash; empty for a path without one. */
  function Folder(path: string): string { path[..LastSlash(path) + 1] }

  function FileName(path: string): string { path[LastSlash(path) + 1..] }

  /** The `suffix`-th alternative to `candidate`: a number in front of the extension. */
  function Numbered(candidate: string, suffix: nat): string {
    var dot := LastDot(candidate);
    if dot < 0 then candidate + " " + Decimal(suffix)
    else candidate[..dot] + " " + Decimal(suffix) + candidate[dot..]
  }

  lemma NumberedIsInjective(candidate: string, a: nat, b: nat)
    requires Numbered(candidate, a) == Numbered(candidate, b)
    ensures a == b
  {
    var dot := LastDot(candidate);
    var stem, extension := if dot < 0 then candidate else candidate[..dot], if dot < 0 then "" else candidate[dot..];
    var x, y := stem + " " + Decimal(a) + extension, stem + " " + Decimal(b) + extension;
    assert x == Numbered(candidate, a) && y == Numbered(candidate, b);
    assert x[|stem| + 1..|x| - |extension|] == Decimal(a);
    assert y[|stem| + 1..|y| - |extension|] == Decimal(b);
    DecimalIsInjective(a, b);
  }

  /** The number goes in front of the last dot, and at the end where there is none. */
  lemma NumberIsSpelled(stem: string, extension: string, suffix: nat)
    requires if extension == "" then '.' !in stem else extension[0] == '.' && '.' !in extension[1..]
    ensures Numbered(stem + extension, suffix) == stem + " " + Decimal(suffix) + extension
  {
    if extension == "" {
      assert stem + extension == stem;
      LastIndexIs(stem, '.', -1);
    } else {
      forall k | |stem| < k < |stem + extension| ensures (stem + extension)[k] != '.' {
        assert (stem + extension)[k] == extension[1..][k - |stem| - 1];
      }
      LastIndexIs(stem + extension, '.', |stem|);
    }
  }

  function Tried(candidate: string, suffix: nat): set<string> {
    set k: nat | 2 <= k < suffix :: Numbered(candidate, k)
  }

  lemma OneMoreTried(candidate: string, suffix: nat)
    requires suffix >= 2
    ensures Numbered(candidate, suffix) !in Tried(candidate, suffix)
    ensures Tried(candidate, suffix + 1) == Tried(candidate, suffix) + {Numbered(candidate, suffix)}
  {
    forall k: nat | 2 <= k < suffix ensures Numbered(candidate, k) != Numbered(candidate, suffix) {
      if Numbered(candidate, k) == Numbered(candidate, suffix) { NumberedIsInjective(candidate, k, suffix); }
    }
  }

  function Alternative(candidate: string, suffix: nat): string {
    if suffix < 2 then candidate else Numbered(candidate, suffix)
  }

  /** Every alternative before this one exists, and this one does not. */
  ghost predicate FirstFree(vault: VaultPort, candidate: string, suffix: nat)
    reads vault
  {
    && Alternative(candidate, suffix) !in vault.files && Alternative(candidate, suffix) !in vault.folders
    && TakenBelow(vault, candidate, suffix)
  }

  ghost predicate TakenBelow(vault: VaultPort, candidate: string, suffix: nat)
    reads vault
  {
    forall k: nat :: k < suffix ==> Occupied(vault, Alternative(candidate, k))
  }

  ghost predicate Occupied(vault: VaultPort, path: string)
    reads vault
  {
    path in vault.files || path in vault.folders
  }

  lemma OneMoreTaken(vault: VaultPort, candidate: string, suffix: nat)
    requires suffix >= 2 && Occupied(vault, Numbered(candidate, suffix)) && TakenBelow(vault, candidate, suffix)
    requires Tried(candidate, suffix) <= vault.files.Keys + vault.folders
    ensures TakenBelow(vault, candidate, suffix + 1)
    ensures Tried(candidate, suffix + 1) <= vault.files.Keys + vault.folders
    ensures (vault.files.Keys + vault.folders) - Tried(candidate, suffix + 1) <
            (vault.files.Keys + vault.folders) - Tried(candidate, suffix)
  {
    OneMoreTried(candidate, suffix);
  }

  /** The first alternative that does not exist yet; the search ends because the vault is finite. */
  method UniquePath(vault: VaultPort, candidate: string) returns (r: Result<string, ()>)
    ensures r.Ok? ==>
              exists suffix: nat :: r.value == Alternative(candidate, suffix) && FirstFree(vault, candidate, suffix)
  {
    var first := vault.Exists(candidate);
    if first.Err? { return Err(()); }
    if !first.value {
      assert candidate == Alternative(candidate, 0) && FirstFree(vault, candidate, 0);
      return Ok(candidate);
    }
    var suffix := 2;
    var result := Numbered(candidate, suffix);
    var more := vault.Exists(result);
    while more.Ok? && more.value
      invariant suffix >= 2 && result == Numbered(candidate, suffix)
      invariant Tried(candidate, suffix) <= vault.files.Keys + vault.folders
      invariant more.Ok? ==> (more.value <==> Occupied(vault, result))
      invariant TakenBelow(vault, candidate, suffix)
      decreases (vault.files.Keys + vault.folders) - Tried(candidate, suffix), more.Ok? && more.value
    {
      OneMoreTaken(vault, candidate, suffix);
      suffix := suffix + 1;
      result := Numbered(candidate, suffix);
      more := vault.Exists(result);
    }
    if more.Err? { return Err(()); }
    assert result == Alternative(candidate, suffix) && FirstFree(vault, candidate, suffix);
    r := Ok(result);
  }

  // ----- where a numbered copy lands

  lemma {:induction false} DecimalHasNoSlash(n: nat)
    ensures '/' !in Decimal(n)
  {
    if n >= 10 { DecimalHasNoSlash(n / 10); }
  }

  /** Putting slash-free text behind the last slash keeps the folder, putting it in front of it does not. */
  lemma InsertedFolder(path: string, at: nat, text: string)
    requires at <= |path| && '/' !in text && text != ""
    ensures Folder(path[..at] + text + path[at..]) == Folder(path) <==> LastSlash(path) < at
  {
    var slash, longer := LastSlash(path), path[..at] + text + path[at..];
    LastIndexIsLast(path, '/');
    var moved := if slash < at then slash else slash + |text|;
    forall k | moved < k < |longer| ensures longer[k] != '/' {
      assert longer[k] == if k < at then path[k] else if k < at + |text| then text[k - at] else path[k - |text|];
    }
    LastIndexIs(longer, '/', moved);
    if slash < at { assert longer[..slash + 1] == path[..slash + 1]; }
  }

  /** An alternative is in the candidate's folder exactly when the candidate has no dot or its last one is in the
      file name. */
  lemma NumberStaysInFolder(candidate: string, suffix: nat)
    ensures Folder(Numbered(candidate, suffix)) == Folder(candidate) <==>
              LastDot(candidate) < 0 || LastDot(candidate) > LastSlash(candidate)
  {
    var dot := LastDot(candidate);
    var at := if dot < 0 then |candidate| else dot;
    NumberedInserts(candidate, suffix, at);
    DecimalHasNoSlash(suffix);
    InsertedFolder(candidate, at, " " + Decimal(suffix));
    LastIndexIsLast(candidate, '.');
    LastIndexIsLast(candidate, '/');
  }

  lemma NumberedInserts(candidate: string, suffix: nat, at: nat)
    requires at == if LastDot(candidate) < 0 then |candidate| else LastDot(candidate)
    ensures Numbered(candidate, suffix) == candidate[..at] + (" " + Decimal(suffix)) + candidate[at..]
  {
    assert candidate[..|candidate|] == candidate;
  }

  /** `conflictCopyPath`; the device name is given as sanitized and the time as formatted. */
  function ConflictCopyPath(original: string, device: string, utc: string): string {
    var name := FileName(original);
    var dot := LastDot(name);
    var stem, extension := if dot <= 0 then name else name[..dot], if dot <= 0 then "" else name[dot..];
    Folder(original) + (stem + " (conflict-" + device + "-" + utc + ")" + extension)
  }

  lemma SplitPath(folder: string, name: string)
    requires folder != "" ==> folder[|folder| - 1] == '/'
    requires '/' !in name
    ensures Folder(folder + name) == folder && FileName(folder + name) == name
  {
    assert (folder + name)[|folder|..] == name && (folder + name)[..|folder|] == folder;
    FolderIs(folder + name, folder);
    assert LastSlash(folder + name) + 1 == |Folder(folder + name)|;
  }

  /** The name of a copy: the mark goes in front of the extension; a name that only begins with a dot has none. */
  lemma CopyIsSpelled(folder: string, stem: string, extension: string, device: string, utc: string)
    requires folder != "" ==> folder[|folder| - 1] == '/'
    requires stem != "" && '/' !in stem && '/' !in extension
    requires if extension == "" then '.' !in stem[1..] else extension[0] == '.' && '.' !in extension[1..]
    ensures ConflictCopyPath(folder + (stem + extension), device, utc) ==
            folder + (stem + " (conflict-" + device + "-" + utc + ")" + extension)
  {
    var name := stem + extension;
    SplitPath(folder, name);
    NameIsSplit(stem, extension);
    assert name[..|stem|] == stem && name[|stem|..] == extension;
    assert extension == "" ==> name == stem;
  }

  /** Where a name is split into stem and extension. */
  lemma NameIsSplit(stem: string, extension: string)
    requires stem != "" && if extension == "" then '.' !in stem[1..] else extension[0] == '.' && '.' !in extension[1..]
    ensures extension == "" ==> LastDot(stem + extension) <= 0
    ensures extension != "" ==> LastDot(stem + extension) == |stem|
  {
    var name := stem + extension;
    if extension == "" {
      LastIndexIsLast(name, '.');
      assert forall k :: 0 < k < |name| ==> name[k] == stem[1..][k - 1];
    } else {
      forall k | |stem| < k < |name| ensures name[k] != '.' { assert name[k] == extension[1..][k - |stem| - 1]; }
      LastIndexIs(name, '.', |stem|);
    }
  }

  /** The dots and slashes of a conflict copy's name are those of the original's, the device and the time. */
  lemma CopyNameHas(original: string, device: string, utc: string, c: char)
    requires c == '.' || c == '/'
    ensures var copy := ConflictCopyPath(original, device, utc);
            && |Folder(original)| <= |copy| && copy[..|Folder(original)|] == Folder(original)
            && (c in copy[|Folder(original)|..] <==> c in FileName(original) || c in device || c in utc)
  {
    var name := FileName(original);
    var dot := LastDot(name);
    var stem, extension := if dot <= 0 then name else name[..dot], if dot <= 0 then "" else name[dot..];
    assert stem + extension == name;
    assert c !in " (conflict-" && c !in "-" && c !in ")";
  }

  lemma FileNameHasNoSlash(path: string)
    ensures '/' !in FileName(path)
  {
    LastIndexIsLast(path, '/');
  }

  /** The copy is in the original's folder. */
  lemma ConflictCopyStaysBeside(original: string, device: string, utc: string)
    requires '/' !in device && '/' !in utc
    ensures Folder(ConflictCopyPath(original, device, utc)) == Folder(original)
  {
    CopyNameHas(original, device, utc, '/');
    FileNameHasNoSlash(original);
    LastIndexIsLast(original, '/');
    FolderIs(ConflictCopyPath(original, device, utc), Folder(original));
  }

  lemma FolderIs(path: string, folder: string)
    requires |folder| <= |path| && path[..|folder|] == folder && '/' !in path[|folder|..]
    requires folder != "" ==> folder[|folder| - 1] == '/'
    ensures Folder(path) == folder
  {
    forall k | |folder| <= k < |path| ensures path[k] != '/' {
      assert path[k] == path[|folder|..][k - |folder|];
    }
    assert folder != "" ==> path[|folder| - 1] == folder[|folder| - 1];
    LastIndexIs(path, '/', |folder| - 1);
  }

  /** A numbered conflict copy is in the original's folder exactly when the folder's path has no dot, or the file's
      name, the device or the time has one. */
  lemma NumberedCopyStaysBeside(original: string, device: string, utc: string, suffix: nat)
    requires '/' !in device && '/' !in utc
    ensures Folder(Numbered(ConflictCopyPath(original, device, utc), suffix)) == Folder(original) <==>
              '.' !in Folder(original) || '.' in FileName(original) || '.' in device || '.' in utc
  {
    var copy := ConflictCopyPath(original, device, utc);
    ConflictCopyStaysBeside(original, device, utc);
    NumberStaysInFolder(copy, suffix);
    CopyNameHas(original, device, utc, '.');
    DotOutside(copy);
  }

  lemma DotOutside(path: string)
    ensures LastDot(path) > LastSlash(path) <==> '.' in FileName(path)
    ensures LastDot(path) < 0 <==> '.' !in Folder(path) && '.' !in FileName(path)
  {
    LastIndexInParts(path, LastSlash(path) + 1, '.');
  }

  lemma LastIndexInParts(path: string, cut: nat, c: char)
    requires cut <= |path|
    ensures LastIndexOf(path, c) >= cut <==> c in path[cut..]
    ensures LastIndexOf(path, c) < 0 <==> c !in path[..cut] && c !in path[cut..]
  {
    var at := LastIndexOf(path, c);
    LastIndexIsLast(path, c);
    if at >= cut {
      assert path[cut..][at - cut] == c;
    } else if at >= 0 {
      assert path[..cut][at] == c;
    }
  }

  function CopyTail(name: string, device: string, utc: string): string {
    name + " (conflict-" + device + "-" + utc + ")"
  }

  lemma TailIsPlain(name: string, device: string, utc: string, c: char)
    requires (c == '.' || c == '/') && c !in name && c !in device && c !in utc
    ensures c !in CopyTail(name, device, utc)
  {
    assert c !in " (conflict-" && c !in "-" && c !in ")";
  }

  lemma NumberInFolder(start: string, rest: string, tail: string)
    requires rest != "" && rest[0] == '.' && rest[|rest| - 1] == '/' && '.' !in rest[1..] && '/' !in tail
    requires '.' !in tail
    ensures Folder(start + rest + tail) == start + rest
    ensures Folder(Numbered(start + rest + tail, 2)) == start + " 2" + rest
  {
    assert (rest + tail)[1..] == rest[1..] + tail;
    NumberIsSpelled(start, rest + tail, 2);
    assert Decimal(2) == "2";
    assert start + " " + "2" + (rest + tail) == start + " 2" + (rest + tail);
    assert start + (rest + tail) == start + rest + tail && start + " 2" + (rest + tail) == start + " 2" + rest + tail;
    FolderIs(start + rest + tail, start + rest);
    FolderIs(start + " 2" + rest + tail, start + " 2" + rest);
  }

  /** A bare name in a folder whose last dot is followed by `rest`: a numbered copy breaks the folder's name. */
  lemma NumberBreaksFolder(start: string, rest: string, name: string, device: string, utc: string)
    requires rest != "" && rest[0] == '.' && rest[|rest| - 1] == '/' && '.' !in rest[1..]
    requires '/' !in name && '.' !in name && '/' !in device && '.' !in device && '/' !in utc && '.' !in utc
    ensures var copy := ConflictCopyPath(start + rest + name, device, utc);
            Folder(copy) == start + rest && Folder(Numbered(copy, 2)) == start + " 2" + rest
  {
    CopyOfBareName(start + rest, name, device, utc);
    TailIsPlain(name, device, utc, '.');
    TailIsPlain(name, device, utc, '/');
    NumberInFolder(start, rest, CopyTail(name, device, utc));
  }

  lemma CopyOfBareName(folder: string, name: string, device: string, utc: string)
    requires folder != "" && folder[|folder| - 1] == '/' && '/' !in name && '.' !in name
    ensures ConflictCopyPath(folder + name, device, utc) == folder + CopyTail(name, device, utc)
  {
    LastIndexIs(folder + name, '/', |folder| - 1);
    LastIndexIs(name, '.', -1);
  }

  /** A second copy of "v1.0/notes", such as "v1.0/notes (conflict-dev-20240101T000000Z)" made twice in one second,
      is put in the folder "v1 2.0". */
  lemma NumberCanLandInAFolder(device: string, utc: string)
    requires '/' !in device && '.' !in device && '/' !in utc && '.' !in utc
    ensures var copy := ConflictCopyPath("v1.0/notes", device, utc);
            Folder(copy) == "v1.0/" && Folder(Numbered(copy, 2)) == "v1 2.0/"
  {
    NumberBreaksFolder("v1", ".0/", "notes", device, utc);
    PartsOfTheExample();
  }

  lemma PartsOfTheExample()
    ensures "v1" + ".0/" == "v1.0/" && "v1.0/" + "notes" == "v1.0/notes" && "v1" + " 2" + ".0/" == "v1 2.0/"
  {}
}
