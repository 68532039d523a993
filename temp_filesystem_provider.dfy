/**
 * The `builder:` file-system provider of src/lib/temp-filesystem-provider.ts:
 * every `builder:` URI is served from a sandbox directory under the user's
 * home, `~/.vscode-course-builder-temp`, on the disk modelled by `NodeFs`.
 */
module TempFs {
  import opened Wrappers
  import opened Paths
  import opened NodeFs
  import Strings

  /** `TEMP_SCHEME` of src/config.ts. */
  const TempScheme: string := "builder"

  /** A `vscode.Uri`, reduced to the two parts the provider reads. */
  datatype Uri = Uri(scheme: string, path: string)

  datatype FileChangeType = Changed | Created | Deleted

  /** One `vscode.FileChangeEvent`. */
  datatype FileChangeEvent = FileChangeEvent(kind: FileChangeType, uri: Uri)

  datatype FileType = File | Directory

  /** A `vscode.FileStat`; the timestamps are not modelled. */
  datatype FileStat = FileStat(kind: FileType, size: nat)

  /**
   * What a provider method throws: one of the three `vscode.FileSystemError`s
   * it constructs, or a Node error passed on as it is.
   */
  datatype Thrown =
    | FileNotFound(uri: Uri)
    | FileExists(uri: Uri)
    | Unavailable(uri: Uri)
    | SystemError(code: Errno)

  /**
   * The `catch` blocks of `stat` and `delete`: only a Node error whose code is
   * ENOENT becomes FileNotFound; everything else, the provider's own
   * FileNotFound from the sandbox guard included, becomes Unavailable.
   */
  function ToFileSystemError(e: Thrown, uri: Uri): (r: Thrown)
    ensures r == FileNotFound(uri) <==> e == SystemError(ENOENT)
    ensures r != FileNotFound(uri) ==> r == Unavailable(uri)
  {
    if e == SystemError(ENOENT) then FileNotFound(uri) else Unavailable(uri)
  }

  /** `ensureBaseDir` on a disk: create the sandbox, with its ancestors, unless it exists. */
  function EnsureDir(d: Disk, base: Path): (r: Result<Disk, Errno>)
    ensures r.Success? <==> Exists(d, base) || forall k :: 0 <= k <= |base| ==> base[..k] !in d.files
    ensures r.Success? ==> Exists(r.value, base) && r.value.files == d.files
    ensures r.Success? && !Exists(d, base) ==> r.value.dirs == d.dirs + Prefixes(base)
    ensures r.Failure? ==> r.error != ENOENT
  {
    if ExistsSync(d, base) then Success(d)
    else
      assert base[..|base|] == base;
      MkdirRecursive(d, base)
  }

  lemma EnsureDirKeepsTree(d: Disk, base: Path)
    requires IsTree(d) && EnsureDir(d, base).Success?
    ensures IsTree(EnsureDir(d, base).value)
  {
    if !ExistsSync(d, base) {
      MkdirRecursiveKeepsTree(d, base);
    }
  }

  /** The temporary sibling shares every proper ancestor with the path, so a lookup fails the same way. */
  lemma MissingErrorSibling(d: Disk, p: Path)
    requires p != []
    ensures MissingError(d, TempSibling(p)) == MissingError(d, p)
  {
    var t := TempSibling(p);
    forall k | 0 <= k < |p| ensures t[..k] == p[..k] {
      assert t[..k] == t[..|t| - 1][..k];
      assert p[..k] == p[..|p| - 1][..k];
    }
    if exists k :: 0 <= k < |p| && p[..k] in d.files {
      var k :| 0 <= k < |p| && p[..k] in d.files;
      assert t[..k] in d.files;
    }
    if exists k :: 0 <= k < |t| && t[..k] in d.files {
      var k :| 0 <= k < |t| && t[..k] in d.files;
      assert p[..k] in d.files;
    }
  }

  /** Once the sandbox directory is gone, creating it again cannot fail. */
  lemma RecreateBase(d: Disk, base: Path)
    requires IsTree(d) && base != [] && base in d.dirs
    ensures MkdirRecursive(RemoveSubtree(d, base), base).Success?
    ensures forall k :: 0 <= k < |base| ==> base[..k] in d.dirs
  {
    var r := RemoveSubtree(d, base);
    forall k | 0 <= k < |base| ensures base[..k] in d.dirs {
      AncestorsAreDirs(d, base, k);
    }
    forall k | 0 <= k <= |base| ensures base[..k] !in r.files {
      if k < |base| {
        assert !(base <= base[..k]);
        assert Same(d, r, base[..k]);
      } else {
        assert base[..k] == base;
      }
    }
  }

  /**
   * The `catch` block of `writeFile`: the `.tmp` sibling is unlinked if it is
   * there, and a Node ENOENT becomes FileNotFound unless the caller asked
   * for creation.
   */
  function WriteRecover(d: Disk, tmp: Path, thrown: Thrown, uri: Uri, create: bool): (res: (Outcome<Thrown>, Disk))
    ensures res.1.dirs == d.dirs && res.1.files == d.files - {tmp}
    ensures res.0.Fail? && (res.0.error == FileNotFound(uri) <==> thrown == FileNotFound(uri) || (thrown == SystemError(ENOENT) && !create))
    ensures res.0.error != FileNotFound(uri) ==> res.0.error == thrown
  {
    var left := if UnlinkSync(d, tmp).Success? then UnlinkSync(d, tmp).value else d;
    (Fail(if thrown == SystemError(ENOENT) && !create then FileNotFound(uri) else thrown), left)
  }

  /**
   * The disk steps of `writeFile` once the guard has admitted `p`: write the
   * `.tmp` sibling, refuse an existing target unless both create and
   * overwrite are set, rename the sibling over the target, and recover on
   * any failure. The result is the outcome and the disk left behind: no
   * directory changes, and no path but the target and its sibling.
   */
  function WriteSteps(d: Disk, p: Path, uri: Uri, content: Bytes, create: bool, overwrite: bool): (res: (Outcome<Thrown>, Disk))
    requires IsTree(d) && p != []
    ensures res.1.dirs == d.dirs
    ensures forall q :: q != p && q != TempSibling(p) ==> Same(d, res.1, q)
  {
    var tmp := TempSibling(p);
    var written := WriteFileSync(d, tmp, content);
    if written.Failure? then WriteRecover(d, tmp, SystemError(written.error), uri, create)
    else
      var d1 := written.value;
      WriteFileSyncKeepsTree(d, tmp, content);
      if (!create || !overwrite) && ExistsSync(d1, p) then
        WriteRecover(UnlinkSync(d1, tmp).value, tmp, FileExists(uri), uri, create)
      else
        var moved := RenameSync(d1, tmp, p);
        if moved.Success? then (Pass, moved.value)
        else WriteRecover(d1, tmp, SystemError(moved.error), uri, create)
  }

  /** Writing keeps the disk a tree. */
  lemma WriteStepsKeepsTree(d: Disk, p: Path, uri: Uri, content: Bytes, create: bool, overwrite: bool)
    requires IsTree(d) && p != []
    ensures IsTree(WriteSteps(d, p, uri, content, create, overwrite).1)
  {
    var tmp := TempSibling(p);
    var written := WriteFileSync(d, tmp, content);
    if written.Success? {
      var d1 := written.value;
      WriteFileSyncKeepsTree(d, tmp, content);
      if UnlinkSync(d1, tmp).Success? {
        UnlinkSyncKeepsTree(d1, tmp);
      }
      var moved := RenameSync(d1, tmp, p);
      if moved.Success? {
        RenameSyncKeepsTree(d1, tmp, p);
      }
    }
  }

  /**
   * When a write succeeds: the target is a directory-free path in an existing
   * directory, and either it was absent or both create and overwrite were
   * set. The target then holds exactly the new content, the `.tmp` sibling
   * is gone and no directory changed.
   */
  lemma WriteStepsPass(d: Disk, p: Path, uri: Uri, content: Bytes, create: bool, overwrite: bool)
    requires IsTree(d) && p != []
    ensures var (r, d') := WriteSteps(d, p, uri, content, create, overwrite);
            var tmp := TempSibling(p);
            && (r == Pass <==> Parent(p) in d.dirs && tmp !in d.dirs && p !in d.dirs && (!Exists(d, p) || (create && overwrite)))
            && (r == Pass ==> d'.files == (d.files - {tmp})[p := content] && d'.dirs == d.dirs)
  {
    var tmp := TempSibling(p);
    assert Parent(tmp) == Parent(p);
    var written := WriteFileSync(d, tmp, content);
    if written.Success? {
      var d1 := written.value;
      WriteFileSyncKeepsTree(d, tmp, content);
      if !((!create || !overwrite) && ExistsSync(d1, p)) {
        var moved := RenameSync(d1, tmp, p);
        assert Exists(d1, tmp);
        if moved.Success? {
          assert p !in d1.dirs;
          assert d1.files[tmp] == content;
        }
      }
    }
  }

  /**
   * When a write fails, the `.tmp` sibling is gone and nothing else changed,
   * and the error says why: a directory in the way of the sibling or the
   * target, a missing parent (FileNotFound when no creation was asked for),
   * or FileExists for a target the flags do not let it replace.
   */
  lemma WriteStepsFail(d: Disk, p: Path, uri: Uri, content: Bytes, create: bool, overwrite: bool)
    requires IsTree(d) && p != []
    ensures var (r, d') := WriteSteps(d, p, uri, content, create, overwrite);
            var tmp := TempSibling(p);
            && (r.Fail? ==> d'.dirs == d.dirs && d'.files == d.files - {tmp})
            && (tmp in d.dirs ==> r == Fail(SystemError(EISDIR)))
            && (Parent(p) !in d.dirs && tmp !in d.dirs ==>
                  r == Fail(if MissingError(d, p) == ENOENT && !create then FileNotFound(uri)
                            else SystemError(MissingError(d, p))))
            && (Parent(p) in d.dirs && tmp !in d.dirs && Exists(d, p) && !(create && overwrite) ==>
                  r == Fail(FileExists(uri)))
            && (Parent(p) in d.dirs && tmp !in d.dirs && p in d.dirs && create && overwrite ==>
                  r == Fail(SystemError(EISDIR)))
  {
    var tmp := TempSibling(p);
    assert Parent(tmp) == Parent(p);
    MissingErrorSibling(d, p);
    var written := WriteFileSync(d, tmp, content);
    if written.Success? {
      var d1 := written.value;
      WriteFileSyncKeepsTree(d, tmp, content);
      assert d1.files - {tmp} == d.files - {tmp};
      if !((!create || !overwrite) && ExistsSync(d1, p)) {
        var moved := RenameSync(d1, tmp, p);
        assert Exists(d1, tmp);
        if moved.Failure? {
          assert tmp in d1.files;
        }
      }
    }
  }

  /**
   * The URI path `/.` resolves to the sandbox itself, with no trailing
   * separator, so both guards admit it and name the sandbox directory.
   */
  lemma DotUriIsSandbox(base: Path)
    requires IsNormal(base)
    ensures GetFilePath(base, "/.") == Some(base)
    ensures GetFilePathAsWritten(base, "/.") == Some(base)
  {
    assert Split("/.") == ["", "."] by {
      assert "/." == "" + "/" + ".";
      SplitAround("", ".");
      assert "."[0] == '.' && "."[1..] == "" && Split("") == [""];
      assert ['.'] + "" == ".";
      assert Split(".") == ["."];
    }
    assert Resolve(base, ["", "."]) == base by {
      ResolveSkip(base, ["."]);
      assert Resolve(base, ["."]) == Resolve(base, []);
    }
    assert Strings.StartsWith(Render(base), Render(base));
  }

  /**
   * `writeFile` as written, on `builder:/.`: both guards admit the sandbox
   * itself, whose `.tmp` sibling lies outside it. A file already at that
   * sibling is overwritten and then unlinked, and the write fails anyway.
   */
  lemma WriteOnSandboxRemovesOutsideFile(home: string, d: Disk, content: Bytes, create: bool, overwrite: bool)
    requires IsTree(d) && BaseDir(home) in d.dirs && TempSibling(BaseDir(home)) in d.files
    ensures var base := BaseDir(home);
            var tmp := TempSibling(base);
            var (r, d') := WriteSteps(d, base, Uri(TempScheme, "/."), content, create, overwrite);
            && GetFilePathAsWritten(base, "/.") == Some(base)
            && !(base <= tmp)
            && r.Fail?
            && tmp !in d'.files
  {
    var base := BaseDir(home);
    var tmp := TempSibling(base);
    DotUriIsSandbox(base);
    assert tmp[|base| - 1] != base[|base| - 1];
    assert !(base <= tmp) && !(tmp <= base);
    AncestorsAreDirs(d, base, |base| - 1);
    WriteStepsPass(d, base, Uri(TempScheme, "/."), content, create, overwrite);
  }

  /**
   * `TempFileSystemProvider`: the sandbox directory it serves, the disk it
   * reads and writes, and the change events its emitter has fired.
   */
  class TempFileSystemProvider {
    /** `_baseDir`, normalized. */
    const baseDir: Path
    /** The disk the provider works on. */
    var disk: Disk
    /** The events `_emitter.fire` has delivered, oldest first; each call fires a batch of one. */
    var fired: seq<FileChangeEvent>

    ghost predicate Valid()
      reads this
    {
      IsNormal(baseDir) && baseDir != [] && IsTree(disk)
    }

    /** The sandbox path a URI is served from, or None when the guard refuses it. */
    function Target(uri: Uri): (r: Option<Path>)
      reads this
      requires Valid()
      ensures r.Some? ==> baseDir <= r.value && r.value != []
      ensures r == GetFilePath(baseDir, uri.path)
    {
      GetFilePath(baseDir, uri.path)
    }

    /**
     * The constructor: the sandbox is `BaseDir(home)`, created by
     * `ensureBaseDir` if missing. A constructor that throws is not modelled,
     * so the caller's disk must let that succeed.
     */
    constructor (home: string, disk0: Disk)
      requires IsTree(disk0)
      requires EnsureDir(disk0, BaseDir(home)).Success?
      ensures Valid() && baseDir == BaseDir(home) && fired == []
      ensures disk == EnsureDir(disk0, BaseDir(home)).value
    {
      baseDir := BaseDir(home);
      disk := disk0;
      fired := [];
      new;
      var ensured := EnsureBaseDir();
    }

    /** `ensureBaseDir`. */
    method EnsureBaseDir() returns (r: Outcome<Errno>)
      requires Valid()
      modifies this`disk
      ensures Valid()
      ensures var e := EnsureDir(old(disk), baseDir);
              && (e.Success? ==> r == Pass && disk == e.value)
              && (e.Failure? ==> r == Fail(e.error) && disk == old(disk))
    {
      if !ExistsSync(disk, baseDir) {
        var m := MkdirRecursive(disk, baseDir);
        if m.Failure? {
          return Fail(m.error);
        }
        MkdirRecursiveKeepsTree(disk, baseDir);
        disk := m.value;
      }
      return Pass;
    }

    /**
     * `stat`: makes sure the sandbox exists, then reports the entry. Every
     * failure but a missing entry reads as Unavailable, a refused URI included.
     */
    method Stat(uri: Uri) returns (r: Result<FileStat, Thrown>)
      requires Valid()
      modifies this`disk
      ensures Valid()
      ensures var e := EnsureDir(old(disk), baseDir);
              && disk == (if e.Success? then e.value else old(disk))
              && (e.Failure? ==> r == Failure(Unavailable(uri)))
              && (e.Success? && Target(uri).None? ==> r == Failure(Unavailable(uri)))
      ensures EnsureDir(old(disk), baseDir).Success? && Target(uri).Some? ==>
              var p := Target(uri).value;
              && (p in disk.files ==> r == Success(FileStat(File, |disk.files[p]|)))
              && (p in disk.dirs ==> r == Success(FileStat(Directory, 0)))
              && (!Exists(disk, p) ==>
                    r == Failure(if MissingError(disk, p) == ENOENT then FileNotFound(uri) else Unavailable(uri)))
    {
      var ensured := EnsureBaseDir();
      if ensured.Fail? {
        return Failure(ToFileSystemError(SystemError(ensured.error), uri));
      }
      var target := GetFilePath(baseDir, uri.path);
      if target.None? {
        return Failure(ToFileSystemError(FileNotFound(uri), uri));
      }
      var s := StatSync(disk, target.value);
      if s.Failure? {
        return Failure(ToFileSystemError(SystemError(s.error), uri));
      }
      if s.value.RegularFile? {
        return Success(FileStat(File, s.value.size));
      }
      return Success(FileStat(Directory, 0));
    }

    /** `readDirectory`: each name in the directory, typed by a stat of the entry. */
    method ReadDirectory(uri: Uri) returns (r: Result<set<(string, FileType)>, Thrown>)
      requires Valid()
      ensures Target(uri).None? ==> r == Failure(FileNotFound(uri))
      ensures Target(uri).Some? ==>
              var p := Target(uri).value;
              && (r.Success? <==> p in disk.dirs)
              && (p in disk.files ==> r == Failure(SystemError(ENOTDIR)))
              && (!Exists(disk, p) ==> r == Failure(SystemError(MissingError(disk, p))))
      ensures r.Success? ==> forall name, kind ::
                (name, kind) in r.value <==>
                (if kind == Directory then Target(uri).value + [name] in disk.dirs
                 else Target(uri).value + [name] in disk.files)
    {
      var target := GetFilePath(baseDir, uri.path);
      if target.None? {
        return Failure(FileNotFound(uri));
      }
      var p := target.value;
      var names := ReaddirSync(disk, p);
      if names.Failure? {
        return Failure(SystemError(names.error));
      }
      var entries := set name | name in names.value ::
        (name, if StatSync(disk, p + [name]) == Success(Dir) then Directory else File);
      forall name, kind
        ensures (name, kind) in entries <==>
                (if kind == Directory then p + [name] in disk.dirs else p + [name] in disk.files)
      {
        NamesExact(disk, p, name);
      }
      return Success(entries);
    }

    /** `createDirectory`: `mkdir -p` inside the sandbox; fires no event. */
    method CreateDirectory(uri: Uri) returns (r: Outcome<Thrown>)
      requires Valid()
      modifies this`disk
      ensures Valid()
      ensures Target(uri).None? ==> r == Fail(FileNotFound(uri)) && disk == old(disk)
      ensures Target(uri).Some? ==>
              var p := Target(uri).value;
              && (r == Pass <==> forall k :: 0 <= k <= |p| ==> p[..k] !in old(disk).files)
              && (r == Pass ==> disk.files == old(disk).files && disk.dirs == old(disk).dirs + Prefixes(p))
              && (r.Fail? ==> disk == old(disk) && r.error.SystemError? && r.error.code != ENOENT)
    {
      var target := GetFilePath(baseDir, uri.path);
      if target.None? {
        return Fail(FileNotFound(uri));
      }
      var m := MkdirRecursive(disk, target.value);
      if m.Failure? {
        return Fail(SystemError(m.error));
      }
      MkdirRecursiveKeepsTree(disk, target.value);
      disk := m.value;
      return Pass;
    }

    /** `readFile`. */
    method ReadFile(uri: Uri) returns (r: Result<Bytes, Thrown>)
      requires Valid()
      ensures Target(uri).None? ==> r == Failure(FileNotFound(uri))
      ensures Target(uri).Some? ==>
              var p := Target(uri).value;
              && (r.Success? <==> p in disk.files)
              && (r.Success? ==> r.value == disk.files[p])
              && (p in disk.dirs ==> r == Failure(SystemError(EISDIR)))
              && (!Exists(disk, p) ==> r == Failure(SystemError(MissingError(disk, p))))
    {
      var target := GetFilePath(baseDir, uri.path);
      if target.None? {
        return Failure(FileNotFound(uri));
      }
      var content := ReadFileSync(disk, target.value);
      if content.Failure? {
        return Failure(SystemError(content.error));
      }
      return Success(content.value);
    }

    /**
     * `writeFile`: the content goes to the `.tmp` sibling first, which is then
     * renamed over the target, as `WriteSteps` describes; only a write that
     * succeeds fires Changed. The sandbox itself is refused like a path
     * outside it, because its `.tmp` sibling lies outside the sandbox; so the
     * write changes nothing outside the sandbox.
     */
    method WriteFile(uri: Uri, content: Bytes, create: bool, overwrite: bool) returns (r: Outcome<Thrown>)
      requires Valid()
      modifies this
      ensures Valid()
      ensures Target(uri).None? || Target(uri) == Some(baseDir) ==>
              r == Fail(FileNotFound(uri)) && disk == old(disk) && fired == old(fired)
      ensures Target(uri).Some? && Target(uri).value != baseDir ==>
              (r, disk) == WriteSteps(old(disk), Target(uri).value, uri, content, create, overwrite)
      ensures fired == old(fired) + (if r == Pass then [FileChangeEvent(Changed, uri)] else [])
      ensures forall q :: !(baseDir <= q) ==> Same(old(disk), disk, q)
    {
      var target := GetFilePath(baseDir, uri.path);
      if target.None? || target.value == baseDir {
        return Fail(FileNotFound(uri));
      }
      var filePath := target.value;
      assert baseDir <= TempSibling(filePath) by {
        assert baseDir <= Parent(filePath);
      }
      var tempPath := TempSibling(filePath);
      ghost var d0 := disk;
      WriteStepsKeepsTree(d0, filePath, uri, content, create, overwrite);
      var thrown: Thrown;
      var written := WriteFileSync(disk, tempPath, content);
      if written.Failure? {
        thrown := SystemError(written.error);
      } else {
        WriteFileSyncKeepsTree(disk, tempPath, content);
        disk := written.value;
        if (!create || !overwrite) && ExistsSync(disk, filePath) {
          disk := UnlinkSync(disk, tempPath).value;
          thrown := FileExists(uri);
        } else {
          var moved := RenameSync(disk, tempPath, filePath);
          if moved.Success? {
            disk := moved.value;
            fired := fired + [FileChangeEvent(Changed, uri)];
            return Pass;
          }
          thrown := SystemError(moved.error);
        }
      }
      // catch: remove the temporary file if it is there
      var cleanup := UnlinkSync(disk, tempPath);
      if cleanup.Success? {
        disk := cleanup.value;
      }
      if thrown == SystemError(ENOENT) && !create {
        return Fail(FileNotFound(uri));
      }
      return Fail(thrown);
    }

    /**
     * `delete`: a recursive delete removes the whole subtree and forgives a
     * missing path; otherwise only a regular file can be unlinked. Success
     * fires Deleted. The guard runs before the `try`, so a refused URI is
     * FileNotFound; Node's failures pass through the same mapping as in `stat`.
     */
    method Delete(uri: Uri, recursive: bool) returns (r: Outcome<Thrown>)
      requires Valid()
      modifies this
      ensures Valid()
      ensures r.Fail? ==> disk == old(disk) && fired == old(fired)
      ensures r == Pass ==> fired == old(fired) + [FileChangeEvent(Deleted, uri)]
      ensures Target(uri).None? ==> r == Fail(FileNotFound(uri))
      ensures Target(uri).Some? && recursive ==>
              var p := Target(uri).value;
              && (r == Pass <==> Exists(old(disk), p) || MissingError(old(disk), p) == ENOENT)
              && (r.Fail? ==> r == Fail(Unavailable(uri)))
              && (r == Pass ==> forall q :: p <= q ==> !Exists(disk, q))
              && (r == Pass ==> forall q :: !(p <= q) ==> Same(old(disk), disk, q))
      ensures Target(uri).Some? && !recursive ==>
              var p := Target(uri).value;
              && (r == Pass <==> p in old(disk).files)
              && (r == Pass ==> disk.files == old(disk).files - {p} && disk.dirs == old(disk).dirs)
              && (p in old(disk).dirs ==> r == Fail(Unavailable(uri)))
              && (!Exists(old(disk), p) ==>
                    r == Fail(if MissingError(old(disk), p) == ENOENT then FileNotFound(uri) else Unavailable(uri)))
    {
      var target := GetFilePath(baseDir, uri.path);
      if target.None? {
        return Fail(FileNotFound(uri));
      }
      var p := target.value;
      if recursive {
        var removed := RmRecursiveForce(disk, p);
        if removed.Failure? {
          return Fail(ToFileSystemError(SystemError(removed.error), uri));
        }
        RmRecursiveForceKeepsTree(disk, p);
        forall q | p < q && Exists(disk, q) ensures p in disk.dirs {
          NothingBelow(disk, p, q);
        }
        forall q | p <= q ensures !Exists(removed.value, q) {
          if Exists(disk, p) {
            assert removed.value == RemoveSubtree(disk, p);
          } else {
            assert removed.value == disk;
            assert q == p || p < q;
          }
        }
        disk := removed.value;
      } else {
        var unlinked := UnlinkSync(disk, p);
        if unlinked.Failure? {
          return Fail(ToFileSystemError(SystemError(unlinked.error), uri));
        }
        UnlinkSyncKeepsTree(disk, p);
        disk := unlinked.value;
      }
      fired := fired + [FileChangeEvent(Deleted, uri)];
      return Pass;
    }

    /** `rename`: both URIs must pass the guard; Node's rename does the rest; fires no event. */
    method Rename(oldUri: Uri, newUri: Uri) returns (r: Outcome<Thrown>)
      requires Valid()
      modifies this`disk
      ensures Valid()
      ensures Target(oldUri).None? ==> r == Fail(FileNotFound(oldUri)) && disk == old(disk)
      ensures Target(oldUri).Some? && Target(newUri).None? ==> r == Fail(FileNotFound(newUri)) && disk == old(disk)
      ensures Target(oldUri).Some? && Target(newUri).Some? ==>
              var m := RenameSync(old(disk), Target(oldUri).value, Target(newUri).value);
              && (m.Success? ==> r == Pass && disk == m.value)
              && (m.Failure? ==> r == Fail(SystemError(m.error)) && disk == old(disk))
    {
      var oldTarget := GetFilePath(baseDir, oldUri.path);
      if oldTarget.None? {
        return Fail(FileNotFound(oldUri));
      }
      var newTarget := GetFilePath(baseDir, newUri.path);
      if newTarget.None? {
        return Fail(FileNotFound(newUri));
      }
      var moved := RenameSync(disk, oldTarget.value, newTarget.value);
      if moved.Failure? {
        return Fail(SystemError(moved.error));
      }
      RenameSyncKeepsTree(disk, oldTarget.value, newTarget.value);
      disk := moved.value;
      return Pass;
    }

    /**
     * `clearAll`: removes the sandbox directory with everything in it, creates
     * it again, and fires Deleted for the root `builder:/`.
     */
    method ClearAll() returns (r: Outcome<Thrown>)
      requires Valid()
      modifies this
      ensures Valid()
      ensures r == Pass <==> baseDir in old(disk).dirs
      ensures r == Pass ==>
              && baseDir in disk.dirs
              && (forall q :: baseDir < q ==> !Exists(disk, q))
              && (forall q :: !(baseDir <= q) ==> Same(old(disk), disk, q))
              && fired == old(fired) + [FileChangeEvent(Deleted, Uri(TempScheme, "/"))]
      ensures r.Fail? ==>
              && disk == old(disk) && fired == old(fired)
              && r == Fail(SystemError(if baseDir in old(disk).files then ENOTDIR else MissingError(old(disk), baseDir)))
    {
      var removed := RmdirRecursive(disk, baseDir);
      if removed.Failure? {
        return Fail(SystemError(removed.error));
      }
      RmdirRecursiveKeepsTree(disk, baseDir);
      RecreateBase(disk, baseDir);
      ghost var d0 := disk;
      disk := removed.value;
      var created := MkdirRecursive(disk, baseDir);
      MkdirRecursiveKeepsTree(disk, baseDir);
      assert baseDir[..|baseDir|] == baseDir;
      forall q | !(baseDir <= q) ensures Same(d0, created.value, q) {
        if q in Prefixes(baseDir) {
          assert q <= baseDir && q != baseDir;
          assert q == baseDir[..|q|];
        }
      }
      forall q | baseDir < q ensures !Exists(created.value, q) {
        assert q !in Prefixes(baseDir);
      }
      disk := created.value;
      fired := fired + [FileChangeEvent(Deleted, Uri(TempScheme, "/"))];
      return Pass;
    }
  }

  /**
   * A client of the provider: write a file, then read it back. A write that
   * succeeds leaves exactly the new bytes under the path, no `.tmp` sibling,
   * and one Changed event for the URI.
   */
  method WriteThenRead(fs: TempFileSystemProvider, uri: Uri, content: Bytes, create: bool, overwrite: bool)
    returns (written: Outcome<Thrown>, read: Result<Bytes, Thrown>)
    requires fs.Valid()
    modifies fs
    ensures fs.Valid()
    ensures written == Pass ==>
            && fs.Target(uri).Some? && fs.Target(uri).value != fs.baseDir
            && read == Success(content)
            && !Exists(fs.disk, TempSibling(fs.Target(uri).value))
            && fs.fired == old(fs.fired) + [FileChangeEvent(Changed, uri)]
  {
    ghost var d0 := fs.disk;
    written := fs.WriteFile(uri, content, create, overwrite);
    if written == Pass {
      WriteStepsPass(d0, fs.Target(uri).value, uri, content, create, overwrite);
    }
    read := fs.ReadFile(uri);
  }
}
