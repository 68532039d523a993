/**
 * The part of Node's `fs` module the provider calls, on a disk kept as a map
 * from paths to file contents and a set of directories. Each call is a pure
 * function from the disk before to the disk after or an error code, with the
 * codes Linux reports.
 */
module NodeFs {
  import opened Wrappers
  import opened Paths

  newtype Byte = b: int | 0 <= b < 256
  type Bytes = seq<Byte>

  /** The `code` of the errors Node's `fs` calls throw. */
  datatype Errno = ENOENT | ENOTDIR | EISDIR | EEXIST | ENOTEMPTY | EINVAL

  datatype Disk = Disk(files: map<Path, Bytes>, dirs: set<Path>)

  /** What `fs.statSync` reports: a regular file with its size, or a directory. */
  datatype Entry = RegularFile(size: nat) | Dir

  function Parent(p: Path): Path
    requires p != []
  {
    p[..|p| - 1]
  }

  predicate Exists(d: Disk, p: Path) {
    p in d.files || p in d.dirs
  }

  /** A disk as it is: a tree of directories rooted at `/` with regular files as leaves. */
  ghost predicate IsTree(d: Disk) {
    && [] in d.dirs
    && d.files.Keys !! d.dirs
    && (forall q :: q in d.files ==> q != [] && Parent(q) in d.dirs)
    && (forall q :: q in d.dirs && q != [] ==> Parent(q) in d.dirs)
  }

  /** Path `q` is the same entry, with the same contents, on both disks. */
  ghost predicate Same(d0: Disk, d1: Disk, q: Path) {
    && (q in d0.files <==> q in d1.files)
    && (q in d0.files ==> d0.files[q] == d1.files[q])
    && (q in d0.dirs <==> q in d1.dirs)
  }

  /** A path whose lookup fails: ENOTDIR when one of its ancestors is a regular file, else ENOENT. */
  function MissingError(d: Disk, p: Path): (e: Errno)
    ensures e == ENOENT || e == ENOTDIR
  {
    if exists k :: 0 <= k < |p| && p[..k] in d.files then ENOTDIR else ENOENT
  }

  /** Every proper ancestor of an entry is a directory. */
  lemma {:induction false} AncestorsAreDirs(d: Disk, q: Path, k: nat)
    requires IsTree(d) && Exists(d, q) && k < |q|
    ensures q[..k] in d.dirs
    decreases |q|
  {
    var up := Parent(q);
    assert up in d.dirs;
    if k < |up| {
      AncestorsAreDirs(d, up, k);
      assert up[..k] == q[..k];
    }
  }

  /** Nothing lies below a regular file or below a path that does not exist. */
  lemma NothingBelow(d: Disk, p: Path, q: Path)
    requires IsTree(d) && p < q && Exists(d, q)
    ensures p in d.dirs
  {
    AncestorsAreDirs(d, q, |p|);
    assert q[..|p|] == p;
  }

  /** Below a regular file there is only the file itself. */
  lemma OnlyItselfBelowFile(d: Disk, a: Path, q: Path)
    requires IsTree(d) && a in d.files && Exists(d, q) && a <= q
    ensures q == a
  {
    if q != a {
      NothingBelow(d, a, q);
      assert false;
    }
  }

  // ---------------------------------------------------------------------------
  // The calls

  /** `fs.existsSync`: true exactly when `fs.statSync` would succeed. */
  predicate ExistsSync(d: Disk, p: Path)
    ensures IsTree(d) ==> (ExistsSync(d, p) <==> StatSync(d, p).Success?)
  {
    Exists(d, p)
  }

  /** `fs.statSync`. */
  function StatSync(d: Disk, p: Path): (r: Result<Entry, Errno>)
    requires IsTree(d)
    ensures r.Success? <==> Exists(d, p)
    ensures r == Success(Dir) <==> p in d.dirs
    ensures r.Success? && r.value.RegularFile? ==> p in d.files && r.value.size == |d.files[p]|
    ensures r.Failure? ==> r.error == MissingError(d, p)
  {
    if p in d.files then Success(RegularFile(|d.files[p]|))
    else if p in d.dirs then Success(Dir)
    else Failure(MissingError(d, p))
  }

  /** `fs.readFileSync`. */
  function ReadFileSync(d: Disk, p: Path): (r: Result<Bytes, Errno>)
    ensures r.Success? <==> p in d.files
    ensures r.Success? ==> r.value == d.files[p]
    ensures r.Failure? && p in d.dirs ==> r.error == EISDIR
    ensures r.Failure? && p !in d.dirs ==> r.error == MissingError(d, p)
  {
    if p in d.files then Success(d.files[p])
    else if p in d.dirs then Failure(EISDIR)
    else Failure(MissingError(d, p))
  }

  /** `fs.writeFileSync`: creates or truncates a regular file in an existing directory. */
  function WriteFileSync(d: Disk, p: Path, content: Bytes): (r: Result<Disk, Errno>)
    ensures r.Success? <==> p !in d.dirs && p != [] && Parent(p) in d.dirs
    ensures r.Success? ==> r.value.dirs == d.dirs && r.value.files == d.files[p := content]
    ensures r.Failure? && p in d.dirs ==> r.error == EISDIR
    ensures r.Failure? && p !in d.dirs ==> r.error == MissingError(d, p)
  {
    if p in d.dirs then Failure(EISDIR)
    else if p != [] && Parent(p) in d.dirs then Success(d.(files := d.files[p := content]))
    else Failure(MissingError(d, p))
  }

  /** `fs.unlinkSync`: removes a regular file; a directory gives EISDIR, as on Linux. */
  function UnlinkSync(d: Disk, p: Path): (r: Result<Disk, Errno>)
    ensures r.Success? <==> p in d.files
    ensures r.Success? ==> r.value.dirs == d.dirs && r.value.files == d.files - {p}
    ensures r.Failure? && p in d.dirs ==> r.error == EISDIR
    ensures r.Failure? && p !in d.dirs ==> r.error == MissingError(d, p)
  {
    if p in d.files then Success(d.(files := d.files - {p}))
    else if p in d.dirs then Failure(EISDIR)
    else Failure(MissingError(d, p))
  }

  /** The path and all its ancestors, the root included. */
  function Prefixes(p: Path): (s: set<Path>)
    ensures forall k :: 0 <= k <= |p| ==> p[..k] in s
    ensures forall q :: q in s ==> q <= p
  {
    set k | 0 <= k <= |p| :: p[..k]
  }

  /** `fs.mkdirSync(p, { recursive: true })`. */
  function MkdirRecursive(d: Disk, p: Path): (r: Result<Disk, Errno>)
    ensures r.Success? <==> forall k :: 0 <= k <= |p| ==> p[..k] !in d.files
    ensures r.Success? ==> r.value.files == d.files && r.value.dirs == d.dirs + Prefixes(p)
    ensures r.Failure? ==> r.error != ENOENT
  {
    if p in d.files then assert p[..|p|] == p; Failure(EEXIST)
    else if exists k :: 0 <= k < |p| && p[..k] in d.files then Failure(ENOTDIR)
    else
      assert forall k :: 0 <= k <= |p| ==> p[..k] !in d.files by {
        forall k | 0 <= k <= |p| ensures p[..k] !in d.files {
          if k == |p| { assert p[..k] == p; }
        }
      }
      Success(d.(dirs := d.dirs + Prefixes(p)))
  }

  /** The disk without `root` and everything below it. */
  function RemoveSubtree(d: Disk, root: Path): (r: Disk)
    ensures forall q :: Exists(r, q) ==> !(root <= q)
    ensures forall q :: !(root <= q) ==> Same(d, r, q)
  {
    Disk(map q | q in d.files && !(root <= q) :: d.files[q], set q | q in d.dirs && !(root <= q))
  }

  /** `fs.rmSync(p, { recursive: true, force: true })`: only a missing path is forgiven. */
  function RmRecursiveForce(d: Disk, p: Path): (r: Result<Disk, Errno>)
    ensures r.Success? <==> Exists(d, p) || MissingError(d, p) == ENOENT
    ensures r.Success? ==> r.value == RemoveSubtree(d, p) || r.value == d
    ensures r.Failure? ==> r.error == ENOTDIR
  {
    if Exists(d, p) then Success(RemoveSubtree(d, p))
    else if MissingError(d, p) == ENOENT then Success(d)
    else Failure(ENOTDIR)
  }

  /** `fs.rmdirSync(p, { recursive: true })`, which since Node 16 refuses a missing path or a file. */
  function RmdirRecursive(d: Disk, p: Path): (r: Result<Disk, Errno>)
    ensures r.Success? <==> p in d.dirs
    ensures r.Success? ==> r.value == RemoveSubtree(d, p)
    ensures r.Failure? && p in d.files ==> r.error == ENOTDIR
    ensures r.Failure? && p !in d.files ==> r.error == MissingError(d, p)
  {
    if p in d.dirs then Success(RemoveSubtree(d, p))
    else if p in d.files then Failure(ENOTDIR)
    else Failure(MissingError(d, p))
  }

  /** The names of the entries directly inside `p`. */
  function Names(d: Disk, p: Path): set<string>
  {
    (set q | q in d.files && |q| == |p| + 1 && p <= q :: q[|p|]) +
    (set q | q in d.dirs && |q| == |p| + 1 && p <= q :: q[|p|])
  }

  /** A name is listed exactly when the path one name below `p` exists. */
  lemma NamesExact(d: Disk, p: Path, name: string)
    ensures name in Names(d, p) <==> Exists(d, p + [name])
  {
    var q := p + [name];
    assert q[|p|] == name && p <= q && |q| == |p| + 1;
    if name in Names(d, p) {
      var q' :| (q' in d.files || q' in d.dirs) && |q'| == |p| + 1 && p <= q' && q'[|p|] == name;
      assert q' == p + [q'[|p|]];
    }
  }

  /** `fs.readdirSync`. */
  function ReaddirSync(d: Disk, p: Path): (r: Result<set<string>, Errno>)
    ensures r.Success? <==> p in d.dirs
    ensures r.Success? ==> r.value == Names(d, p)
    ensures r.Failure? && p in d.files ==> r.error == ENOTDIR
    ensures r.Failure? && p !in d.files ==> r.error == MissingError(d, p)
  {
    if p in d.dirs then Success(Names(d, p))
    else if p in d.files then Failure(ENOTDIR)
    else Failure(MissingError(d, p))
  }

  /** Some entry lies strictly below `p`. */
  predicate HasChildren(d: Disk, p: Path) {
    (exists q :: q in d.files && p < q) || (exists q :: q in d.dirs && p < q)
  }

  /**
   * After `a` is moved to `b`: nothing is left at or below `a` outside `b`,
   * and below `b` lies exactly what lay below `a`, with the same contents.
   */
  ghost predicate MovedBelow(d: Disk, r: Disk, a: Path, b: Path) {
    && (forall q :: a <= q && !(b <= q) ==> !Exists(r, q))
    && (forall q :: b <= q ==> (q in r.files <==> a + q[|b|..] in d.files))
    && (forall q :: b <= q ==> (q in r.dirs <==> a + q[|b|..] in d.dirs))
    && (forall q :: b <= q && q in r.files && a + q[|b|..] in d.files ==> r.files[q] == d.files[a + q[|b|..]])
  }

  /** The disk with regular file `a` moved to `b`, replacing the file `b` held. */
  function MoveFile(d: Disk, a: Path, b: Path): (r: Disk)
    requires IsTree(d) && a in d.files && b !in d.dirs && a != b
    ensures r.dirs == d.dirs && r.files == (d.files - {a})[b := d.files[a]]
    ensures forall q :: !(a <= q) && !(b <= q) ==> Same(d, r, q)
    ensures MovedBelow(d, r, a, b)
  {
    var r := d.(files := (d.files - {a})[b := d.files[a]]);
    forall q | a <= q && !(b <= q) ensures !Exists(r, q) {
      if Exists(d, q) { OnlyItselfBelowFile(d, a, q); }
    }
    forall q | b <= q
      ensures (q in r.files <==> a + q[|b|..] in d.files) && (q in r.dirs <==> a + q[|b|..] in d.dirs)
    {
      var rest := q[|b|..];
      assert q == b + rest;
      if rest == [] {
        assert a + rest == a && q == b;
      } else {
        if Exists(d, q) { NothingBelow(d, b, q); }
        if Exists(d, a + rest) {
          OnlyItselfBelowFile(d, a, a + rest);
        }
      }
    }
    forall q | b <= q && q in r.files && a + q[|b|..] in d.files ensures r.files[q] == d.files[a + q[|b|..]] {
      var rest := q[|b|..];
      OnlyItselfBelowFile(d, a, a + rest);
      assert |a + rest| == |a| + |rest|;
      assert rest == [] && q == b + rest && a + rest == a;
      assert q == b;
      assert r.files[b] == d.files[a];
    }
    r
  }

  /** Where `q`, below `a`, lands when `a` is moved to `b`. */
  function Shifted(q: Path, a: Path, b: Path): Path
    requires a <= q
  {
    b + q[|a|..]
  }

  lemma ShiftInjective(a: Path, b: Path)
    ensures forall q1: Path, q2: Path {:trigger Shifted(q1, a, b), Shifted(q2, a, b)} ::
              a <= q1 && a <= q2 && Shifted(q1, a, b) == Shifted(q2, a, b) ==> q1 == q2
  {
    forall q1: Path, q2: Path | a <= q1 && a <= q2 && Shifted(q1, a, b) == Shifted(q2, a, b)
      ensures q1 == q2
    {
      assert Shifted(q1, a, b)[|b|..] == q1[|a|..];
      assert Shifted(q2, a, b)[|b|..] == q2[|a|..];
      assert q1 == a + q1[|a|..];
      assert q2 == a + q2[|a|..];
    }
  }

  /** Below `b` lies nothing, or only `b` itself as a directory when `a` is one too. */
  ghost predicate FreeFor(d: Disk, a: Path, b: Path) {
    IsTree(d) && a in d.dirs && b !in d.files && !HasChildren(d, b)
  }

  /** The construction behind `MoveDir`: keep what lies outside `a`, shift what lies below it. */
  function MoveDirRaw(d: Disk, a: Path, b: Path): Disk
  {
    ShiftInjective(a, b);
    var kept := map q | q in d.files && !(a <= q) :: d.files[q];
    var moved := map q | q in d.files && a <= q :: Shifted(q, a, b) := d.files[q];
    Disk(kept + moved, (set q | q in d.dirs && !(a <= q)) + (set q | q in d.dirs && a <= q :: Shifted(q, a, b)))
  }

  /** Entries outside both `a` and `b` stay as they are. */
  lemma MoveDirKeeps(d: Disk, a: Path, b: Path)
    ensures forall q :: !(a <= q) && !(b <= q) ==> Same(d, MoveDirRaw(d, a, b), q)
  {
    var r := MoveDirRaw(d, a, b);
    forall q | !(a <= q) && !(b <= q) ensures Same(d, r, q) {
      assert q in r.files ==> q in d.files;
      assert q in r.dirs ==> q in d.dirs;
    }
  }

  /** Every entry below `a` reappears shifted below `b`, a file with its contents. */
  lemma MoveDirShifts(d: Disk, a: Path, b: Path)
    ensures var r := MoveDirRaw(d, a, b);
            && (forall q :: q in d.files && a <= q ==> Shifted(q, a, b) in r.files && r.files[Shifted(q, a, b)] == d.files[q])
            && (forall q :: q in d.dirs && a <= q ==> Shifted(q, a, b) in r.dirs)
  {
    ShiftInjective(a, b);
    var moved := map q | q in d.files && a <= q :: Shifted(q, a, b) := d.files[q];
    forall q | q in d.files && a <= q
      ensures Shifted(q, a, b) in moved.Keys && moved[Shifted(q, a, b)] == d.files[q]
    {
    }
  }

  /** Every entry after a directory move was kept in place or came from below `a`. */
  lemma MoveDirSources(d: Disk, a: Path, b: Path)
    ensures var r := MoveDirRaw(d, a, b);
            && (forall k :: k in r.files ==> (k in d.files && !(a <= k)) || (b <= k && a + k[|b|..] in d.files))
            && (forall k :: k in r.dirs ==> (k in d.dirs && !(a <= k)) || (b <= k && a + k[|b|..] in d.dirs))
  {
    var r := MoveDirRaw(d, a, b);
    forall k | k in r.files && !(k in d.files && !(a <= k))
      ensures b <= k && a + k[|b|..] in d.files
    {
      var q :| q in d.files && a <= q && k == Shifted(q, a, b);
      assert k[|b|..] == q[|a|..];
      assert a + q[|a|..] == q;
    }
    forall k | k in r.dirs && !(k in d.dirs && !(a <= k))
      ensures b <= k && a + k[|b|..] in d.dirs
    {
      var q :| q in d.dirs && a <= q && k == Shifted(q, a, b);
      assert k[|b|..] == q[|a|..];
      assert a + q[|a|..] == q;
    }
  }

  /** With `b` free, the move leaves exactly the subtree of `a` below `b`. */
  lemma MoveDirBelow(d: Disk, a: Path, b: Path)
    requires FreeFor(d, a, b)
    ensures MovedBelow(d, MoveDirRaw(d, a, b), a, b)
  {
    var r := MoveDirRaw(d, a, b);
    MoveDirShifts(d, a, b);
    MoveDirSources(d, a, b);
    forall q | a <= q && !(b <= q) ensures !Exists(r, q) {
    }
    forall q | b <= q
      ensures (q in r.files <==> a + q[|b|..] in d.files) && (q in r.dirs <==> a + q[|b|..] in d.dirs)
    {
      var rest := q[|b|..];
      var src := a + rest;
      assert q == b + rest;
      assert a <= src && src[|a|..] == rest;
      assert Shifted(src, a, b) == q;
      if Exists(d, q) {
        if rest != [] { NothingBelow(d, b, q); }
        assert q == b && q in d.dirs && src == a;
      }
    }
    forall q | b <= q && q in r.files && a + q[|b|..] in d.files ensures r.files[q] == d.files[a + q[|b|..]] {
      var rest := q[|b|..];
      var src := a + rest;
      assert q == b + rest;
      assert a <= src && src[|a|..] == rest;
      assert Shifted(src, a, b) == q;
    }
  }

  /** The disk with directory `a` and everything below it moved under `b`. */
  function MoveDir(d: Disk, a: Path, b: Path): (r: Disk)
    requires FreeFor(d, a, b)
    ensures forall q :: !(a <= q) && !(b <= q) ==> Same(d, r, q)
    ensures forall q :: q in d.files && a <= q ==> Shifted(q, a, b) in r.files && r.files[Shifted(q, a, b)] == d.files[q]
    ensures forall q :: q in d.dirs && a <= q ==> Shifted(q, a, b) in r.dirs
    ensures MovedBelow(d, r, a, b)
  {
    MoveDirKeeps(d, a, b);
    MoveDirShifts(d, a, b);
    MoveDirBelow(d, a, b);
    MoveDirRaw(d, a, b)
  }

  /**
   * `fs.renameSync(a, b)` below the root, with the checks in the order Linux
   * makes them: both parent paths are walked before the source is looked up.
   */
  function RenameSync(d: Disk, a: Path, b: Path): (r: Result<Disk, Errno>)
    requires IsTree(d) && a != [] && b != []
    ensures Parent(a) !in d.dirs ==> r == Failure(MissingError(d, a))
    ensures Parent(a) in d.dirs && Parent(b) !in d.dirs ==> r == Failure(MissingError(d, b))
    ensures Parent(a) in d.dirs && Parent(b) in d.dirs && !Exists(d, a) ==> r == Failure(ENOENT)
    ensures r.Success? <==>
              && Exists(d, a) && Parent(b) in d.dirs
              && (a == b ||
                  (!(a <= b) && !(b <= a) &&
                   ((a in d.files && b !in d.dirs) || (a in d.dirs && b !in d.files && !HasChildren(d, b)))))
    ensures Exists(d, a) && Parent(b) in d.dirs && a != b ==>
              && (a <= b ==> r == Failure(EINVAL))
              && (b <= a ==> r == Failure(ENOTEMPTY))
              && (!(a <= b) && !(b <= a) && a in d.files && b in d.dirs ==> r == Failure(EISDIR))
              && (!(a <= b) && !(b <= a) && a in d.dirs && b in d.files ==> r == Failure(ENOTDIR))
              && (!(a <= b) && !(b <= a) && a in d.dirs && b !in d.files && HasChildren(d, b) ==> r == Failure(ENOTEMPTY))
    ensures r.Success? && a == b ==> r.value == d
    ensures r.Success? && a in d.files && a != b ==>
              r.value.dirs == d.dirs && r.value.files == (d.files - {a})[b := d.files[a]]
    ensures r.Success? ==> forall q :: !(a <= q) && !(b <= q) ==> Same(d, r.value, q)
    ensures r.Success? ==> MovedBelow(d, r.value, a, b)
  {
    if Parent(a) !in d.dirs then Failure(MissingError(d, a))
    else if Parent(b) !in d.dirs then Failure(MissingError(d, b))
    else if !Exists(d, a) then Failure(ENOENT)
    else if a == b then
      assert MovedBelow(d, d, a, b) by {
        forall q | b <= q ensures q == a + q[|b|..] { }
      }
      Success(d)
    else if a <= b then Failure(EINVAL)
    else if b <= a then Failure(ENOTEMPTY)
    else if a in d.files then
      if b in d.dirs then Failure(EISDIR) else Success(MoveFile(d, a, b))
    else if b in d.files then Failure(ENOTDIR)
    else if HasChildren(d, b) then Failure(ENOTEMPTY)
    else Success(MoveDir(d, a, b))
  }

  /**
   * Both parent paths are walked before the source is looked up: renaming a
   * missing `/x` to `/f/y`, where `/f` is a regular file, fails with ENOTDIR
   * for the target's parent, not ENOENT for the source.
   */
  lemma RenameWalksParentsFirst(bytes: Bytes)
    ensures var d := Disk(map[["f"] := bytes], {[]});
            && IsTree(d)
            && !Exists(d, ["x"])
            && RenameSync(d, ["x"], ["f", "y"]) == Failure(ENOTDIR)
  {
    var d := Disk(map[["f"] := bytes], {[]});
    assert Parent(["f"]) == [];
    assert Parent(["f", "y"]) == ["f"];
    assert ["f", "y"][..1] == ["f"];
  }

  // ---------------------------------------------------------------------------
  // Every call that succeeds on a tree leaves a tree

  lemma WriteFileSyncKeepsTree(d: Disk, p: Path, content: Bytes)
    requires IsTree(d) && WriteFileSync(d, p, content).Success?
    ensures IsTree(WriteFileSync(d, p, content).value)
  {
  }

  lemma UnlinkSyncKeepsTree(d: Disk, p: Path)
    requires IsTree(d) && UnlinkSync(d, p).Success?
    ensures IsTree(UnlinkSync(d, p).value)
  {
  }

  lemma MkdirRecursiveKeepsTree(d: Disk, p: Path)
    requires IsTree(d) && MkdirRecursive(d, p).Success?
    ensures IsTree(MkdirRecursive(d, p).value)
  {
    var r := MkdirRecursive(d, p).value;
    forall q | q in r.dirs && q != [] ensures Parent(q) in r.dirs {
      if q in Prefixes(p) {
        var k :| 0 <= k <= |p| && q == p[..k];
        assert Parent(q) == p[..k - 1];
      }
    }
  }

  lemma RemoveSubtreeKeepsTree(d: Disk, root: Path)
    requires IsTree(d) && root != []
    ensures IsTree(RemoveSubtree(d, root))
  {
    var r := RemoveSubtree(d, root);
    assert !(root <= []);
    forall q | q in r.files ensures q != [] && Parent(q) in r.dirs {
      assert Parent(q) <= q;
    }
    forall q | q in r.dirs && q != [] ensures Parent(q) in r.dirs {
      assert Parent(q) <= q;
    }
  }

  lemma RmRecursiveForceKeepsTree(d: Disk, p: Path)
    requires IsTree(d) && p != [] && RmRecursiveForce(d, p).Success?
    ensures IsTree(RmRecursiveForce(d, p).value)
  {
    RemoveSubtreeKeepsTree(d, p);
  }

  lemma RmdirRecursiveKeepsTree(d: Disk, p: Path)
    requires IsTree(d) && p != [] && RmdirRecursive(d, p).Success?
    ensures IsTree(RmdirRecursive(d, p).value)
  {
    RemoveSubtreeKeepsTree(d, p);
  }

  /** The parent of a moved entry below `b` is the moved parent of its source. */
  lemma ShiftedParent(a: Path, b: Path, k: Path)
    requires b < k
    ensures a + k[|b|..] != [] && a <= Parent(a + k[|b|..])
    ensures Shifted(Parent(a + k[|b|..]), a, b) == Parent(k)
  {
    var s := k[|b|..];
    assert k == b + s;
    assert Parent(a + s) == a + s[..|s| - 1];
    assert (a + s[..|s| - 1])[|a|..] == s[..|s| - 1];
    assert Parent(k) == b + s[..|s| - 1];
  }

  /** What a directory move to an empty or missing `b` needs of the disk. */
  ghost predicate CanMoveDir(d: Disk, a: Path, b: Path) {
    IsTree(d) && a != [] && b != [] && a in d.dirs && b !in d.files &&
    !(a <= b) && Parent(b) in d.dirs && !HasChildren(d, b)
  }

  lemma MoveDirFileOk(d: Disk, a: Path, b: Path, k: Path)
    requires CanMoveDir(d, a, b) && k in MoveDir(d, a, b).files
    ensures k != [] && Parent(k) in MoveDir(d, a, b).dirs && k !in MoveDir(d, a, b).dirs
  {
    var r := MoveDir(d, a, b);
    assert (k in d.files && !(a <= k)) || (b <= k && a + k[|b|..] in d.files) by {
      MoveDirSources(d, a, b);
    }
    if k in d.files && !(a <= k) {
      MoveDirFileKept(d, a, b, k);
    } else {
      MoveDirFileMoved(d, a, b, k);
    }
  }

  /** A file the move left in place keeps its parent and stays a file. */
  lemma MoveDirFileKept(d: Disk, a: Path, b: Path, k: Path)
    requires CanMoveDir(d, a, b) && k in d.files && !(a <= k)
    ensures k != [] && Parent(k) in MoveDir(d, a, b).dirs && k !in MoveDir(d, a, b).dirs
  {
    var r := MoveDir(d, a, b);
    assert !(b < k);
    assert k != b;
    assert !(b <= Parent(k)) && !(a <= Parent(k)) by { assert Parent(k) < k; }
    assert Same(d, r, Parent(k));
    assert Same(d, r, k);
  }

  /** A file the move brought below `b` has its moved parent above it and is not a directory. */
  lemma MoveDirFileMoved(d: Disk, a: Path, b: Path, k: Path)
    requires CanMoveDir(d, a, b) && k in MoveDir(d, a, b).files && b <= k && a + k[|b|..] in d.files
    ensures k != [] && Parent(k) in MoveDir(d, a, b).dirs && k !in MoveDir(d, a, b).dirs
  {
    var r := MoveDir(d, a, b);
    assert k != b by { assert a + [] == a; }
    assert b < k;
    ShiftedParent(a, b, k);
    assert Parent(a + k[|b|..]) in d.dirs;
    assert k !in r.dirs by {
      MoveDirSources(d, a, b);
      assert !(k in d.dirs && !(a <= k));
    }
  }

  lemma MoveDirDirOk(d: Disk, a: Path, b: Path, k: Path)
    requires CanMoveDir(d, a, b) && k in MoveDir(d, a, b).dirs && k != []
    ensures Parent(k) in MoveDir(d, a, b).dirs
  {
    var r := MoveDir(d, a, b);
    MoveDirSources(d, a, b);
    if k in d.dirs && !(a <= k) {
      assert !(b <= Parent(k)) && !(a <= Parent(k)) by { assert Parent(k) < k; }
      assert Same(d, r, Parent(k));
    } else if k == b {
      assert !(a <= Parent(b)) by { assert Parent(b) <= b; }
      assert !(b <= Parent(b));
      assert Same(d, r, Parent(b));
    } else {
      assert b < k;
      ShiftedParent(a, b, k);
    }
  }

  lemma MoveDirKeepsTree(d: Disk, a: Path, b: Path)
    requires CanMoveDir(d, a, b)
    ensures IsTree(MoveDir(d, a, b))
  {
    var r := MoveDir(d, a, b);
    assert !(a <= []) && !(b <= []);
    assert Same(d, r, []);
    forall k | k in r.files ensures k != [] && Parent(k) in r.dirs && k !in r.dirs {
      MoveDirFileOk(d, a, b, k);
    }
    forall k | k in r.dirs && k != [] ensures Parent(k) in r.dirs {
      MoveDirDirOk(d, a, b, k);
    }
  }

  lemma RenameSyncKeepsTree(d: Disk, a: Path, b: Path)
    requires IsTree(d) && a != [] && b != [] && RenameSync(d, a, b).Success?
    ensures IsTree(RenameSync(d, a, b).value)
  {
    if a != b && a !in d.files {
      MoveDirKeepsTree(d, a, b);
    }
  }
}
