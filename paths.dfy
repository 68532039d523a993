/**
 * POSIX path handling as the provider uses it: `path.join`, `path.normalize`,
 * the string form of a path, and the guard that keeps every path inside the
 * provider's base directory.
 *
 * A path is kept as its sequence of segments (`/a/b` is `["a", "b"]`, the root
 * is `[]`); a string becomes a path by splitting at '/' and resolving "", "."
 * and ".." segments.
 */
module Paths {
  import opened Wrappers
  import opened Strings

  type Path = seq<string>

  /** Name of the directory, under the home directory, that backs the `builder:` scheme. */
  const BaseName: string := ".vscode-course-builder-temp"

  /** A segment that survives normalisation: not empty, not "." or "..", no separator. */
  predicate IsName(s: string) {
    s != "" && s != "." && s != ".." && '/' !in s
  }

  predicate IsNormal(p: Path) {
    forall i :: 0 <= i < |p| ==> IsName(p[i])
  }

  predicate NoSeparators(parts: seq<string>) {
    forall i :: 0 <= i < |parts| ==> '/' !in parts[i]
  }

  /** Splits a string at every '/': "a//b" gives ["a", "", "b"], "" gives [""]. */
  function Split(s: string): (parts: seq<string>)
    ensures |parts| >= 1
    ensures NoSeparators(parts)
  {
    if s == [] then [""]
    else
      var rest := Split(s[1..]);
      if s[0] == '/' then [""] + rest
      else [[s[0]] + rest[0]] + rest[1..]
  }

  /** Puts the parts back together with '/' between them. */
  function Join(parts: seq<string>): string
    requires |parts| >= 1
  {
    if |parts| == 1 then parts[0] else parts[0] + "/" + Join(parts[1..])
  }

  lemma {:induction false} JoinSplit(s: string)
    ensures Join(Split(s)) == s
  {
    if s != [] {
      JoinSplit(s[1..]);
      var rest := Split(s[1..]);
      if s[0] != '/' && |rest| > 1 {
        assert Join(rest) == rest[0] + "/" + Join(rest[1..]);
        assert [[s[0]] + rest[0]] + rest[1..] == [[s[0]] + rest[0], rest[1]] + rest[2..];
      }
    }
  }

  lemma {:induction false} SplitName(s: string)
    requires '/' !in s
    ensures Split(s) == [s]
  {
    if s != [] {
      assert s[0] != '/' by { assert s[0] == s[0]; }
      assert '/' !in s[1..] by {
        forall i | 0 <= i < |s[1..]| ensures s[1..][i] != '/' {
          assert s[1..][i] == s[i + 1];
        }
      }
      SplitName(s[1..]);
      assert [s[0]] + s[1..] == s;
    }
  }

  /** One step of `Split`: the first character either starts a new part or joins the first part. */
  lemma SplitCons(c: char, t: string)
    ensures Split([c] + t) == if c == '/' then [""] + Split(t) else [[c] + Split(t)[0]] + Split(t)[1..]
  {
    assert ([c] + t)[1..] == t;
  }

  /** Splitting `a + "/" + b` splits `a` and `b` separately. */
  lemma {:induction false} SplitAround(a: string, b: string)
    ensures Split(a + "/" + b) == Split(a) + Split(b)
  {
    var rb := Split(b);
    if a == [] {
      assert a + "/" + b == ['/'] + b;
      SplitCons('/', b);
    } else {
      var c, t := a[0], a[1..];
      var u := t + "/" + b;
      assert Split(u) == Split(t) + rb by { SplitAround(t, b); }
      assert Split(a + "/" + b) == Split([c] + u) by {
        assert a + "/" + b == [c] + u;
      }
      assert Split(a) == Split([c] + t) by {
        assert a == [c] + t;
      }
      SplitConsAround(c, Split(t), rb);
      SplitCons(c, u);
      SplitCons(c, t);
    }
  }

  /** The sequence algebra behind one step of `SplitAround`. */
  lemma SplitConsAround(c: char, rt: seq<string>, rb: seq<string>)
    requires |rt| >= 1
    ensures [""] + (rt + rb) == ([""] + rt) + rb
    ensures [[c] + (rt + rb)[0]] + (rt + rb)[1..] == ([[c] + rt[0]] + rt[1..]) + rb
  {
    assert (rt + rb)[1..] == rt[1..] + rb;
  }

  /**
   * Resolves segments against a stack of names, as `path.normalize` does for
   * an absolute path: "" and "." are dropped, ".." drops the last name and
   * stays at the root when there is none.
   */
  function Resolve(stack: Path, segs: seq<string>): (r: Path)
    requires IsNormal(stack) && NoSeparators(segs)
    ensures IsNormal(r)
    decreases |segs|
  {
    if segs == [] then stack
    else if segs[0] == "" || segs[0] == "." then Resolve(stack, segs[1..])
    else if segs[0] == ".." then Resolve(if stack == [] then [] else stack[..|stack| - 1], segs[1..])
    else Resolve(stack + [segs[0]], segs[1..])
  }

  /** `path.normalize` of an absolute path, given its segments. */
  function Normalize(segs: seq<string>): (p: Path)
    requires NoSeparators(segs)
    ensures IsNormal(p)
    ensures IsNormal(segs) ==> p == segs
  {
    if IsNormal(segs) then
      ResolveNames([], segs);
      assert [] + segs == segs;
      Resolve([], segs)
    else
      Resolve([], segs)
  }

  lemma {:induction false} ResolveAppend(stack: Path, xs: seq<string>, ys: seq<string>)
    requires IsNormal(stack) && NoSeparators(xs) && NoSeparators(ys)
    ensures NoSeparators(xs + ys)
    ensures Resolve(stack, xs + ys) == Resolve(Resolve(stack, xs), ys)
    decreases |xs|
  {
    assert NoSeparators(xs + ys) by {
      forall i | 0 <= i < |xs + ys| ensures '/' !in (xs + ys)[i] {
        if i >= |xs| { assert (xs + ys)[i] == ys[i - |xs|]; }
      }
    }
    if xs == [] {
      assert xs + ys == ys;
    } else {
      assert (xs + ys)[0] == xs[0];
      assert (xs + ys)[1..] == xs[1..] + ys;
      var next := if xs[0] == "" || xs[0] == "." then stack
                  else if xs[0] == ".." then (if stack == [] then [] else stack[..|stack| - 1])
                  else stack + [xs[0]];
      ResolveAppend(next, xs[1..], ys);
    }
  }

  /** Names resolve to themselves: an already normal path is a fixed point. */
  lemma {:induction false} ResolveNames(stack: Path, names: Path)
    requires IsNormal(stack) && IsNormal(names)
    ensures NoSeparators(names)
    ensures Resolve(stack, names) == stack + names
    decreases |names|
  {
    if names != [] {
      assert stack + [names[0]] + names[1..] == stack + names;
      ResolveNames(stack + [names[0]], names[1..]);
    }
  }

  /** Normalising twice gives what normalising once gives. */
  lemma NormalizeIdempotent(segs: seq<string>)
    requires NoSeparators(segs)
    ensures var p := Normalize(segs); NoSeparators(p) && Normalize(p) == p
  {
    ResolveNames([], Normalize(segs));
  }

  /** `/a/b` for `["a", "b"]`, without the root's own slash for `[]`. */
  function Slashed(p: Path): string {
    if p == [] then "" else "/" + p[0] + Slashed(p[1..])
  }

  /** The string form of a path, as Node prints a normalised absolute path. */
  function Render(p: Path): string {
    if p == [] then "/" else Slashed(p)
  }

  lemma {:induction false} SlashedAppend(p: Path, q: Path)
    ensures Slashed(p + q) == Slashed(p) + Slashed(q)
  {
    if p == [] {
      assert p + q == q;
    } else {
      assert (p + q)[0] == p[0];
      assert (p + q)[1..] == p[1..] + q;
      SlashedAppend(p[1..], q);
    }
  }

  lemma {:induction false} SplitSlashed(x: string, q: Path)
    requires IsNormal(q)
    ensures Split(x + Slashed(q)) == Split(x) + q
    decreases |q|
  {
    if q != [] {
      var tail := q[0] + Slashed(q[1..]);
      assert Slashed(q) == "/" + q[0] + Slashed(q[1..]);
      assert x + Slashed(q) == x + "/" + tail;
      SplitAround(x, tail);
      assert IsNormal(q[1..]) by {
        forall i | 0 <= i < |q[1..]| ensures IsName(q[1..][i]) { assert q[1..][i] == q[i + 1]; }
      }
      SplitSlashed(q[0], q[1..]);
      assert IsName(q[0]);
      SplitName(q[0]);
      assert Split(tail) == [q[0]] + q[1..];
      assert [q[0]] + q[1..] == q;
    } else {
      assert x + Slashed(q) == x;
    }
  }

  /** Reading a path back from its string form gives the path itself. */
  lemma RenderRoundTrip(p: Path)
    requires IsNormal(p)
    ensures NoSeparators(Split(Render(p)))
    ensures Normalize(Split(Render(p))) == p
  {
    if p == [] {
      assert Render(p) == "" + "/" + "";
      SplitAround("", "");
      assert Split(Render(p)) == ["", ""];
      assert ["", ""][1..] == [""];
      assert [""][1..] == [];
      calc {
        Resolve([], ["", ""]);
        Resolve([], [""]);
        Resolve([], []);
      }
    } else {
      assert Render(p) == "" + Slashed(p);
      SplitSlashed("", p);
      assert Split(Render(p)) == [""] + p;
      ResolveNames([], p);
    }
  }

  /** `path.normalize(path.join(dir, rest))`, with `dir` a normalised absolute path. */
  function JoinNormalize(dir: Path, rest: string): (p: Path)
    ensures IsNormal(p)
    ensures IsNormal(dir) && IsNormal(Split(rest)) ==> p == dir + Split(rest)
  {
    var p := Normalize(Split(Render(dir) + "/" + rest));
    if IsNormal(dir) && IsNormal(Split(rest)) then
      SplitAround(Render(dir), rest);
      RenderRoundTrip(dir);
      ResolveAppend([], Split(Render(dir)), Split(rest));
      ResolveNames(dir, Split(rest));
      p
    else p
  }

  /** Joining onto a normal directory resolves the rest against it. */
  lemma JoinNormalizeResolves(dir: Path, rest: string)
    requires IsNormal(dir)
    ensures JoinNormalize(dir, rest) == Resolve(dir, Split(rest))
  {
    SplitAround(Render(dir), rest);
    RenderRoundTrip(dir);
    ResolveAppend([], Split(Render(dir)), Split(rest));
  }

  /** The base directory's name is a single plain segment. */
  lemma BaseNameIsName()
    ensures IsName(BaseName) && Split(BaseName) == [BaseName]
  {
    assert BaseName[0] == '.' && BaseName[1] == 'v';
    SplitName(BaseName);
  }

  /** `path.join(os.homedir(), '.vscode-course-builder-temp')`. */
  function BaseDir(home: string): (base: Path)
    ensures NoSeparators(Split(home))
    ensures base == Normalize(Split(home)) + [BaseName]
    ensures IsNormal(base) && |base| >= 1 && base[|base| - 1] == BaseName
  {
    var parts := Split(home);
    SplitAround(home, BaseName);
    BaseNameIsName();
    ResolveAppend([], parts, [BaseName]);
    var up := Normalize(parts);
    assert IsNormal([BaseName]);
    ResolveNames(up, [BaseName]);
    assert Normalize(Split(home + "/" + BaseName)) == up + [BaseName];
    Normalize(Split(home + "/" + BaseName))
  }

  /**
   * The guard of `_getFilePath`, corrected: a path is admitted only when the
   * base directory is a whole-segment prefix of it.
   */
  function GetFilePath(base: Path, uriPath: string): (r: Option<Path>)
    requires IsNormal(base)
    ensures r.Some? ==> IsNormal(r.value) && base <= r.value
    ensures r.Some? ==> r.value == Resolve(base, Split(uriPath))
    ensures r.None? <==> !(base <= Resolve(base, Split(uriPath)))
  {
    JoinNormalizeResolves(base, uriPath);
    var normalized := JoinNormalize(base, uriPath);
    if base <= normalized then Some(normalized) else None
  }

  /** The guard of `_getFilePath` as written: a plain string prefix test. */
  function GetFilePathAsWritten(base: Path, uriPath: string): (r: Option<Path>)
    requires IsNormal(base)
    ensures r.Some? <==> StartsWith(Render(Resolve(base, Split(uriPath))), Render(base))
    ensures r.Some? ==> r.value == Resolve(base, Split(uriPath))
  {
    JoinNormalizeResolves(base, uriPath);
    var normalized := JoinNormalize(base, uriPath);
    if StartsWith(Render(normalized), Render(base)) then Some(normalized) else None
  }

  /** Every path the corrected guard admits also starts with the base directory as a string. */
  lemma GetFilePathStartsWithBase(base: Path, uriPath: string)
    requires IsNormal(base) && |base| >= 1
    requires GetFilePath(base, uriPath).Some?
    ensures StartsWith(Render(GetFilePath(base, uriPath).value), Render(base))
    ensures GetFilePathAsWritten(base, uriPath) == GetFilePath(base, uriPath)
  {
    var p := GetFilePath(base, uriPath).value;
    JoinNormalizeResolves(base, uriPath);
    assert p == base + p[|base|..];
    SlashedAppend(base, p[|base|..]);
  }

  /** A name followed by a separator is one part ahead of the rest's parts. */
  lemma SplitNameThen(x: string, rest: string)
    requires '/' !in x
    ensures Split(x + "/" + rest) == [x] + Split(rest)
  {
    SplitAround(x, rest);
    SplitName(x);
  }

  /** The uri path `/../<name>/f` splits into its four parts. */
  lemma SplitSiblingPath(sibling: string)
    requires '/' !in sibling
    ensures Split("/../" + sibling + "/f") == [""] + ([".."] + [sibling, "f"])
  {
    var s3 := sibling + "/" + "f";
    var s2 := ".." + "/" + s3;
    var s1 := "" + "/" + s2;
    var p3 := Split(s3);
    var p2 := Split(s2);
    var p1 := Split(s1);
    assert p3 == [sibling, "f"] by {
      SplitNameThen(sibling, "f");
      SplitName("f");
    }
    assert p2 == [".."] + p3 by { SplitNameThen("..", s3); }
    assert p1 == [""] + p2 by { SplitNameThen("", s2); }
    assert "/../" + sibling + "/f" == s1;
  }

  /** A leading "" segment is dropped. */
  lemma ResolveSkip(stack: Path, rest: seq<string>)
    requires IsNormal(stack) && NoSeparators(rest)
    ensures NoSeparators([""] + rest)
    ensures Resolve(stack, [""] + rest) == Resolve(stack, rest)
  {
    assert ([""] + rest)[1..] == rest;
  }

  /** A leading ".." segment drops the last name of a non-empty stack. */
  lemma ResolveUp(stack: Path, rest: seq<string>)
    requires IsNormal(stack) && stack != [] && NoSeparators(rest)
    ensures IsNormal(stack[..|stack| - 1])
    ensures NoSeparators([".."] + rest)
    ensures Resolve(stack, [".."] + rest) == Resolve(stack[..|stack| - 1], rest)
  {
    assert ([".."] + rest)[1..] == rest;
  }

  /** From a non-root directory, `/../` followed by names lands beside it. */
  lemma ResolveClimbNames(base: Path, names: Path)
    requires IsNormal(base) && base != [] && IsNormal(names)
    ensures NoSeparators([""] + ([".."] + names))
    ensures Resolve(base, [""] + ([".."] + names)) == base[..|base| - 1] + names
  {
    ResolveUp(base, names);
    ResolveNames(base[..|base| - 1], names);
    ResolveSkip(base, [".."] + names);
  }

  /** From a non-root directory, `/../<name>/f` lands in the sibling `<name>`. */
  lemma ResolveSiblingPath(base: Path, sibling: string)
    requires IsNormal(base) && |base| >= 1 && IsName(sibling)
    ensures NoSeparators([""] + ([".."] + [sibling, "f"]))
    ensures Resolve(base, [""] + ([".."] + [sibling, "f"])) == base[..|base| - 1] + [sibling, "f"]
  {
    assert IsNormal([sibling, "f"]) by { assert IsName("f"); }
    ResolveClimbNames(base, [sibling, "f"]);
  }

  /** The string form of a one-name path. */
  lemma SlashedOne(x: string)
    ensures Slashed([x]) == "/" + x
  {
    assert [x][1..] == [];
  }

  /**
   * The string form of the sibling path `name + suffix` starts with the
   * string form of `name`.
   */
  lemma RenderSiblingPath(up: Path, name: string, suffix: string)
    ensures Render(up + [name + suffix, "f"]) == Render(up + [name]) + (suffix + "/f")
  {
    var sib := [name + suffix, "f"];
    assert Slashed(up + sib) == Slashed(up) + Slashed(sib) by { SlashedAppend(up, sib); }
    assert Slashed(up + [name]) == Slashed(up) + ("/" + name) by {
      SlashedAppend(up, [name]);
      SlashedOne(name);
    }
    assert Slashed(sib) == ("/" + name) + (suffix + "/f") by {
      assert sib == [name + suffix] + ["f"];
      SlashedAppend([name + suffix], ["f"]);
      SlashedOne(name + suffix);
      SlashedOne("f");
    }
  }

  /**
   * The string test also admits a sibling of the base directory whose name
   * merely starts with the base directory's name: `/../<BaseName>-x/f` leaves
   * the sandbox and is let through.
   */
  lemma AsWrittenGuardAdmitsSibling(home: string, suffix: string)
    requires suffix != "" && '/' !in suffix
    ensures var base := BaseDir(home);
            var r := GetFilePathAsWritten(base, "/../" + BaseName + suffix + "/f");
            r.Some? && !(base <= r.value) && GetFilePath(base, "/../" + BaseName + suffix + "/f").None?
  {
    var base := BaseDir(home);
    var sibling := BaseName + suffix;
    var uriPath := "/../" + sibling + "/f";
    assert uriPath == "/../" + BaseName + suffix + "/f";
    SiblingIsName(suffix);
    SplitSiblingPath(sibling);
    ResolveSiblingPath(base, sibling);
    JoinNormalizeResolves(base, uriPath);
    var up := base[..|base| - 1];
    var n := up + [sibling, "f"];
    assert JoinNormalize(base, uriPath) == n;
    assert n[|base| - 1] == sibling;
    assert |sibling| > |BaseName|;
    assert base[|base| - 1] != n[|base| - 1];
    assert base == up + [BaseName];
    RenderSiblingPath(up, BaseName, suffix);
    assert Render(n)[..|Render(base)|] == Render(base);
    assert GetFilePathAsWritten(base, uriPath) == Some(n);
    assert GetFilePath(base, uriPath) == None;
  }

  /** A name that extends the base directory's name is itself a plain segment. */
  lemma SiblingIsName(suffix: string)
    requires '/' !in suffix
    ensures IsName(BaseName + suffix)
  {
    BaseNameIsName();
    var sibling := BaseName + suffix;
    assert sibling[0] == '.' && sibling[1] == 'v';
    forall i | 0 <= i < |sibling| ensures sibling[i] != '/' {
      if i < |BaseName| { assert sibling[i] == BaseName[i]; }
      else { assert sibling[i] == suffix[i - |BaseName|]; }
    }
  }

  /** `${filePath}.tmp`: the sibling a new content is first written to. */
  function TempSibling(p: Path): (t: Path)
    requires p != []
    ensures |t| == |p| && t[..|t| - 1] == p[..|p| - 1] && t != p
  {
    var t := p[..|p| - 1] + [p[|p| - 1] + ".tmp"];
    assert t[|p| - 1] != p[|p| - 1] by { assert |t[|p| - 1]| == |p[|p| - 1]| + 4; }
    t
  }

  /** The sibling's string form is the path's string form with ".tmp" appended. */
  lemma TempSiblingRender(p: Path)
    requires p != []
    ensures Render(TempSibling(p)) == Render(p) + ".tmp"
  {
    var up := p[..|p| - 1];
    var last := p[|p| - 1];
    var t := TempSibling(p);
    assert t == up + [last + ".tmp"];
    assert Slashed(t) == Slashed(up) + ("/" + last + ".tmp") by {
      SlashedAppend(up, [last + ".tmp"]);
      SlashedOne(last + ".tmp");
    }
    assert Slashed(p) == Slashed(up) + ("/" + last) by {
      assert p == up + [last];
      SlashedAppend(up, [last]);
      SlashedOne(last);
    }
  }
}
