/**
  The part of `java.nio.file.Path` on a Unix file system that the archiver
  uses: `Paths.get`, `resolve`, `getFileName`, `equals`, and the
  `toAbsolutePath().normalize()` form used to compare two paths by the file
  they name.

  A path is a root flag and a sequence of names. `Paths.get` drops empty
  names, so `a//b/` and `a/b` are the same path, and `equals` compares the
  flag and the names: `./a` and `a` are different paths.
*/
module Paths {
  import opened Results
  import opened Strings

  datatype Path = Path(absolute: bool, names: seq<string>)

  /** A name as a file system gives it: not empty and free of separators. */
  predicate IsName(n: string) {
    n != [] && !ContainsChar(n, FileSeparator)
  }

  predicate ValidPath(p: Path) {
    forall i :: 0 <= i < |p.names| ==> IsName(p.names[i])
  }

  /** The pieces of a split that are not empty. */
  function NonEmpty(pieces: seq<string>): (r: seq<string>)
    ensures |r| <= |pieces|
    ensures forall i :: 0 <= i < |r| ==> r[i] != [] && r[i] in pieces
  {
    if pieces == [] then []
    else if pieces[0] == [] then NonEmpty(pieces[1..])
    else [pieces[0]] + NonEmpty(pieces[1..])
  }

  /** `Paths.get(s)` */
  function Parse(s: string): (p: Path)
    ensures ValidPath(p)
  {
    Path(|s| > 0 && s[0] == FileSeparator, NonEmpty(Split(s, FileSeparator)))
  }

  /** `Path.toString()` */
  function Render(p: Path): string {
    (if p.absolute then [FileSeparator] else []) + Join(p.names, FileSeparator)
  }

  /** `base.resolve(other)`: an absolute `other` replaces `base`. */
  function Resolve(base: Path, other: Path): (r: Path)
    ensures ValidPath(base) && ValidPath(other) ==> ValidPath(r)
    ensures !other.absolute ==> r.absolute == base.absolute && |r.names| >= |base.names| && r.names[..|base.names|] == base.names
  {
    if other.absolute then other else Path(base.absolute, base.names + other.names)
  }

  /**
    `getFileName()`: the last name; the root has none (`null`), and the empty
    path is its own file name, the empty string.
  */
  function FileName(p: Path): (r: Option<string>)
    ensures r.None? <==> p.absolute && p.names == []
  {
    if p.names != [] then Some(p.names[|p.names| - 1])
    else if p.absolute then None
    else Some([])
  }

  /** `String.valueOf` of a file name, as string concatenation writes it. */
  function FileNameString(p: Path): string {
    match FileName(p)
    case None => "null"
    case Some(n) => n
  }

  /**
    `getParent()`: the path without its last name. The root, the empty path
    and a relative path of one name have no parent (`null`).
  */
  function ParentPath(p: Path): (r: Option<Path>)
    ensures r.None? <==> p.names == [] || (!p.absolute && |p.names| == 1)
    ensures r.Some? ==> Resolve(r.value, Path(false, [p.names[|p.names| - 1]])) == p
  {
    if p.names == [] || (!p.absolute && |p.names| == 1) then None
    else Some(Path(p.absolute, p.names[..|p.names| - 1]))
  }

  // ---------------------------------------------------------------------------
  // Normal form

  /** One step of `normalize()`: `.` vanishes, `..` cancels the name before it. */
  function NormalStep(stack: seq<string>, n: string, absolute: bool): seq<string> {
    if n == "." then stack
    else if n == ".." then
      if |stack| > 0 && stack[|stack| - 1] != ".." then stack[..|stack| - 1]
      else if absolute then stack
      else stack + [".."]
    else stack + [n]
  }

  function NormalNames(names: seq<string>, absolute: bool): seq<string> {
    if names == [] then []
    else NormalStep(NormalNames(names[..|names| - 1], absolute), names[|names| - 1], absolute)
  }

  /**
    A normal name sequence: no `.`, and `..` only as a leading run of a
    relative path.
  */
  predicate IsNormal(names: seq<string>, absolute: bool) {
    && (forall i :: 0 <= i < |names| ==> names[i] != ".")
    && (forall i, j :: 0 <= i < j < |names| && names[i] != ".." ==> names[j] != "..")
    && (absolute ==> forall i :: 0 <= i < |names| ==> names[i] != "..")
  }

  /** `normalize()` */
  function Normalize(p: Path): (r: Path)
    ensures r.absolute == p.absolute
    ensures IsNormal(r.names, r.absolute)
  {
    NormalNamesAreNormal(p.names, p.absolute);
    Path(p.absolute, NormalNames(p.names, p.absolute))
  }

  /** `p.toAbsolutePath().normalize()`, with the working directory `cwd`. */
  function Canonical(cwd: Path, p: Path): (r: Path)
    requires cwd.absolute
    ensures r.absolute && IsNormal(r.names, true)
  {
    Normalize(if p.absolute then p else Resolve(cwd, p))
  }

  // ---------------------------------------------------------------------------
  // Lemmas

  lemma NormalStepNormal(stack: seq<string>, n: string, absolute: bool)
    requires IsNormal(stack, absolute)
    ensures IsNormal(NormalStep(stack, n, absolute), absolute)
  {
    var r := NormalStep(stack, n, absolute);
    if n != "." && n != ".." {
      assert r == stack + [n];
      forall i, j | 0 <= i < j < |r| && r[i] != ".." ensures r[j] != ".." {
        if j < |stack| {
          assert r[i] == stack[i] && r[j] == stack[j];
        }
      }
    } else if n == ".." && |stack| > 0 && stack[|stack| - 1] != ".." {
      assert forall i :: 0 <= i < |r| ==> r[i] == stack[i];
    } else if n == ".." && !absolute {
      assert r == stack + [".."];
      assert stack == [] || stack[|stack| - 1] == "..";
    }
  }

  lemma {:induction false} NormalNamesAreNormal(names: seq<string>, absolute: bool)
    ensures IsNormal(NormalNames(names, absolute), absolute)
    decreases |names|
  {
    if names != [] {
      NormalNamesAreNormal(names[..|names| - 1], absolute);
      NormalStepNormal(NormalNames(names[..|names| - 1], absolute), names[|names| - 1], absolute);
    }
  }

  /** On a normal sequence, a step with a plain name just appends it. */
  lemma {:induction false} NormalNamesOfNormal(names: seq<string>, absolute: bool)
    requires IsNormal(names, absolute)
    ensures NormalNames(names, absolute) == names
    decreases |names|
  {
    if names != [] {
      var init := names[..|names| - 1];
      var last := names[|names| - 1];
      assert IsNormal(init, absolute) by {
        forall i, j | 0 <= i < j < |init| && init[i] != ".." ensures init[j] != ".." {
          assert names[i] == init[i] && names[j] == init[j];
        }
      }
      NormalNamesOfNormal(init, absolute);
      assert last != ".";
      if last == ".." {
        assert !absolute;
        if |init| > 0 {
          assert names[|init| - 1] == "..";
        }
      }
      assert names == init + [last];
    }
  }

  /** `normalize()` is idempotent. */
  lemma NormalizeIdempotent(p: Path)
    ensures Normalize(Normalize(p)) == Normalize(p)
  {
    NormalNamesOfNormal(Normalize(p).names, p.absolute);
  }

  lemma {:induction false} NonEmptyOfNames(names: seq<string>)
    requires forall i :: 0 <= i < |names| ==> names[i] != []
    ensures NonEmpty(names) == names
  {
    if names != [] {
      NonEmptyOfNames(names[1..]);
    }
  }

  lemma JoinSeparatorFree(parts: seq<string>)
    requires |parts| >= 1
    requires forall k :: 0 <= k < |parts| ==> !ContainsChar(parts[k], FileSeparator)
    ensures Split(Join(parts, FileSeparator), FileSeparator) == parts
  {
    SplitJoin(parts, FileSeparator);
  }

  /** Round trip: parsing a rendered path gives the path back. */
  lemma ParseRender(p: Path)
    requires ValidPath(p)
    ensures Parse(Render(p)) == p
  {
    var j := Join(p.names, FileSeparator);
    var s := Render(p);
    var pieces := if p.names == [] then [[]] else p.names;
    assert Split(j, FileSeparator) == pieces by {
      if p.names != [] {
        JoinSeparatorFree(p.names);
      }
    }
    assert NonEmpty(pieces) == p.names by {
      NonEmptyOfNames(p.names);
    }
    if p.absolute {
      assert s == [FileSeparator] + j;
      assert s[0] == FileSeparator;
      assert Split(s, FileSeparator) == [[]] + pieces by {
        assert s[1..] == j;
      }
      assert ([[]] + pieces)[1..] == pieces;
    } else {
      assert s == j;
      if p.names != [] {
        assert p.names[0] != [];
        assert s[..|p.names[0]|] == p.names[0] by {
          SplitSeparatorFreePrefix(p.names);
        }
      }
    }
  }

  /** A rendered relative path starts with its first name. */
  lemma SplitSeparatorFreePrefix(names: seq<string>)
    requires |names| >= 1
    ensures |Join(names, FileSeparator)| >= |names[0]|
    ensures Join(names, FileSeparator)[..|names[0]|] == names[0]
  {
    if |names| > 1 {
      assert Join(names, FileSeparator) == names[0] + ([FileSeparator] + Join(names[1..], FileSeparator));
    }
  }

  /** Resolving a relative path keeps the base as a prefix and appends the names. */
  lemma ResolveAssociative(a: Path, b: Path, c: Path)
    requires !b.absolute && !c.absolute
    ensures Resolve(Resolve(a, b), c) == Resolve(a, Resolve(b, c))
  {
    assert (a.names + b.names) + c.names == a.names + (b.names + c.names);
  }

  /** The file name of a resolved single name is that name. */
  lemma FileNameOfResolve(base: Path, n: string)
    requires IsName(n)
    ensures Resolve(base, Parse(n)).names == base.names + [n]
    ensures FileName(Resolve(base, Parse(n))) == Some(n)
  {
    ParseName(n);
  }

  /** `Paths.get` of a single name is that one relative name. */
  lemma ParseName(n: string)
    requires IsName(n)
    ensures Parse(n) == Path(false, [n])
  {
    SplitSeparatorFree(n, [], FileSeparator);
    assert n + [] == n;
    assert Split([], FileSeparator) == [[]];
    assert NonEmpty([n]) == [n];
  }

  /** `Paths.get("")` is the empty relative path, which names the working directory. */
  lemma ParseEmpty(s: string)
    requires s == ""
    ensures Parse(s) == Path(false, [])
  {
    assert Split(s, FileSeparator) == [[]];
    assert NonEmpty([[]]) == [];
  }

  /** A working-directory-relative path and its absolute form name the same file. */
  lemma CanonicalOfRelative(cwd: Path, p: Path)
    requires cwd.absolute && !p.absolute
    ensures Canonical(cwd, p) == Canonical(cwd, Resolve(cwd, p))
  {
  }

  /** A leading `.` does not change the canonical form. */
  lemma {:induction false} NormalNamesDot(names: seq<string>, absolute: bool, prefix: seq<string>)
    ensures NormalNames(prefix + ["."] + names, absolute) == NormalNames(prefix + names, absolute)
    decreases |names|
  {
    if names == [] {
      assert prefix + ["."] + names == prefix + ["."];
      assert (prefix + ["."])[..|prefix|] == prefix;
      assert prefix + names == prefix;
    } else {
      var init := names[..|names| - 1];
      var last := names[|names| - 1];
      NormalNamesDot(init, absolute, prefix);
      assert (prefix + ["."] + names)[..|prefix + ["."] + names| - 1] == prefix + ["."] + init;
      assert (prefix + names)[..|prefix + names| - 1] == prefix + init;
    }
  }
}
