/**
  The file-name patterns of the include and exclude filters
  (`filterByPatterns` and `filter` in DirectoryZipper.java).

  A pattern is turned into a Java regular expression: one trailing `.` is
  dropped, every `.` becomes a literal dot, every `?` becomes `.?` and every
  `*` becomes `.*?`, and the whole name must match. So `?` stands for zero or
  one character and `*` for any run of characters, where "character" is any
  character but a line terminator, as `.` is in Java without DOTALL.
*/
module Glob {
  import opened Strings

  // ---------------------------------------------------------------------------
  // Patterns as regular expressions

  /** One element of a translated pattern. */
  datatype Atom =
    | Literal(c: char)   // the character itself (`.` escaped to `\.`, and every plain letter)
    | AnyOptional        // `.?`
    | AnyRun             // `.*?`

  /** Java's line terminators, which the regex `.` does not match. */
  predicate IsLineTerminator(c: char) {
    c == '\n' || c == '\r' || c == '\U{0085}' || c == '\U{2028}' || c == '\U{2029}'
  }

  /** A character the regex `.` matches. */
  predicate IsAnyChar(c: char) {
    !IsLineTerminator(c)
  }

  predicate AllAnyChars(s: string) {
    forall i :: 0 <= i < |s| ==> IsAnyChar(s[i])
  }

  /**
    The characters a pattern may use in this model: everything except the
    regular-expression metacharacters that the translation leaves unescaped.
  */
  predicate IsPlainPattern(p: string) {
    forall i :: 0 <= i < |p| ==> !IsRegexMeta(p[i])
  }

  /** The metacharacters of `java.util.regex` other than `.`, `?` and `*`. */
  predicate IsRegexMeta(c: char) {
    c == '\\' || c == '^' || c == '$' || c == '|' || c == '+'
    || c == '(' || c == ')' || c == '[' || c == ']' || c == '{' || c == '}'
  }

  /** One trailing `.` is removed before translation. */
  function TrimTrailingDot(p: string): (r: string)
    ensures |r| == if EndsWith(p, ".") then |p| - 1 else |p|
    ensures r == p[..|r|]
  {
    if EndsWith(p, ".") then p[..|p| - 1] else p
  }

  /** The three `replace` calls, character by character. */
  function Translate(p: string): (r: seq<Atom>)
    ensures |r| == |p|
    ensures forall i :: 0 <= i < |p| ==>
      r[i] == (if p[i] == '?' then AnyOptional else if p[i] == '*' then AnyRun else Literal(p[i]))
  {
    if p == [] then []
    else
      var a := if p[0] == '?' then AnyOptional else if p[0] == '*' then AnyRun else Literal(p[0]);
      [a] + Translate(p[1..])
  }

  /** The number of literal atoms: each needs a character of its own. */
  function LiteralCount(atoms: seq<Atom>): nat {
    if atoms == [] then 0 else (if atoms[0].Literal? then 1 else 0) + LiteralCount(atoms[1..])
  }

  /** `Pattern.matches(regex, s)`: the whole of `s` matches the atoms. */
  predicate Match(atoms: seq<Atom>, s: string)
    decreases |atoms| + |s|
  {
    if atoms == [] then s == []
    else match atoms[0]
      case Literal(c) => s != [] && s[0] == c && Match(atoms[1..], s[1..])
      case AnyOptional =>
        || Match(atoms[1..], s)
        || (s != [] && IsAnyChar(s[0]) && Match(atoms[1..], s[1..]))
      case AnyRun =>
        || Match(atoms[1..], s)
        || (s != [] && IsAnyChar(s[0]) && Match(atoms, s[1..]))
  }

  /** The lambda of `filterByPatterns`: does `name` match `pattern`? */
  predicate GlobMatches(pattern: string, name: string): (r: bool)
    requires IsPlainPattern(pattern)
    ensures NoWildcards(pattern) ==> (r <==> name == TrimTrailingDot(pattern))
  {
    LiteralGlob(pattern, name);
    Match(Translate(TrimTrailingDot(pattern)), name)
  }

  /** Does some pattern of the set match `name`? No pattern matches nothing, and `*` every name without a line terminator. */
  predicate AnyMatches(patterns: set<string>, name: string): (r: bool)
    requires forall p | p in patterns :: IsPlainPattern(p)
    ensures patterns == {} ==> !r
    ensures "*" in patterns && AllAnyChars(name) ==> r
  {
    StarPattern(name);
    exists p :: p in patterns && GlobMatches(p, name)
  }

  /** `filterByPatterns`: the names that some pattern matches. */
  function FilterByPatterns(names: set<string>, patterns: set<string>): (r: set<string>)
    requires forall p | p in patterns :: IsPlainPattern(p)
    ensures r <= names
    ensures patterns == {} ==> r == {}
    ensures forall n | n in names :: n in r <==> AnyMatches(patterns, n)
  {
    set n | n in names && AnyMatches(patterns, n)
  }

  /** `INCLUDE_DEFAULT` */
  const IncludeDefault: set<string> := {"*"}

  /** `EXCLUDE_DEFAULT` */
  const ExcludeDefault: set<string> := {}

  /**
    `filter`: the names of the regular files in a folder that the include
    patterns select, less those the exclude patterns select. The default sets
    skip the matcher: `{"*"}` includes every name, `{}` excludes none.
  */
  function Filter(names: set<string>, includes: set<string>, excludes: set<string>): (r: set<string>)
    requires forall p | p in includes :: IsPlainPattern(p)
    requires forall p | p in excludes :: IsPlainPattern(p)
    ensures r <= names
    ensures forall n | n in r :: includes == IncludeDefault || AnyMatches(includes, n)
    ensures forall n | n in r :: !AnyMatches(excludes, n)
  {
    var included := if includes == IncludeDefault then names else FilterByPatterns(names, includes);
    var excluded := if excludes == ExcludeDefault then ExcludeDefault else FilterByPatterns(names, excludes);
    included - excluded
  }

  // ---------------------------------------------------------------------------
  // A declarative reading of the matcher

  /** What one atom accepts on its own. */
  predicate Accepts(a: Atom, w: string) {
    match a
    case Literal(c) => w == [c]
    case AnyOptional => |w| <= 1 && AllAnyChars(w)
    case AnyRun => AllAnyChars(w)
  }

  function Concat(parts: seq<string>): string {
    if parts == [] then [] else parts[0] + Concat(parts[1..])
  }

  /** `parts` splits a name into one piece per atom, each accepted by its atom. */
  predicate Spans(atoms: seq<Atom>, parts: seq<string>) {
    |parts| == |atoms| && forall i :: 0 <= i < |atoms| ==> Accepts(atoms[i], parts[i])
  }

  lemma SpansTail(atoms: seq<Atom>, parts: seq<string>)
    requires |atoms| >= 1 && Spans(atoms, parts)
    ensures Spans(atoms[1..], parts[1..])
  {
    forall i | 0 <= i < |atoms| - 1
      ensures Accepts(atoms[1..][i], parts[1..][i])
    {
      assert Accepts(atoms[i + 1], parts[i + 1]);
    }
  }

  lemma SpansCons(a: Atom, atoms: seq<Atom>, w: string, parts: seq<string>)
    requires Accepts(a, w) && Spans(atoms, parts)
    ensures Spans([a] + atoms, [w] + parts)
  {
    forall i | 0 <= i < |atoms| + 1
      ensures Accepts(([a] + atoms)[i], ([w] + parts)[i])
    {
      if i > 0 {
        assert ([a] + atoms)[i] == atoms[i - 1];
        assert ([w] + parts)[i] == parts[i - 1];
      }
    }
  }

  lemma ConcatCons(w: string, parts: seq<string>)
    ensures Concat([w] + parts) == w + Concat(parts)
  {
    assert ([w] + parts)[1..] == parts;
  }

  /** Soundness: a match splits the name into pieces the atoms accept. */
  lemma {:induction false} MatchSpans(atoms: seq<Atom>, s: string) returns (parts: seq<string>)
    requires Match(atoms, s)
    ensures Spans(atoms, parts) && Concat(parts) == s
    decreases |atoms| + |s|
  {
    if atoms == [] {
      parts := [];
      return;
    }
    var rest := atoms[1..];
    assert atoms == [atoms[0]] + rest;
    match atoms[0]
    case Literal(c) =>
      var p := MatchSpans(rest, s[1..]);
      parts := [[c]] + p;
      SpansCons(atoms[0], rest, [c], p);
      ConcatCons([c], p);
      assert s == [c] + s[1..];
    case AnyOptional =>
      if Match(rest, s) {
        var p := MatchSpans(rest, s);
        parts := [[]] + p;
        SpansCons(atoms[0], rest, [], p);
        ConcatCons([], p);
      } else {
        var p := MatchSpans(rest, s[1..]);
        parts := [[s[0]]] + p;
        SpansCons(atoms[0], rest, [s[0]], p);
        ConcatCons([s[0]], p);
        assert s == [s[0]] + s[1..];
      }
    case AnyRun =>
      if Match(rest, s) {
        var p := MatchSpans(rest, s);
        parts := [[]] + p;
        SpansCons(atoms[0], rest, [], p);
        ConcatCons([], p);
      } else {
        var p := MatchSpans(atoms, s[1..]);
        var w := [s[0]] + p[0];
        parts := [w] + p[1..];
        assert Accepts(AnyRun, p[0]);
        assert AllAnyChars(w) by {
          forall i | 0 <= i < |w| ensures IsAnyChar(w[i]) {
            if i > 0 { assert w[i] == p[0][i - 1]; }
          }
        }
        SpansTail(atoms, p);
        SpansCons(atoms[0], rest, w, p[1..]);
        ConcatCons(w, p[1..]);
        ConcatCons(p[0], p[1..]);
        assert p == [p[0]] + p[1..];
        assert s == [s[0]] + s[1..];
      }
  }

  /** Completeness: pieces the atoms accept always concatenate to a match. */
  lemma {:induction false} SpansMatch(atoms: seq<Atom>, parts: seq<string>)
    requires Spans(atoms, parts)
    ensures Match(atoms, Concat(parts))
    decreases |atoms| + |Concat(parts)|
  {
    if atoms == [] {
      return;
    }
    var rest := atoms[1..];
    var s := Concat(parts);
    var t := Concat(parts[1..]);
    assert parts == [parts[0]] + parts[1..];
    ConcatCons(parts[0], parts[1..]);
    assert s == parts[0] + t;
    SpansTail(atoms, parts);
    match atoms[0]
    case Literal(c) =>
      SpansMatch(rest, parts[1..]);
      assert s[1..] == t;
    case AnyOptional =>
      SpansMatch(rest, parts[1..]);
      if parts[0] != [] {
        assert s[1..] == t;
      } else {
        assert s == t;
      }
    case AnyRun =>
      if parts[0] == [] {
        assert s == t;
        SpansMatch(rest, parts[1..]);
      } else {
        var shorter := [parts[0][1..]] + parts[1..];
        assert Spans(atoms, shorter) by {
          forall i | 0 <= i < |atoms| ensures Accepts(atoms[i], shorter[i]) {
            if i == 0 {
              assert AllAnyChars(parts[0][1..]) by {
                forall k | 0 <= k < |parts[0][1..]| ensures IsAnyChar(parts[0][1..][k]) {
                  assert parts[0][1..][k] == parts[0][k + 1];
                }
              }
            } else {
              assert shorter[i] == parts[i];
            }
          }
        }
        ConcatCons(parts[0][1..], parts[1..]);
        assert s[1..] == Concat(shorter);
        assert IsAnyChar(parts[0][0]);
        SpansMatch(atoms, shorter);
      }
  }

  /** The matcher accepts exactly the names that split into pieces its atoms accept. */
  lemma MatchIffSpans(atoms: seq<Atom>, s: string)
    ensures Match(atoms, s) <==> exists parts :: Spans(atoms, parts) && Concat(parts) == s
  {
    if Match(atoms, s) {
      var parts := MatchSpans(atoms, s);
    }
    if exists parts :: Spans(atoms, parts) && Concat(parts) == s {
      var parts :| Spans(atoms, parts) && Concat(parts) == s;
      SpansMatch(atoms, parts);
    }
  }

  // ---------------------------------------------------------------------------
  // Properties of patterns

  /** A pattern without wildcards. */
  predicate NoWildcards(p: string) {
    forall i :: 0 <= i < |p| ==> p[i] != '?' && p[i] != '*'
  }

  /** Without wildcards a pattern translates to its own characters, and matches only itself. */
  lemma {:induction false} LiteralMatchIff(w: string, s: string)
    requires NoWildcards(w)
    ensures Match(Translate(w), s) <==> s == w
    decreases |w|
  {
    if w != [] {
      assert NoWildcards(w[1..]) by {
        forall i | 0 <= i < |w[1..]| ensures w[1..][i] != '?' && w[1..][i] != '*' {
          assert w[1..][i] == w[i + 1];
        }
      }
      assert Translate(w)[1..] == Translate(w[1..]);
      if s != [] {
        LiteralMatchIff(w[1..], s[1..]);
        assert s == [s[0]] + s[1..];
        assert w == [w[0]] + w[1..];
      }
    }
  }

  /**
    A match spends one character on each literal, and without a run at most
    one character on each atom.
  */
  lemma {:induction false} MatchLength(atoms: seq<Atom>, s: string)
    requires Match(atoms, s)
    ensures LiteralCount(atoms) <= |s|
    ensures AnyRun !in atoms ==> |s| <= |atoms|
    decreases |atoms| + |s|
  {
    if atoms != [] {
      assert atoms == [atoms[0]] + atoms[1..];
      match atoms[0]
      case Literal(c) =>
        MatchLength(atoms[1..], s[1..]);
      case AnyOptional =>
        if Match(atoms[1..], s) {
          MatchLength(atoms[1..], s);
        } else {
          MatchLength(atoms[1..], s[1..]);
        }
      case AnyRun =>
        if Match(atoms[1..], s) {
          MatchLength(atoms[1..], s);
        } else {
          MatchLength(atoms, s[1..]);
        }
    }
  }

  /** A pattern without wildcards, less one trailing dot, is matched by that text alone. */
  lemma LiteralGlob(pattern: string, name: string)
    ensures NoWildcards(pattern) ==>
      (Match(Translate(TrimTrailingDot(pattern)), name) <==> name == TrimTrailingDot(pattern))
  {
    if NoWildcards(pattern) {
      var w := TrimTrailingDot(pattern);
      assert NoWildcards(w) by {
        forall i | 0 <= i < |w| ensures w[i] != '?' && w[i] != '*' {
          assert w[i] == pattern[i];
        }
      }
      LiteralMatchIff(w, name);
    }
  }

  /** A pattern without wildcards or trailing dot matches exactly the name it spells. */
  lemma LiteralPattern(p: string, s: string)
    requires IsPlainPattern(p) && NoWildcards(p) && !EndsWith(p, ".")
    ensures GlobMatches(p, s) <==> s == p
  {
    LiteralMatchIff(p, s);
  }

  /** `.*?` on its own matches exactly the names free of line terminators. */
  lemma {:induction false} RunMatchIff(s: string)
    ensures Match([AnyRun], s) <==> AllAnyChars(s)
    decreases |s|
  {
    assert [AnyRun][1..] == [];
    if s != [] {
      RunMatchIff(s[1..]);
      if AllAnyChars(s) {
        assert IsAnyChar(s[0]);
        assert AllAnyChars(s[1..]) by {
          forall i | 0 <= i < |s[1..]| ensures IsAnyChar(s[1..][i]) {
            assert s[1..][i] == s[i + 1];
          }
        }
      }
      if Match([AnyRun], s) {
        assert !Match([], s);
        assert IsAnyChar(s[0]) && Match([AnyRun], s[1..]);
        forall i | 0 <= i < |s| ensures IsAnyChar(s[i]) {
          if i > 0 { assert s[i] == s[1..][i - 1]; }
        }
      }
    }
  }

  /** The pattern `*` accepts every name without a line terminator, and no other. */
  lemma StarPattern(s: string)
    ensures IsPlainPattern("*")
    ensures GlobMatches("*", s) <==> AllAnyChars(s)
  {
    assert !EndsWith("*", ".");
    assert Translate("*") == [AnyRun];
    RunMatchIff(s);
  }

  /** One trailing dot is ignored: `p.` and `p` accept the same names when `p` does not end in a dot. */
  lemma TrailingDotIgnored(p: string, s: string)
    requires IsPlainPattern(p) && !EndsWith(p, ".")
    ensures IsPlainPattern(p + ".")
    ensures GlobMatches(p + ".", s) <==> GlobMatches(p, s)
  {
    var q := p + ".";
    assert IsPlainPattern(q) by {
      forall i | 0 <= i < |q| ensures !IsRegexMeta(q[i]) {
        if i < |p| { assert q[i] == p[i]; }
      }
    }
    assert EndsWith(q, ".") by {
      assert q[|q| - 1..] == ".";
    }
    assert q[..|q| - 1] == p;
  }

  /**
    `*` followed by a word without wildcards matches the names that end in that
    word and have no line terminator before it.
  */
  lemma {:induction false} SuffixMatchIff(w: string, s: string)
    requires NoWildcards(w)
    ensures Match([AnyRun] + Translate(w), s) <==>
      EndsWith(s, w) && AllAnyChars(s[..|s| - |w|])
    decreases |s|
  {
    var atoms := [AnyRun] + Translate(w);
    assert atoms[1..] == Translate(w);
    LiteralMatchIff(w, s);
    if s == [] {
      if Match(atoms, s) {
        assert s == w;
      }
    } else {
      SuffixMatchIff(w, s[1..]);
      var tail := s[1..];
      if |w| <= |tail| {
        assert tail[|tail| - |w|..] == s[|s| - |w|..];
        assert tail[..|tail| - |w|] == s[1..|s| - |w|];
      }
      if Match(atoms, s) && s != w {
        var head := s[..|s| - |w|];
        assert IsAnyChar(s[0]) && Match(atoms, tail);
        assert EndsWith(s, w);
        assert AllAnyChars(head) by {
          forall i | 0 <= i < |head| ensures IsAnyChar(head[i]) {
            if i > 0 { assert head[i] == tail[..|tail| - |w|][i - 1]; }
          }
        }
      }
      if EndsWith(s, w) && AllAnyChars(s[..|s| - |w|]) && s != w {
        var head := s[..|s| - |w|];
        assert IsAnyChar(head[0]);
        assert AllAnyChars(tail[..|tail| - |w|]) by {
          forall i | 0 <= i < |tail| - |w| ensures IsAnyChar(tail[i]) {
            assert tail[i] == head[i + 1];
          }
        }
      }
    }
  }

  /** A pattern `*w` with `w` free of wildcards accepts the names ending in `w`. */
  lemma SuffixPattern(p: string, w: string, n: string)
    requires IsPlainPattern(p) && |p| >= 1 && p[0] == '*' && p[1..] == w
    requires NoWildcards(w) && !EndsWith(p, ".")
    ensures GlobMatches(p, n) <==> EndsWith(n, w) && AllAnyChars(n[..|n| - |w|])
  {
    assert Translate(p) == [AnyRun] + Translate(w);
    SuffixMatchIff(w, n);
  }

  lemma SingleLiteral(c: char, u: string)
    ensures Match([Literal(c)], u) <==> u == [c]
  {
    assert [Literal(c)][1..] == [];
    if u != [] && u[0] == c && u[1..] == [] {
      assert u == [c];
    }
  }

  /**
    A `?` between two literals: the name is the two literals with at most one
    character (not a line terminator) between them.
  */
  lemma OptionalBetween(a: char, c: char, s: string)
    ensures Match([Literal(a), AnyOptional, Literal(c)], s) <==>
      s == [a, c] || (|s| == 3 && s[0] == a && IsAnyChar(s[1]) && s[2] == c)
  {
    var atoms := [Literal(a), AnyOptional, Literal(c)];
    assert atoms[1..] == [AnyOptional, Literal(c)];
    assert atoms[1..][1..] == [Literal(c)];
    if s != [] {
      var t := s[1..];
      SingleLiteral(c, t);
      if t != [] {
        SingleLiteral(c, t[1..]);
        if t[1..] == [c] {
          assert |s| == 3 && s[1] == t[0] && s[2] == c;
        }
        if |s| == 3 {
          assert t[1..] == [s[2]];
        }
      }
      if s == [a, c] {
        assert t == [c];
      }
      if t == [c] {
        assert s == [s[0], c];
      }
    }
  }

  // ---------------------------------------------------------------------------
  // Properties of the filters

  /** Filtering by a union of pattern sets is the union of the filters. */
  lemma FilterByPatternsUnion(names: set<string>, ps: set<string>, qs: set<string>)
    requires forall p | p in ps :: IsPlainPattern(p)
    requires forall p | p in qs :: IsPlainPattern(p)
    ensures FilterByPatterns(names, ps + qs) == FilterByPatterns(names, ps) + FilterByPatterns(names, qs)
  {
    var l := FilterByPatterns(names, ps + qs);
    var r := FilterByPatterns(names, ps) + FilterByPatterns(names, qs);
    forall n | n in l ensures n in r {
      var p :| p in ps + qs && GlobMatches(p, n);
    }
  }

  /** The `{"*"}` short-cut keeps every name; the matcher keeps exactly those without line terminators. */
  lemma IncludeDefaultIff(names: set<string>)
    ensures IsPlainPattern("*")
    ensures FilterByPatterns(names, IncludeDefault) == names <==> forall n | n in names :: AllAnyChars(n)
  {
    forall n ensures AnyMatches(IncludeDefault, n) <==> AllAnyChars(n) {
      StarPattern(n);
    }
  }

  /** The `{}` short-cut agrees with the matcher: nothing is excluded. */
  lemma ExcludeDefaultAgrees(names: set<string>)
    ensures FilterByPatterns(names, ExcludeDefault) == ExcludeDefault
  {
  }

  /** The names a filter selects: included by some pattern, and excluded by none. */
  function Selected(names: set<string>, includes: set<string>, excludes: set<string>): set<string>
    requires forall p | p in includes :: IsPlainPattern(p)
    requires forall p | p in excludes :: IsPlainPattern(p)
  {
    set n | n in names && AnyMatches(includes, n) && !AnyMatches(excludes, n)
  }

  /**
    On names without line terminators, `filter` with its short-cuts is the
    plain include-minus-exclude selection.
  */
  lemma FilterIsSelection(names: set<string>, includes: set<string>, excludes: set<string>)
    requires forall p | p in includes :: IsPlainPattern(p)
    requires forall p | p in excludes :: IsPlainPattern(p)
    requires forall n | n in names :: AllAnyChars(n)
    ensures Filter(names, includes, excludes) == Selected(names, includes, excludes)
  {
    IncludeDefaultIff(names);
  }

  /**
    A name passes `filter` exactly when it is one of the folder's names, the
    includes are the `{"*"}` default or one of them matches, and no exclude
    matches.
  */
  lemma FilterMembers(names: set<string>, includes: set<string>, excludes: set<string>, n: string)
    requires forall p | p in includes :: IsPlainPattern(p)
    requires forall p | p in excludes :: IsPlainPattern(p)
    ensures n in Filter(names, includes, excludes) <==>
      n in names && (includes == IncludeDefault || AnyMatches(includes, n)) && !AnyMatches(excludes, n)
  {
  }

  /** A name with a line terminator is kept by the `{"*"}` short-cut though `*` does not match it. */
  lemma IncludeDefaultKeepsLineBreaks(n: string)
    requires !AllAnyChars(n)
    ensures IsPlainPattern("*")
    ensures n in Filter({n}, IncludeDefault, ExcludeDefault)
    ensures !GlobMatches("*", n)
  {
    StarPattern(n);
  }
}
