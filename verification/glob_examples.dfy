/**
  Worked patterns of the include and exclude filters: the behaviour the
  matcher's comments and tests describe, derived from the general lemmas.
*/
module GlobExamples {
  import opened Strings
  import opened Glob

  /** `*.txt` is a plain pattern: a run followed by the word `.txt`. */
  lemma StarDotTxtShape(p: string, w: string)
    requires p == "*.txt" && w == ".txt"
    ensures IsPlainPattern(p) && |p| >= 1 && p[0] == '*' && p[1..] == w
    ensures NoWildcards(w) && !EndsWith(p, ".")
  {
  }

  /** `*.txt` accepts `a.txt`. */
  lemma StarDotTxtAcceptsName(p: string, w: string, n: string)
    requires p == "*.txt" && w == ".txt" && n == "a.txt"
    ensures IsPlainPattern(p) && GlobMatches(p, n)
  {
    StarDotTxtShape(p, w);
    SuffixPattern(p, w, n);
    assert n[1..] == w && n[..1] == "a";
  }

  /** `*.txt` accepts `.txt`: the run may be empty. */
  lemma StarDotTxtAcceptsBare(p: string, w: string, n: string)
    requires p == "*.txt" && w == ".txt" && n == ".txt"
    ensures IsPlainPattern(p) && GlobMatches(p, n)
  {
    StarDotTxtShape(p, w);
    SuffixPattern(p, w, n);
    assert n[0..] == w;
  }

  /** `*.txt` rejects `a.txtx`: the match is anchored at the end. */
  lemma StarDotTxtRejects(p: string, w: string, n: string)
    requires p == "*.txt" && w == ".txt" && n == "a.txtx"
    ensures IsPlainPattern(p) && !GlobMatches(p, n)
  {
    StarDotTxtShape(p, w);
    SuffixPattern(p, w, n);
    assert n[2..][3] == 'x' && w[3] == 't';
  }

  /** `a?c` translates to a literal, an optional character and a literal. */
  lemma QuestionMarkShape(p: string)
    requires p == "a?c"
    ensures IsPlainPattern(p) && TrimTrailingDot(p) == p
    ensures Translate(p) == [Literal('a'), AnyOptional, Literal('c')]
  {
    assert !EndsWith(p, ".");
  }

  /** `a?c` accepts `ac` and `abc`, and rejects `abbc`: `?` stands for at most one character. */
  lemma QuestionMark(p: string, a: string, b: string, c: string)
    requires p == "a?c" && a == "ac" && b == "abc" && c == "abbc"
    ensures IsPlainPattern(p)
    ensures GlobMatches(p, a) && GlobMatches(p, b) && !GlobMatches(p, c)
  {
    QuestionMarkShape(p);
    OptionalBetween('a', 'c', a);
    OptionalBetween('a', 'c', b);
    OptionalBetween('a', 'c', c);
    assert a == ['a', 'c'];
    assert IsAnyChar(b[1]);
  }

  /** `report.` accepts exactly the names that `report` accepts, which is `report` alone. */
  lemma ReportDot(p: string, n: string)
    requires p == "report"
    ensures IsPlainPattern(p + ".") && IsPlainPattern(p)
    ensures GlobMatches(p + ".", n) <==> GlobMatches(p, n)
    ensures GlobMatches(p, n) <==> n == p
  {
    assert !EndsWith(p, ".");
    TrailingDotIgnored(p, n);
    LiteralPattern(p, n);
  }
}
