/**
  The few java.lang.String operations the archiver relies on, over Dafny's
  `string` (a sequence of Unicode scalar values).

  Case mapping follows Java in the root locale. `UpperString` is exact on every
  character whose upper-case form is pure ASCII (the Latin letters, the dotless
  i, the long s, the sharp s and the Latin ligatures U+FB00..U+FB06); any other
  non-ASCII character is kept unchanged. Java maps such a character to a string
  that is again not ASCII, so the two agree on whether the result can equal an
  ASCII word, which is the only use the program makes of them.
*/
module Strings {

  /** `File.separator` on the Unix hosts this model describes. */
  const FileSeparator: char := '/'

  predicate IsAscii(c: char) {
    c as int < 128
  }

  predicate AllAscii(s: string) {
    forall i :: 0 <= i < |s| ==> IsAscii(s[i])
  }

  /** Upper-case ASCII letters and the dash: the alphabet of every switch form. */
  predicate IsFormChar(c: char) {
    c == '-' || 'A' <= c <= 'Z'
  }

  predicate IsFormWord(s: string) {
    forall i :: 0 <= i < |s| ==> IsFormChar(s[i])
  }

  /** `Character.toUpperCase` on the characters whose upper case is ASCII. */
  function UpperChar(c: char): (u: char)
    ensures IsAscii(c) ==> IsAscii(u) && !('a' <= u <= 'z')
    ensures 'a' <= c <= 'z' ==> u as int == c as int - 32
  {
    if 'a' <= c <= 'z' then (c as int - 32) as char
    else if c == '\U{0131}' then 'I'   // dotless i
    else if c == '\U{017F}' then 'S'   // long s
    else c
  }

  /** `Character.toLowerCase` on the characters whose lower case is ASCII. */
  function LowerChar(c: char): (l: char)
    ensures 'A' <= c <= 'Z' ==> l as int == c as int + 32
    ensures IsAscii(c) && !('A' <= c <= 'Z') ==> l == c
  {
    if 'A' <= c <= 'Z' then (c as int + 32) as char
    else if c == '\U{0130}' then 'i'   // capital I with dot above
    else if c == '\U{212A}' then 'k'   // Kelvin sign
    else c
  }

  /**
    The full upper-case mapping of one character as `String.toUpperCase`
    applies it: a few characters expand to two or three letters.
  */
  function UpperExpansion(c: char): (r: string)
    ensures 1 <= |r| <= 3
    ensures IsAscii(c) ==> r == [UpperChar(c)]
  {
    if c == '\U{00DF}' then "SS"        // sharp s
    else if c == '\U{FB00}' then "FF"
    else if c == '\U{FB01}' then "FI"
    else if c == '\U{FB02}' then "FL"
    else if c == '\U{FB03}' then "FFI"
    else if c == '\U{FB04}' then "FFL"
    else if c == '\U{FB05}' then "ST"
    else if c == '\U{FB06}' then "ST"
    else [UpperChar(c)]
  }

  /** `String.toUpperCase()` */
  function UpperString(s: string): (r: string)
    ensures |r| >= |s|
  {
    if s == [] then [] else UpperExpansion(s[0]) + UpperString(s[1..])
  }

  /**
    One character position of `String.equalsIgnoreCase`: equal, or equal after
    upper-casing, or equal after upper- then lower-casing.
  */
  predicate CharEqualsIgnoreCase(a: char, b: char) {
    || a == b
    || UpperChar(a) == UpperChar(b)
    || LowerChar(UpperChar(a)) == LowerChar(UpperChar(b))
  }

  /** `String.equalsIgnoreCase`: same length, and equal position by position. */
  predicate EqualsIgnoreCase(a: string, b: string) {
    |a| == |b| && forall i :: 0 <= i < |a| ==> CharEqualsIgnoreCase(a[i], b[i])
  }

  predicate StartsWith(s: string, prefix: string) {
    |prefix| <= |s| && s[..|prefix|] == prefix
  }

  predicate EndsWith(s: string, suffix: string) {
    |suffix| <= |s| && s[|s| - |suffix|..] == suffix
  }

  predicate ContainsChar(s: string, c: char) {
    exists i :: 0 <= i < |s| && s[i] == c
  }

  /** `s.trim().isEmpty()`: `trim` removes every character up to U+0020 at both ends. */
  predicate IsBlank(s: string) {
    forall i :: 0 <= i < |s| ==> s[i] <= ' '
  }

  /** `String.join` with a one-character delimiter. */
  function Join(parts: seq<string>, sep: char): string {
    if |parts| == 0 then []
    else if |parts| == 1 then parts[0]
    else parts[0] + [sep] + Join(parts[1..], sep)
  }

  /** Splits at every occurrence of `sep`, keeping empty pieces; the inverse of `Join`. */
  function Split(s: string, sep: char): (r: seq<string>)
    ensures |r| >= 1
    ensures forall k :: 0 <= k < |r| ==> !ContainsChar(r[k], sep)
  {
    if s == [] then [[]]
    else
      var rest := Split(s[1..], sep);
      if s[0] == sep then [[]] + rest else [[s[0]] + rest[0]] + rest[1..]
  }

  function DigitChar(d: nat): char
    requires d < 10
  {
    ('0' as int + d) as char
  }

  /** Decimal digits of a natural number, most significant first, no leading zero. */
  function NatToString(n: nat): (r: string)
    ensures |r| >= 1
    ensures forall i :: 0 <= i < |r| ==> '0' <= r[i] <= '9'
    decreases n
  {
    if n < 10 then [DigitChar(n)] else NatToString(n / 10) + [DigitChar(n % 10)]
  }

  /** `Long.toString`: a leading minus for negative values. */
  function IntToString(i: int): string {
    if i < 0 then "-" + NatToString(-i) else NatToString(i)
  }

  /** Left-pads with zeros up to `width` characters. */
  function ZeroPad(s: string, width: nat): (r: string)
    ensures |r| == if |s| >= width then |s| else width
    ensures EndsWith(r, s)
  {
    if |s| >= width then s else seq(width - |s|, _ => '0') + s
  }

  /** Value of a string of decimal digits. */
  function DigitsValue(s: string): nat
    requires forall i :: 0 <= i < |s| ==> '0' <= s[i] <= '9'
  {
    if s == [] then 0
    else DigitsValue(s[..|s| - 1]) * 10 + (s[|s| - 1] as int - '0' as int)
  }

  // ---------------------------------------------------------------------------
  // Lemmas

  /** On ASCII text, upper-casing is character by character. */
  lemma {:induction false} UpperStringAscii(s: string)
    requires AllAscii(s)
    ensures |UpperString(s)| == |s|
    ensures forall i :: 0 <= i < |s| ==> UpperString(s)[i] == UpperChar(s[i])
  {
    if s != [] {
      UpperStringAscii(s[1..]);
    }
  }

  /** Upper-casing distributes over concatenation. */
  lemma {:induction false} UpperStringAppend(a: string, b: string)
    ensures UpperString(a + b) == UpperString(a) + UpperString(b)
  {
    if a != [] {
      assert (a + b)[1..] == a[1..] + b;
      UpperStringAppend(a[1..], b);
    } else {
      assert a + b == b;
    }
  }

  /**
    Against a word of upper-case letters and dashes, an ASCII string is equal
    ignoring case exactly when its upper-case form is that word.
  */
  lemma EqualsIgnoreCaseFormWord(f: string, t: string)
    requires IsFormWord(f) && AllAscii(t)
    ensures EqualsIgnoreCase(f, t) <==> UpperString(t) == f
  {
    UpperStringAscii(t);
    if EqualsIgnoreCase(f, t) {
      forall i | 0 <= i < |t|
        ensures UpperString(t)[i] == f[i]
      {
        assert CharEqualsIgnoreCase(f[i], t[i]);
      }
    }
    if UpperString(t) == f {
      forall i | 0 <= i < |f|
        ensures CharEqualsIgnoreCase(f[i], t[i])
      {
        assert UpperChar(t[i]) == f[i];
      }
    }
  }

  /** Two form words that one ASCII string equals ignoring case are the same word. */
  lemma EqualsIgnoreCaseFormUnique(f: string, g: string, t: string)
    requires IsFormWord(f) && IsFormWord(g) && AllAscii(t)
    requires EqualsIgnoreCase(f, t) && EqualsIgnoreCase(g, t)
    ensures f == g
  {
    EqualsIgnoreCaseFormWord(f, t);
    EqualsIgnoreCaseFormWord(g, t);
  }

  /** A form word equals itself ignoring case. */
  lemma EqualsIgnoreCaseReflexive(s: string)
    ensures EqualsIgnoreCase(s, s)
  {
  }

  /** An ASCII form word is its own upper-case form. */
  lemma UpperStringFormWord(f: string)
    requires IsFormWord(f)
    ensures UpperString(f) == f
  {
    assert AllAscii(f) by {
      forall i | 0 <= i < |f| ensures IsAscii(f[i]) {
        assert IsFormChar(f[i]);
      }
    }
    UpperStringAscii(f);
  }

  /** Splitting a string that starts with a separator-free piece. */
  lemma {:induction false} SplitSeparatorFree(a: string, t: string, sep: char)
    requires !ContainsChar(a, sep)
    ensures Split(a + t, sep) == [a + Split(t, sep)[0]] + Split(t, sep)[1..]
  {
    if a != [] {
      assert (a + t)[1..] == a[1..] + t;
      assert !ContainsChar(a[1..], sep) by {
        forall i | 0 <= i < |a[1..]| ensures a[1..][i] != sep {
          assert a[1..][i] == a[i + 1];
        }
      }
      SplitSeparatorFree(a[1..], t, sep);
      assert a[0] != sep;
      assert [a[0]] + (a[1..] + Split(t, sep)[0]) == a + Split(t, sep)[0];
    } else {
      assert a + t == t;
      assert a + Split(t, sep)[0] == Split(t, sep)[0];
    }
  }

  /** Round trip: splitting a join of separator-free pieces gives the pieces back. */
  lemma {:induction false} SplitJoin(parts: seq<string>, sep: char)
    requires |parts| >= 1
    requires forall k :: 0 <= k < |parts| ==> !ContainsChar(parts[k], sep)
    ensures Split(Join(parts, sep), sep) == parts
  {
    if |parts| == 1 {
      SplitSeparatorFree(parts[0], [], sep);
      assert parts[0] + [] == parts[0];
    } else {
      var rest := Join(parts[1..], sep);
      assert Join(parts, sep) == parts[0] + ([sep] + rest);
      SplitSeparatorFree(parts[0], [sep] + rest, sep);
      assert ([sep] + rest)[1..] == rest;
      SplitJoin(parts[1..], sep);
      assert parts[0] + [] == parts[0];
    }
  }

  /** Round trip: joining the pieces of a split restores the string. */
  lemma {:induction false} JoinSplit(s: string, sep: char)
    ensures Join(Split(s, sep), sep) == s
  {
    if s != [] {
      var rest := Split(s[1..], sep);
      JoinSplit(s[1..], sep);
      if s[0] == sep {
        assert Split(s, sep) == [[]] + rest;
        assert ([[]] + rest)[1..] == rest;
      } else {
        var r := [[s[0]] + rest[0]] + rest[1..];
        assert Split(s, sep) == r;
        if |rest| == 1 {
          assert s == [s[0]] + s[1..];
        } else {
          assert r[1..] == rest[1..];
          assert Join(rest, sep) == rest[0] + [sep] + Join(rest[1..], sep);
          assert s == [s[0]] + s[1..];
        }
      }
    }
  }

  /** Decimal rendering round-trips through `DigitsValue`. */
  lemma {:induction false} NatToStringValue(n: nat)
    ensures DigitsValue(NatToString(n)) == n
    decreases n
  {
    if n >= 10 {
      NatToStringValue(n / 10);
      var s := NatToString(n);
      assert s[..|s| - 1] == NatToString(n / 10);
    }
  }
}
