/**
  The switch registry: the eight options of the `zipp` command, their long and
  short dashed forms, the case-insensitive lookup from a token, and which of
  them take several values.
*/
module Switches {
  import opened Results
  import opened Strings

  datatype Switch =
    | SrcDir | DstDir
    | Include | Exclude
    | DeepInclude | DeepExclude
    | NoRecurse
    | ZipFile

  /** `Switch.values()`, in declaration order. */
  const Values: seq<Switch> :=
    [SrcDir, DstDir, Include, Exclude, DeepInclude, DeepExclude, NoRecurse, ZipFile]

  /** `Enum.name()` */
  function Name(s: Switch): string {
    match s
    case SrcDir => "SRCDIR"
    case DstDir => "DSTDIR"
    case Include => "INCLUDE"
    case Exclude => "EXCLUDE"
    case DeepInclude => "DEEPINCLUDE"
    case DeepExclude => "DEEPEXCLUDE"
    case NoRecurse => "NORECURSE"
    case ZipFile => "ZIPFILE"
  }

  /**
    The short name: two letters for the deep filters and for no-recurse, the
    first letter of the upper-cased name otherwise.
  */
  function ShortName(s: Switch): (r: string)
    ensures |r| >= 1 && r[0] == Name(s)[0]
  {
    // `toUpperCase` leaves the names unchanged (see `NamesAreUpperCase`)
    var name := Name(s);
    if name == "DEEPINCLUDE" then "DI"
    else if name == "DEEPEXCLUDE" then "DE"
    else if name == "NORECURSE" then "NR"
    else name[..1]
  }

  /** `nameDashed()`: a word of capitals behind a dash, longer than any short form. */
  function NameDashed(s: Switch): (r: string)
    ensures IsFormWord(r)
    ensures |r| > 3
  {
    NamesAreUpperCase(s);
    DashedFormWord(Name(s));
    "-" + Name(s)
  }

  /** `shortNameDashed()`: a dash and one or two capitals. */
  function ShortNameDashed(s: Switch): (r: string)
    ensures IsFormWord(r)
    ensures 2 <= |r| <= 3
  {
    ShortNameTable();
    DashedFormWord(ShortName(s));
    "-" + ShortName(s)
  }

  /** `allNamesDashed()`; its eight members are listed by `AllNamesDashedIs`. */
  function AllNamesDashed(): set<string> {
    set s | s in Values :: NameDashed(s)
  }

  /** `allShortNamesDashed()`; its eight members are listed by `AllShortNamesDashedIs`. */
  function AllShortNamesDashed(): set<string> {
    set s | s in Values :: ShortNameDashed(s)
  }

  /** A dash in front of a word of capitals keeps it a word of capitals. */
  lemma DashedFormWord(w: string)
    requires IsFormWord(w)
    ensures IsFormWord("-" + w)
  {
    var r := "-" + w;
    forall i | 0 <= i < |r| ensures IsFormChar(r[i]) {
      if i > 0 {
        assert r[i] == w[i - 1];
      }
    }
  }

  /** Does `str` equal, ignoring case, the long or the short dashed form of `s`? */
  predicate Denotes(s: Switch, str: string) {
    EqualsIgnoreCase(NameDashed(s), str) || EqualsIgnoreCase(ShortNameDashed(s), str)
  }

  /** The first switch of `candidates` that `str` denotes. */
  function FirstDenoted(candidates: seq<Switch>, str: string): (r: Option<Switch>)
    ensures r.Some? ==> r.value in candidates && Denotes(r.value, str)
    ensures r.None? <==> forall k :: 0 <= k < |candidates| ==> !Denotes(candidates[k], str)
  {
    if candidates == [] then None
    else if Denotes(candidates[0], str) then Some(candidates[0])
    else FirstDenoted(candidates[1..], str)
  }

  /** `Switch.correspondingSwitch`: null (`None`) when no switch matches. */
  function CorrespondingSwitch(str: string): (r: Option<Switch>)
    ensures r.Some? ==> Denotes(r.value, str)
    ensures r.None? <==> forall s :: !Denotes(s, str)
  {
    NoneDenoted(str);
    FirstDenoted(Values, str)
  }

  /** No switch of the list is denoted exactly when no switch at all is. */
  lemma NoneDenoted(str: string)
    ensures (forall k :: 0 <= k < |Values| ==> !Denotes(Values[k], str)) <==> (forall s :: !Denotes(s, str))
  {
    if forall k :: 0 <= k < |Values| ==> !Denotes(Values[k], str) {
      forall s ensures !Denotes(s, str) {
        ValuesComplete(s);
        var k :| 0 <= k < |Values| && Values[k] == s;
      }
    }
  }

  /** `isMultiValued`: the four filter switches, whose names are the ones ending in CLUDE (`MultiValuedByName`). */
  predicate IsMultiValued(s: Switch) {
    s.Include? || s.Exclude? || s.DeepInclude? || s.DeepExclude?
  }

  // ---------------------------------------------------------------------------
  // Lemmas

  /** `Values` lists every switch exactly once. */
  lemma ValuesComplete(s: Switch)
    ensures s in Values
    ensures |Values| == 8
    ensures forall i, j :: 0 <= i < j < |Values| ==> Values[i] != Values[j]
  {
  }

  /** Names are upper case already, so the upper-casing in `ShortName` changes nothing. */
  lemma NamesAreUpperCase(s: Switch)
    ensures IsFormWord(Name(s))
    ensures UpperString(Name(s)) == Name(s)
  {
    UpperStringFormWord(Name(s));
  }

  /** Every dashed form is a word of upper-case letters and dashes. */
  lemma FormsAreFormWords(s: Switch)
    ensures IsFormWord(NameDashed(s)) && IsFormWord(ShortNameDashed(s))
  {
    ShortNameTable();
  }

  /** The short names as the switch table lists them. */
  lemma ShortNameTable()
    ensures ShortName(SrcDir) == "S" && ShortName(DstDir) == "D"
    ensures ShortName(Include) == "I" && ShortName(Exclude) == "E"
    ensures ShortName(DeepInclude) == "DI" && ShortName(DeepExclude) == "DE"
    ensures ShortName(NoRecurse) == "NR" && ShortName(ZipFile) == "Z"
  {
  }

  /** The eight long dashed forms. */
  lemma AllNamesDashedIs()
    ensures AllNamesDashed() ==
      {"-SRCDIR", "-DSTDIR", "-INCLUDE", "-EXCLUDE", "-DEEPINCLUDE", "-DEEPEXCLUDE", "-NORECURSE", "-ZIPFILE"}
  {
    assert NameDashed(SrcDir) == "-SRCDIR";
    assert NameDashed(DstDir) == "-DSTDIR";
    assert NameDashed(Include) == "-INCLUDE";
    assert NameDashed(Exclude) == "-EXCLUDE";
    assert NameDashed(DeepInclude) == "-DEEPINCLUDE";
    assert NameDashed(DeepExclude) == "-DEEPEXCLUDE";
    assert NameDashed(NoRecurse) == "-NORECURSE";
    assert NameDashed(ZipFile) == "-ZIPFILE";
  }

  /** The eight short dashed forms. */
  lemma AllShortNamesDashedIs()
    ensures AllShortNamesDashed() == {"-S", "-D", "-I", "-E", "-DI", "-DE", "-NR", "-Z"}
  {
    ShortNameTable();
    assert ShortNameDashed(SrcDir) == "-S";
    assert ShortNameDashed(DstDir) == "-D";
    assert ShortNameDashed(Include) == "-I";
    assert ShortNameDashed(Exclude) == "-E";
    assert ShortNameDashed(DeepInclude) == "-DI";
    assert ShortNameDashed(DeepExclude) == "-DE";
    assert ShortNameDashed(NoRecurse) == "-NR";
    assert ShortNameDashed(ZipFile) == "-Z";
  }

  /** All sixteen dashed forms are distinct. */
  lemma FormsDistinct(s: Switch, t: Switch)
    ensures NameDashed(s) != ShortNameDashed(t)
    ensures s != t ==> NameDashed(s) != NameDashed(t)
    ensures s != t ==> ShortNameDashed(s) != ShortNameDashed(t)
  {
    ShortNameTable();
    var n, m := NameDashed(s), NameDashed(t);
    var ns, ms := ShortNameDashed(s), ShortNameDashed(t);
    if s != t {
      // long forms differ at their second, third or sixth character
      assert n[1] != m[1] || n[2] != m[2] || n[5] != m[5];
      // short forms differ in length or at their second or third character
      assert |ns| != |ms| || ns[1] != ms[1] || ns[|ns| - 1] != ms[|ms| - 1];
    }
    assert |n| > 3 && |ms| <= 3;
  }

  /** No string denotes two different switches, even ignoring case, when it is ASCII. */
  lemma DenotesUniqueAscii(s: Switch, t: Switch, str: string)
    requires AllAscii(str)
    requires Denotes(s, str) && Denotes(t, str)
    ensures s == t
  {
    FormsAreFormWords(s);
    FormsAreFormWords(t);
    FormsDistinct(s, t);
    FormsDistinct(t, s);
    if EqualsIgnoreCase(NameDashed(s), str) {
      if EqualsIgnoreCase(NameDashed(t), str) {
        EqualsIgnoreCaseFormUnique(NameDashed(s), NameDashed(t), str);
      } else {
        EqualsIgnoreCaseFormUnique(NameDashed(s), ShortNameDashed(t), str);
      }
    } else {
      if EqualsIgnoreCase(NameDashed(t), str) {
        EqualsIgnoreCaseFormUnique(ShortNameDashed(s), NameDashed(t), str);
      } else {
        EqualsIgnoreCaseFormUnique(ShortNameDashed(s), ShortNameDashed(t), str);
      }
    }
  }

  /**
    Lookup is exact for ASCII tokens: it finds `s` if and only if the token is
    one of `s`'s two forms ignoring case, and nothing if it is none of the sixteen.
  */
  lemma CorrespondingSwitchSpec(str: string, s: Switch)
    requires AllAscii(str)
    ensures CorrespondingSwitch(str) == Some(s) <==> Denotes(s, str)
    ensures CorrespondingSwitch(str) == None <==> forall t :: !Denotes(t, str)
  {
    var r := CorrespondingSwitch(str);
    if Denotes(s, str) {
      ValuesComplete(s);
      var k :| 0 <= k < |Values| && Values[k] == s;
      assert r.Some?;
      DenotesUniqueAscii(r.value, s, str);
    }
    forall t | Denotes(t, str) ensures r.Some? {
      ValuesComplete(t);
      var k :| 0 <= k < |Values| && Values[k] == t;
    }
  }

  /** Round trip: each switch is found again from either of its dashed forms. */
  lemma CorrespondingSwitchRoundTrip(s: Switch)
    ensures CorrespondingSwitch(NameDashed(s)) == Some(s)
    ensures CorrespondingSwitch(ShortNameDashed(s)) == Some(s)
  {
    FormsAreFormWords(s);
    FormRoundTrip(NameDashed(s), s);
    FormRoundTrip(ShortNameDashed(s), s);
  }

  /** One form word of `s` finds `s`. */
  lemma FormRoundTrip(f: string, s: Switch)
    requires IsFormWord(f) && (f == NameDashed(s) || f == ShortNameDashed(s))
    ensures CorrespondingSwitch(f) == Some(s)
  {
    EqualsIgnoreCaseReflexive(f);
    assert AllAscii(f) by {
      forall i | 0 <= i < |f| ensures IsAscii(f[i]) {
        assert IsFormChar(f[i]);
      }
    }
    assert Denotes(s, f);
    CorrespondingSwitchSpec(f, s);
  }

  /** Lookup ignores case: an ASCII token finds what its upper-case form finds. */
  lemma CorrespondingSwitchIgnoresCase(str: string)
    requires AllAscii(str)
    ensures CorrespondingSwitch(str) == CorrespondingSwitch(UpperString(str))
  {
    UpperStringAscii(str);
    var up := UpperString(str);
    assert AllAscii(up);
    forall s: Switch ensures Denotes(s, str) <==> Denotes(s, up) {
      FormsAreFormWords(s);
      EqualsIgnoreCaseFormWord(NameDashed(s), str);
      EqualsIgnoreCaseFormWord(ShortNameDashed(s), str);
      EqualsIgnoreCaseFormWord(NameDashed(s), up);
      EqualsIgnoreCaseFormWord(ShortNameDashed(s), up);
      assert UpperString(up) == up by {
        assert IsFormWord(up) || !IsFormWord(up);
        UpperStringAscii(up);
        forall i | 0 <= i < |up| ensures UpperString(up)[i] == up[i] {
          assert up[i] == UpperChar(str[i]);
        }
      }
    }
    match CorrespondingSwitch(str)
    case Some(s) =>
      CorrespondingSwitchSpec(str, s);
      CorrespondingSwitchSpec(up, s);
    case None =>
      CorrespondingSwitchSpec(str, SrcDir);
      CorrespondingSwitchSpec(up, SrcDir);
  }

  /** The multi-valued switches are exactly those whose names end in CLUDE, as `isMultiValued` tests. */
  lemma MultiValuedByName(s: Switch)
    ensures IsMultiValued(s) <==> EndsWith(Name(s), "CLUDE")
  {
  }

  /** A mixed-case long form is found. */
  lemma CorrespondingSwitchMixedCase(t: string)
    requires t == "-srcDir"
    ensures CorrespondingSwitch(t) == Some(SrcDir)
  {
    assert AllAscii(t);
    UpperStringAscii(t);
    assert UpperString(t) == NameDashed(SrcDir);
    CorrespondingSwitchIgnoresCase(t);
    CorrespondingSwitchRoundTrip(SrcDir);
  }

  /** A token that is none of the sixteen forms finds nothing. */
  lemma CorrespondingSwitchUnknown(t: string)
    requires t == "-UNKNOWN"
    ensures CorrespondingSwitch(t) == None
  {
    forall u: Switch ensures !Denotes(u, t) {
      SecondLetter(u);
      assert |t| == 8 && t[1] == 'U';
    }
    assert forall k :: 0 <= k < |Values| ==> !Denotes(Values[k], t);
  }

  /** No form of any switch has a 'U' after the dash. */
  lemma SecondLetter(u: Switch)
    ensures |NameDashed(u)| >= 2 && NameDashed(u)[1] in "SDIEDNZ"
    ensures |ShortNameDashed(u)| >= 2 && ShortNameDashed(u)[1] in "SDIEDNZ"
  {
    ShortNameTable();
  }
}
