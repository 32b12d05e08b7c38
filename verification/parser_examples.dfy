/**
  Worked inputs of `processCommand`, shaped after the program's own test cases
  (CommandParserTest.java) with shorter file names, and the outcome the
  corrected parser gives. Tokens are parameters fixed by a precondition so that
  each proof composes facts about single tokens instead of evaluating whole
  command lines.
*/
module ParserExamples {
  import opened Results
  import opened Strings
  import opened Switches
  import opened CommandParser

  // ---------------------------------------------------------------------------
  // Facts about single tokens

  /** An ASCII token whose upper-case form is a form of `s` opens `s`. */
  lemma Opens(t: string, f: string, s: Switch)
    requires f == NameDashed(s) || f == ShortNameDashed(s)
    requires AllAscii(t) && |t| == |f| && forall i | 0 <= i < |t| :: UpperChar(t[i]) == f[i]
    ensures IsSwitchToken(t) && Classify(UpperCasedToken, t) == Opening(t, Some(s))
  {
    UpperStringAscii(t);
    assert UpperString(t) == f;
    FormOfLookup(f, s);
  }

  /** A token with an ASCII character after the dash that no form has there is a value. */
  lemma DashedValue(t: string)
    requires |t| >= 2 && IsAscii(t[0]) && IsAscii(t[1]) && UpperChar(t[1]) !in "SDIEDNZ"
    ensures !IsSwitchToken(t) && Classify(UpperCasedToken, t) == Argument(t)
  {
    var up := UpperString(t);
    assert up == [UpperChar(t[0])] + UpperString(t[1..]);
    assert UpperString(t[1..]) == [UpperChar(t[1])] + UpperString(t[2..]);
    assert up[1] == UpperChar(t[1]);
    if up in AllSwitchForms() {
      FormShape(up);
    }
  }

  /** A token that does not start with a dash is a value. */
  lemma PlainToken(t: string)
    requires |t| >= 1 && IsAscii(t[0]) && t[0] != '-'
    ensures !IsSwitchToken(t) && Classify(UpperCasedToken, t) == Argument(t)
  {
    PlainValue(t);
  }

  /** A value without separator that is not `.` or `..`. */
  lemma Bare(v: string)
    requires forall i | 0 <= i < |v| :: v[i] != FileSeparator
    requires v != "." && v != ".."
    ensures BareName(v)
  {
  }

  // The switch tokens the examples use, each proved on its own.

  lemma LongInclude(t: string)
    requires t == "-include"
    ensures IsSwitchToken(t) && Classify(UpperCasedToken, t) == Opening(t, Some(Include))
  {
    Opens(t, NameDashed(Include), Include);
  }

  lemma LongSource(t: string)
    requires t == "-srcDir"
    ensures IsSwitchToken(t) && Classify(UpperCasedToken, t) == Opening(t, Some(SrcDir))
  {
    Opens(t, NameDashed(SrcDir), SrcDir);
  }

  lemma LongNoRecurse(t: string)
    requires t == "-noRecurse"
    ensures IsSwitchToken(t) && Classify(UpperCasedToken, t) == Opening(t, Some(NoRecurse))
  {
    Opens(t, NameDashed(NoRecurse), NoRecurse);
  }

  lemma ShortInclude(t: string)
    requires t == "-i"
    ensures IsSwitchToken(t) && Classify(UpperCasedToken, t) == Opening(t, Some(Include))
  {
    Opens(t, ShortNameDashed(Include), Include);
  }

  lemma ShortExclude(t: string)
    requires t == "-e"
    ensures IsSwitchToken(t) && Classify(UpperCasedToken, t) == Opening(t, Some(Exclude))
  {
    Opens(t, ShortNameDashed(Exclude), Exclude);
  }

  lemma ShortSource(t: string)
    requires t == "-s"
    ensures IsSwitchToken(t) && Classify(UpperCasedToken, t) == Opening(t, Some(SrcDir))
  {
    Opens(t, ShortNameDashed(SrcDir), SrcDir);
  }

  lemma ShortDeepExclude(t: string)
    requires t == "-de"
    ensures IsSwitchToken(t) && Classify(UpperCasedToken, t) == Opening(t, Some(DeepExclude))
  {
    Opens(t, ShortNameDashed(DeepExclude), DeepExclude);
  }

  // The values the examples use.

  /** A one-letter file name. */
  lemma Letter(v: string)
    requires |v| == 1 && 'a' <= v[0] <= 'z'
    ensures !StartsWith(v, "-") && BareName(v) && Classify(UpperCasedToken, v) == Argument(v)
  {
    PlainToken(v);
    Bare(v);
  }

  /** `.` is a value, but not a bare file name. */
  lemma Dot(v: string)
    requires v == "."
    ensures !StartsWith(v, "-") && !BareName(v) && Classify(UpperCasedToken, v) == Argument(v)
  {
    PlainToken(v);
  }

  /** Dashed words that are no switch form. */
  lemma DashedWord(d: string)
    requires d == "-folder" || d == "-foo"
    ensures StartsWith(d, "-") && BareName(d) && Classify(UpperCasedToken, d) == Argument(d)
  {
    DashedValue(d);
    Bare(d);
  }

  // ---------------------------------------------------------------------------
  // From a command line to its classified tokens

  lemma ClassifyCons(t: string, rest: seq<string>)
    ensures ClassifyAll(UpperCasedToken, [t] + rest) ==
      [Classify(UpperCasedToken, t)] + ClassifyAll(UpperCasedToken, rest)
  {
    assert ([t] + rest)[1..] == rest;
  }

  lemma PrependTwo(z: string, t: string, u: string)
    ensures [z] + [t, u] == [z, t, u]
  {
  }

  lemma PrependThree(z: string, t: string, u: string, v: string)
    ensures [z] + [t, u, v] == [z, t, u, v]
  {
  }

  lemma PrependFour(z: string, t: string, u: string, v: string, w: string)
    ensures [z] + [t, u, v, w] == [z, t, u, v, w]
  {
  }

  /** `processCommand` on `zipp` and a tail whose parse succeeds: the parse with the defaults. */
  lemma ProcessParsed(z: string, tail: seq<string>, c: Command)
    requires z == "zipp" && |tail| >= 1 && IsSwitchToken(tail[0])
    requires ParseCommands(UpperCasedToken, tail) == Ok(c)
    ensures ProcessCommand(Some([z] + tail)) == Parsed(SetFilterDefaults(c))
  {
    var args := [z] + tail;
    assert args[1..] == tail && args[1] == tail[0];
    EqualsIgnoreCaseReflexive(z);
    ProcessOfParse(UpperCasedToken, args);
  }

  /** `processCommand` on `zipp` and a tail whose parse fails: the parse's error. */
  lemma ProcessFailed(z: string, tail: seq<string>, e: ParseError)
    requires z == "zipp" && |tail| >= 1 && IsSwitchToken(tail[0])
    requires ParseCommands(UpperCasedToken, tail) == Err(e)
    ensures ProcessCommand(Some([z] + tail)) == Failed(e)
  {
    var args := [z] + tail;
    assert args[1..] == tail && args[1] == tail[0];
    EqualsIgnoreCaseReflexive(z);
    ProcessOfParse(UpperCasedToken, args);
  }

  /** The parse of a tail is the scan of its classified tokens. */
  lemma ParseIsScan(tail: seq<string>, toks: seq<Token>, secondIsSwitch: bool)
    requires |tail| >= 1 && IsSwitchToken(tail[0])
    requires toks == ClassifyAll(UpperCasedToken, tail)
    requires secondIsSwitch == (|tail| > 1 && IsSwitchToken(tail[1]))
    ensures |toks| >= 1 && toks[0].Opening?
    ensures var r := ScanFold(toks, secondIsSwitch);
      ParseCommands(UpperCasedToken, tail) == if r.Err? then Err(r.error) else Ok(r.value.cmd)
  {
  }

  // ---------------------------------------------------------------------------
  // Scans of classified tokens

  /** Extending a successful scan by one token. */
  lemma FoldStep(toks: seq<Token>, x: Token, st: Scan, r: Result<Scan, ParseError>, secondIsSwitch: bool)
    requires |toks| >= 1 && toks[0].Opening?
    requires ScanFold(toks, secondIsSwitch) == Ok(st) && ScanInvariant(st)
    requires Step(st, x, secondIsSwitch) == r
    ensures ScanFold(toks + [x], secondIsSwitch) == r
  {
    ScanFoldSnoc(toks, x, secondIsSwitch);
  }

  /** Extending a scan that failed. */
  lemma FoldFailed(toks: seq<Token>, x: Token, e: ParseError, secondIsSwitch: bool)
    requires |toks| >= 1 && toks[0].Opening?
    requires ScanFold(toks, secondIsSwitch) == Err(e)
    ensures ScanFold(toks + [x], secondIsSwitch) == Err(e)
  {
    ScanFoldSnoc(toks, x, secondIsSwitch);
  }

  lemma FoldStart(t: string, s: Switch, secondIsSwitch: bool)
    ensures ScanFold([Opening(t, Some(s))], secondIsSwitch) == Ok(Scan(map[s := {}], s))
  {
  }

  /** One switch followed by two values: both are collected. */
  lemma FoldTwoValues(t: string, s: Switch, a: string, b: string)
    requires IsMultiValued(s) && !StartsWith(a, "-") && !StartsWith(b, "-")
    requires BareName(a) && BareName(b)
    ensures ScanFold([Opening(t, Some(s)), Argument(a), Argument(b)], false)
      == Ok(Scan(map[s := {a, b}], s))
  {
    var o := Opening(t, Some(s));
    FoldStart(t, s, false);
    var st1 := Scan(map[s := {a}], s);
    assert map[s := {}][s := {} + {a}] == st1.cmd;
    FoldStep([o], Argument(a), Scan(map[s := {}], s), Ok(st1), false);
    assert {a} + {b} == {a, b};
    assert st1.cmd[s := {a} + {b}] == map[s := {a, b}];
    FoldStep([o, Argument(a)], Argument(b), st1, Ok(Scan(map[s := {a, b}], s)), false);
    assert [o, Argument(a)] + [Argument(b)] == [o, Argument(a), Argument(b)];
  }

  /** A switch with no value is dropped when the next one opens. */
  lemma FoldDropEmpty(t: string, s: Switch, u: string, n: Switch, secondIsSwitch: bool)
    requires s != NoRecurse && n != s
    ensures ScanFold([Opening(t, Some(s)), Opening(u, Some(n))], secondIsSwitch)
      == Ok(Scan(map[n := {}], n))
  {
    var st := Scan(map[s := {}], s);
    FoldStart(t, s, secondIsSwitch);
    assert Settled(st) == map[];
    FoldStep([Opening(t, Some(s))], Opening(u, Some(n)), st, Ok(Scan(map[n := {}], n)), secondIsSwitch);
  }

  /** A switch that holds a value cannot be given again. */
  lemma FoldDuplicate(t: string, s: Switch, a: string, u: string, b: string)
    requires IsMultiValued(s) && !StartsWith(a, "-") && BareName(a)
    ensures ScanFold([Opening(t, Some(s)), Argument(a), Opening(u, Some(s)), Argument(b)], false)
      == Err(DuplicateSwitch(u))
  {
    var o := Opening(t, Some(s));
    FoldSingleValue(t, a, s);
    var st1 := Scan(map[s := {a}], s);
    FoldStep([o, Argument(a)], Opening(u, Some(s)), st1, Err(DuplicateSwitch(u)), false);
    assert [o, Argument(a)] + [Opening(u, Some(s))] == [o, Argument(a), Opening(u, Some(s))];
    FoldFailed([o, Argument(a), Opening(u, Some(s))], Argument(b), DuplicateSwitch(u), false);
    assert [o, Argument(a), Opening(u, Some(s))] + [Argument(b)]
      == [o, Argument(a), Opening(u, Some(s)), Argument(b)];
  }

  /** No-recurse takes no value. */
  lemma FoldNoRecurseValue(t: string, v: string)
    requires !StartsWith(v, "-")
    ensures ScanFold([Opening(t, Some(NoRecurse)), Argument(v)], false) == Err(NoRecurseTakesNoArguments)
  {
    FoldStart(t, NoRecurse, false);
    FoldStep([Opening(t, Some(NoRecurse))], Argument(v), Scan(map[NoRecurse := {}], NoRecurse),
      Err(NoRecurseTakesNoArguments), false);
  }

  /** A single-valued switch takes one value only. */
  lemma FoldTooMany(t: string, s: Switch, a: string, b: string)
    requires !IsMultiValued(s) && s != NoRecurse && !StartsWith(a, "-") && !StartsWith(b, "-")
    requires TakesBareNames(s) ==> BareName(a)
    ensures ScanFold([Opening(t, Some(s)), Argument(a), Argument(b)], false) == Err(TooManyArguments(b))
  {
    var o := Opening(t, Some(s));
    FoldSingleValue(t, a, s);
    FoldStep([o, Argument(a)], Argument(b), Scan(map[s := {a}], s), Err(TooManyArguments(b)), false);
    assert [o, Argument(a)] + [Argument(b)] == [o, Argument(a), Argument(b)];
  }

  /** A filter takes file names only. */
  lemma FoldPathRejected(t: string, s: Switch, v: string)
    requires TakesBareNames(s) && s != NoRecurse && !StartsWith(v, "-") && !BareName(v)
    ensures ScanFold([Opening(t, Some(s)), Argument(v)], false) == Err(PathNotAllowed(v))
  {
    FoldStart(t, s, false);
    FoldStep([Opening(t, Some(s))], Argument(v), Scan(map[s := {}], s), Err(PathNotAllowed(v)), false);
  }

  /**
    A dashed value is rejected when the token after the first switch is a
    value, and accepted when that token is a switch form.
  */
  lemma FoldDashedValue(t: string, s: Switch, a: string, d: string)
    requires s != NoRecurse && !StartsWith(a, "-") && StartsWith(d, "-") && BareName(a)
    ensures ScanFold([Opening(t, Some(s)), Argument(a), Argument(d)], false) == Err(InvalidSwitch(d))
  {
    var o := Opening(t, Some(s));
    var st1 := Scan(map[s := {a}], s);
    FoldSingleValue(t, a, s);
    FoldStep([o, Argument(a)], Argument(d), st1, Err(InvalidSwitch(d)), false);
    assert [o, Argument(a)] + [Argument(d)] == [o, Argument(a), Argument(d)];
  }

  lemma FoldDashedValueAccepted(t: string, s: Switch, u: string, n: Switch, d: string)
    requires s != NoRecurse && n != s && IsMultiValued(n) && StartsWith(d, "-") && BareName(d)
    ensures ScanFold([Opening(t, Some(s)), Opening(u, Some(n)), Argument(d)], true)
      == Ok(Scan(map[n := {d}], n))
  {
    var o := Opening(t, Some(s));
    var p := Opening(u, Some(n));
    var st1 := Scan(map[n := {}], n);
    assert ScanFold([o], true) == Ok(Scan(map[s := {}], s));
    assert Settled(Scan(map[s := {}], s)) == map[];
    ScanFoldSnoc([o], p, true);
    assert [o] + [p] == [o, p];
    assert ScanFold([o, p], true) == Ok(st1);
    assert st1.cmd[n := {} + {d}] == map[n := {d}];
    ScanFoldSnoc([o, p], Argument(d), true);
    assert [o, p] + [Argument(d)] == [o, p, Argument(d)];
  }

  /** A switch dropped for being empty may be given again. */
  lemma FoldGivenAgain(t: string, s: Switch, u: string, n: Switch, w: string, a: string)
    requires s != NoRecurse && n != NoRecurse && n != s && IsMultiValued(s)
    requires BareName(a)
    ensures ScanFold([Opening(t, Some(s)), Opening(u, Some(n)), Opening(w, Some(s)), Argument(a)], true)
      == Ok(Scan(map[s := {a}], s))
  {
    var o := Opening(t, Some(s));
    var p := Opening(u, Some(n));
    var q := Opening(w, Some(s));
    FoldDropEmpty(t, s, u, n, true);
    var st2 := Scan(map[n := {}], n);
    assert Settled(st2) == map[];
    FoldStep([o, p], q, st2, Ok(Scan(map[s := {}], s)), true);
    assert [o, p] + [q] == [o, p, q];
    assert map[s := {}][s := {} + {a}] == map[s := {a}];
    FoldStep([o, p, q], Argument(a), Scan(map[s := {}], s), Ok(Scan(map[s := {a}], s)), true);
    assert [o, p, q] + [Argument(a)] == [o, p, q, Argument(a)];
  }


  // ---------------------------------------------------------------------------
  // From classified tokens back to the command line

  lemma ClassifyTwo(t: string, v: string)
    ensures ClassifyAll(UpperCasedToken, [t, v]) == [Classify(UpperCasedToken, t), Classify(UpperCasedToken, v)]
  {
    ClassifyCons(t, [v]);
    ClassifyCons(v, []);
  }

  lemma ClassifyThree(t: string, v: string, w: string)
    ensures ClassifyAll(UpperCasedToken, [t, v, w])
      == [Classify(UpperCasedToken, t), Classify(UpperCasedToken, v), Classify(UpperCasedToken, w)]
  {
    ClassifyCons(t, [v, w]);
    ClassifyTwo(v, w);
  }

  lemma ClassifyFour(t: string, v: string, w: string, x: string)
    ensures ClassifyAll(UpperCasedToken, [t, v, w, x])
      == [Classify(UpperCasedToken, t), Classify(UpperCasedToken, v),
          Classify(UpperCasedToken, w), Classify(UpperCasedToken, x)]
  {
    ClassifyCons(t, [v, w, x]);
    ClassifyThree(v, w, x);
  }

  // ---------------------------------------------------------------------------
  // Command lines

  /** `zipp -include a b`: the include filter holds both names. */
  lemma IncludeTwoFiles(t: string, a: string, b: string)
    requires t == "-include" && a == "a" && b == "b"
    ensures IsSwitchToken(t)
    ensures ParseCommands(UpperCasedToken, [t, a, b]) == Ok(map[Include := {a, b}])
  {
    LongInclude(t);
    Letter(a); Letter(b);
    FoldTwoValues(t, Include, a, b);
    ClassifyThree(t, a, b);
    ParseIsScan([t, a, b], [Opening(t, Some(Include)), Argument(a), Argument(b)], false);
  }

  /** The defaults never add a source directory. */
  lemma DefaultsAddNoSource(c: Command)
    requires SrcDir !in c
    ensures SrcDir !in SetFilterDefaults(c)
  {
    assert !DefaultReplaces(c, SrcDir);
  }

  /** `zipp -srcDir -include`: the source switch, given no value, is dropped. */
  lemma SourceWithoutValue(z: string, t: string, u: string)
    requires z == "zipp" && t == "-srcDir" && u == "-include"
    ensures ProcessCommand(Some([z, t, u])).Parsed?
    ensures SrcDir !in ProcessCommand(Some([z, t, u])).cmd
  {
    LongSource(t);
    LongInclude(u);
    FoldDropEmpty(t, SrcDir, u, Include, true);
    ClassifyTwo(t, u);
    ParseIsScan([t, u], [Opening(t, Some(SrcDir)), Opening(u,
      Some(Include))], true);
    ProcessParsed(z, [t, u], map[Include := {}]);
    PrependTwo(z, t, u);
    DefaultsAddNoSource(map[Include := {}]);
  }

  /**
    `zipp -include -de`: the empty include is dropped, and the defaults then
    give it `*` while the deep exclusion stays empty.
  */
  lemma IncludeThenDeepExclude(z: string, t: string, u: string)
    requires z == "zipp" && t == "-include" && u == "-de"
    ensures ProcessCommand(Some([z, t, u])).Parsed?
    ensures var c := ProcessCommand(Some([z, t, u])).cmd;
      Include in c && c[Include] == {"*"} && DeepExclude in c && c[DeepExclude] == {}
  {
    LongInclude(t);
    ShortDeepExclude(u);
    FoldDropEmpty(t, Include, u, DeepExclude, true);
    ClassifyTwo(t, u);
    ParseIsScan([t, u], [Opening(t, Some(Include)), Opening(u,
      Some(DeepExclude))], true);
    ProcessParsed(z, [t, u], map[DeepExclude := {}]);
    PrependTwo(z, t, u);
    assert DefaultReplaces(map[DeepExclude := {}], Include);
  }

  lemma DuplicateShape(z: string, t: string, a: string, b: string, s: Switch)
    requires z == "zipp" && IsMultiValued(s)
    requires IsSwitchToken(t) && Classify(UpperCasedToken, t) == Opening(t, Some(s))
    requires !StartsWith(a, "-") && BareName(a) && Classify(UpperCasedToken, a) == Argument(a)
    requires Classify(UpperCasedToken, b) == Argument(b)
    ensures ProcessCommand(Some([z, t, a, t, b])) == Failed(DuplicateSwitch(t))
  {
    FoldDuplicate(t, s, a, t, b);
    ClassifyFour(t, a, t, b);
    ParseIsScan([t, a, t, b], [Opening(t, Some(s)), Argument(a), Opening(t, Some(s)), Argument(b)], false);
    ProcessFailed(z, [t, a, t, b], DuplicateSwitch(t));
    PrependFour(z, t, a, t, b);
  }

  /** No long name has `L` as its second letter. */
  lemma SecondNameLetter(u: Switch)
    ensures |NameDashed(u)| >= 3 && NameDashed(u)[2] != 'L'
  {
    assert NameDashed(u)[2] == Name(u)[1];
  }

  /** No switch form longer than three characters has `L` third. */
  lemma NoFormThirdL(f: string)
    requires |f| > 3 && f[2] == 'L'
    ensures f !in AllSwitchForms()
  {
    if f in AllSwitchForms() {
      var s :| s in Values && (f == NameDashed(s) || f == ShortNameDashed(s));
      SecondNameLetter(s);
      assert false;
    }
  }

  /** `-illegal` upper-cases to `-ILLEGAL`, which is no switch form. */
  lemma Illegal(t: string)
    requires t == "-illegal"
    ensures !IsSwitchToken(t) && StartsWith(t, "-") && BareName(t)
    ensures Classify(UpperCasedToken, t) == Argument(t)
  {
    UpperStringAscii(t);
    NoFormThirdL(UpperString(t));
    Bare(t);
  }

  /** `zipp -illegal`: the token after `zipp` is not a switch form. */
  lemma IllegalFirstSwitch(z: string, t: string)
    requires z == "zipp" && t == "-illegal"
    ensures ProcessCommand(Some([z, t])) == Failed(InvalidSwitch(t))
  {
    Illegal(t);
    EqualsIgnoreCaseReflexive(z);
  }

  /** `zipp -s folderA -illegal`: a dashed word after a value is rejected. */
  lemma IllegalAfterValue(z: string, t: string, a: string, d: string)
    requires z == "zipp" && t == "-s" && a == "folderA" && d == "-illegal"
    ensures ProcessCommand(Some([z, t, a, d])) == Failed(InvalidSwitch(d))
  {
    ShortSource(t);
    PlainToken(a);
    Bare(a);
    Illegal(d);
    FoldDashedValue(t, SrcDir, a, d);
    ClassifyThree(t, a, d);
    ParseIsScan([t, a, d], [Opening(t, Some(SrcDir)), Argument(a), Argument(d)], false);
    ProcessFailed(z, [t, a, d], InvalidSwitch(d));
    PrependThree(z, t, a, d);
  }

  /** `zipp -include a -include b`: the second include is a duplicate. */
  lemma DuplicateInclude(z: string, t: string, a: string, b: string)
    requires z == "zipp" && t == "-include" && a == "a" && b == "b"
    ensures ProcessCommand(Some([z, t, a, t, b])) == Failed(DuplicateSwitch(t))
  {
    LongInclude(t);
    Letter(a); Letter(b);
    DuplicateShape(z, t, a, b, Include);
  }

  /** `zipp -noRecurse v`: no-recurse refuses a value. */
  lemma NoRecurseWithValue(z: string, t: string, v: string)
    requires z == "zipp" && t == "-noRecurse" && v == "v"
    ensures ProcessCommand(Some([z, t, v])) == Failed(NoRecurseTakesNoArguments)
  {
    LongNoRecurse(t);
    Letter(v);
    FoldNoRecurseValue(t, v);
    ClassifyTwo(t, v);
    ParseIsScan([t, v], [Opening(t, Some(NoRecurse)), Argument(v)], false);
    ProcessFailed(z, [t, v], NoRecurseTakesNoArguments);
    PrependTwo(z, t, v);
  }

  /** `zipp -srcDir a -folder`: a dashed word that is not a switch is rejected. */
  lemma DashedWordRejected(z: string, t: string, a: string, d: string)
    requires z == "zipp" && t == "-srcDir" && a == "a" && d == "-folder"
    ensures ProcessCommand(Some([z, t, a, d])) == Failed(InvalidSwitch(d))
  {
    LongSource(t);
    Letter(a);
    DashedWord(d);
    FoldDashedValue(t, SrcDir, a, d);
    ClassifyThree(t, a, d);
    ParseIsScan([t, a, d], [Opening(t, Some(SrcDir)), Argument(a), Argument(d)], false);
    ProcessFailed(z, [t, a, d], InvalidSwitch(d));
    PrependThree(z, t, a, d);
  }

  /**
    `zipp -i -e -foo`: because the token after the first switch is a switch
    form, the dashed word is taken as an exclusion.
  */
  lemma DashedWordAccepted(t: string, u: string, d: string)
    requires t == "-i" && u == "-e" && d == "-foo"
    ensures IsSwitchToken(t)
    ensures ParseCommands(UpperCasedToken, [t, u, d]) == Ok(map[Exclude := {d}])
  {
    ShortInclude(t);
    ShortExclude(u);
    DashedWord(d);
    FoldDashedValueAccepted(t, Include, u, Exclude, d);
    ClassifyThree(t, u, d);
    ParseIsScan([t, u, d], [Opening(t, Some(Include)), Opening(u,
      Some(Exclude)), Argument(d)], true);
  }

  /** `zipp -de .`: a filter refuses the current-directory name. */
  lemma DotRejected(z: string, t: string, v: string)
    requires z == "zipp" && t == "-de" && v == "."
    ensures ProcessCommand(Some([z, t, v])) == Failed(PathNotAllowed(v))
  {
    ShortDeepExclude(t);
    Dot(v);
    FoldPathRejected(t, DeepExclude, v);
    ClassifyTwo(t, v);
    ParseIsScan([t, v], [Opening(t, Some(DeepExclude)), Argument(v)], false);
    ProcessFailed(z, [t, v], PathNotAllowed(v));
    PrependTwo(z, t, v);
  }

  /** `zipp -s a b`: the source directory takes one value. */
  lemma SourceTwoValues(t: string, a: string, b: string)
    requires t == "-s" && a == "a" && b == "b"
    ensures IsSwitchToken(t)
    ensures ParseCommands(UpperCasedToken, [t, a, b]) == Err(TooManyArguments(b))
  {
    ShortSource(t);
    Letter(a); Letter(b);
    FoldTooMany(t, SrcDir, a, b);
    ClassifyThree(t, a, b);
    ParseIsScan([t, a, b], [Opening(t, Some(SrcDir)), Argument(a), Argument(b)], false);
  }

  /** `zipp -i -e -i a`: an include dropped for being empty may be given again. */
  lemma IncludeGivenAgain(t: string, u: string, a: string)
    requires t == "-i" && u == "-e" && a == "a"
    ensures IsSwitchToken(t)
    ensures ParseCommands(UpperCasedToken, [t, u, t, a]) == Ok(map[Include := {a}])
  {
    ShortInclude(t);
    ShortExclude(u);
    Letter(a);
    FoldGivenAgain(t, Include, u, Exclude, t, a);
    ClassifyFour(t, u, t, a);
    ParseIsScan([t, u, t, a], [Opening(t, Some(Include)), Opening(u,
      Some(Exclude)), Opening(t, Some(Include)), Argument(a)], true);
  }
}
