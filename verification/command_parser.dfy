/**
  The command parser: turns the argument tokens of `zipp` into a map from
  switch to its set of values, then fills in the filter defaults.

  The scan is a left fold over the tokens after `zipp`. It keeps the map built
  so far and the switch currently collecting values; a value token is checked
  against that switch, a switch token opens a new entry (after dropping the
  previous one if it collected nothing).

  Switch tokens are recognised by upper-casing them and looking the result up
  in the table of the sixteen dashed forms. The program then finds the switch
  with a case-insensitive comparison on the ORIGINAL token; for a handful of
  non-ASCII tokens the two disagree and the program fails with a null switch.
  `LookupMode` selects between that behaviour (`OriginalToken`) and the
  corrected one (`UpperCasedToken`), which the rest of the model uses.
*/
module CommandParser {
  import opened Results
  import opened Strings
  import opened Switches

  type Command = map<Switch, set<string>>

  datatype ParseError =
    | InvalidSwitch(token: string)
    | DuplicateSwitch(token: string)
    | NoRecurseTakesNoArguments
    | TooManyArguments(token: string)
    | PathNotAllowed(token: string)
      /** a recognised token whose switch lookup came back null */
    | NullSwitch(token: string)

  /** `processCommand`'s three ways out: null, a map, or an exception. */
  datatype Outcome =
    | NotInvocation
    | Parsed(cmd: Command)
    | Failed(error: ParseError)

  datatype LookupMode = OriginalToken | UpperCasedToken

  /** The parser's `allSwitches`: every long and short dashed form. */
  function AllSwitchForms(): set<string> {
    AllNamesDashed() + AllShortNamesDashed()
  }

  /** `allSwitches.contains(token.toUpperCase())` */
  predicate IsSwitchToken(t: string) {
    UpperString(t) in AllSwitchForms()
  }

  /**
    The switch a recognised token opens: as written, the lookup of the original
    token; corrected, the lookup of its upper-case form, which always succeeds.
  */
  function LookupSwitch(mode: LookupMode, t: string): (r: Option<Switch>)
    ensures mode == UpperCasedToken && IsSwitchToken(t) ==> r.Some?
  {
    if mode == OriginalToken then CorrespondingSwitch(t)
    else
      var up := UpperString(t);
      if up in AllSwitchForms() then (FormLookup(up); CorrespondingSwitch(up))
      else CorrespondingSwitch(up)
  }

  /** A value that names a file and not a path: no separator, not `.` or `..`. */
  predicate BareName(v: string) {
    !ContainsChar(v, FileSeparator) && v != "." && v != ".."
  }

  /** The switches whose values must be bare file names. */
  predicate TakesBareNames(s: Switch) {
    IsMultiValued(s) || s == ZipFile
  }

  /**
    What the parser guarantees of every map it builds: single-valued switches
    hold at most one value, no-recurse none, and the filters and the archive
    name only bare file names.
  */
  predicate WellFormed(cmd: Command) {
    forall s | s in cmd ::
      && (!IsMultiValued(s) ==> |cmd[s]| <= 1)
      && (s == NoRecurse ==> cmd[s] == {})
      && (TakesBareNames(s) ==> forall v | v in cmd[s] :: BareName(v))
  }

  /** The scan's state: the map so far and the switch collecting values. */
  datatype Scan = Scan(cmd: Command, current: Switch)

  /**
    The current switch has an entry, the map is well formed, and every entry
    other than the current one and no-recurse has collected a value.
  */
  predicate ScanInvariant(st: Scan) {
    && st.current in st.cmd
    && WellFormed(st.cmd)
    && forall s | s in st.cmd :: s == st.current || s == NoRecurse || st.cmd[s] != {}
  }

  /**
    A token after `zipp` as the scan sees it: a switch form, with the switch
    the lookup found for it (none when the lookup came back null), or a value.
  */
  datatype Token =
    | Opening(text: string, found: Option<Switch>)
    | Argument(text: string)

  /** How the loop of `parseCommands` reads one token. */
  function Classify(mode: LookupMode, t: string): (k: Token)
    ensures k.text == t
    ensures k.Opening? <==> IsSwitchToken(t)
    ensures mode == UpperCasedToken && k.Opening? ==> k.found.Some?
  {
    if IsSwitchToken(t) then Opening(t, LookupSwitch(mode, t)) else Argument(t)
  }

  /** Every token of `tail`, classified. */
  function ClassifyAll(mode: LookupMode, tail: seq<string>): (r: seq<Token>)
    ensures |r| == |tail|
    ensures forall i | 0 <= i < |tail| :: r[i] == Classify(mode, tail[i])
  {
    if tail == [] then [] else [Classify(mode, tail[0])] + ClassifyAll(mode, tail[1..])
  }

  /** Every switch form among the tokens has its switch. */
  predicate Resolved(toks: seq<Token>) {
    forall i | 0 <= i < |toks| :: toks[i].Opening? ==> toks[i].found.Some?
  }

  /** The first token after `zipp`, already known to be a switch form. */
  function StartScan(tok: Token): (r: Result<Scan, ParseError>)
    requires tok.Opening?
    ensures r.Ok? ==> ScanInvariant(r.value) && r.value.cmd == map[r.value.current := {}]
    ensures r.Ok? <==> tok.found.Some?
  {
    match tok.found
    case None => Err(NullSwitch(tok.text))
    case Some(s) => Ok(Scan(map[s := {}], s))
  }

  /**
    The map as a new switch is opened: the current switch is dropped if it
    collected no value, unless it is no-recurse, which never takes one.
  */
  function Settled(st: Scan): (r: Command)
    requires st.current in st.cmd
    ensures r.Keys <= st.cmd.Keys
    ensures forall s | s in r :: r[s] == st.cmd[s]
    ensures forall s | s in st.cmd :: s in r <==>
      s != st.current || s == NoRecurse || st.cmd[s] != {}
  {
    if st.current != NoRecurse && st.cmd[st.current] == {} then st.cmd - {st.current}
    else st.cmd
  }

  /**
    One token of the scan. `secondIsSwitch` tells whether the token right
    after the first switch is a switch form: the program tests that token,
    instead of the current one, before it rejects a dashed value.
  */
  function Step(st: Scan, tok: Token, secondIsSwitch: bool): (r: Result<Scan, ParseError>)
    requires ScanInvariant(st)
    ensures r.Ok? ==> ScanInvariant(r.value)
    ensures r.Ok? && tok.Opening? ==>
      r.value.current !in st.cmd && r.value.cmd[r.value.current] == {}
    ensures r.Ok? && tok.Argument? ==>
      r.value.current == st.current && r.value.cmd.Keys == st.cmd.Keys
      && r.value.cmd[st.current] == st.cmd[st.current] + {tok.text}
    ensures r.Err? && r.error.NullSwitch? ==> tok.Opening? && tok.found.None?
  {
    match tok
    case Opening(t, found) =>
      (match found
       case None => Err(NullSwitch(t))
       case Some(s) =>
         if s in st.cmd then Err(DuplicateSwitch(t))
         else Ok(Scan(Settled(st)[s := {}], s)))
    case Argument(t) =>
      if StartsWith(t, "-") && !secondIsSwitch then
        Err(InvalidSwitch(t))
      else if st.current == NoRecurse then
        Err(NoRecurseTakesNoArguments)
      else if !IsMultiValued(st.current) && |st.cmd[st.current]| > 0 then
        Err(TooManyArguments(t))
      else if !BareName(t) && TakesBareNames(st.current) then
        Err(PathNotAllowed(t))
      else
        Ok(Scan(st.cmd[st.current := st.cmd[st.current] + {t}], st.current))
  }

  /** The scan over classified tokens, as a left fold. */
  function ScanFold(toks: seq<Token>, secondIsSwitch: bool): (r: Result<Scan, ParseError>)
    requires |toks| >= 1 && toks[0].Opening?
    ensures r.Ok? ==> ScanInvariant(r.value)
    decreases |toks|
  {
    if |toks| == 1 then StartScan(toks[0])
    else
      match ScanFold(toks[..|toks| - 1], secondIsSwitch)
      case Err(e) => Err(e)
      case Ok(st) => Step(st, toks[|toks| - 1], secondIsSwitch)
  }

  /** The loop of `parseCommands` over the tokens after `zipp`. */
  function ScanTokens(mode: LookupMode, tail: seq<string>): (r: Result<Scan, ParseError>)
    requires |tail| >= 1 && IsSwitchToken(tail[0])
    ensures r.Ok? ==> ScanInvariant(r.value)
  {
    ScanFold(ClassifyAll(mode, tail), |tail| > 1 && IsSwitchToken(tail[1]))
  }

  /** `parseCommands` */
  function ParseCommands(mode: LookupMode, tail: seq<string>): (r: Result<Command, ParseError>)
    requires |tail| >= 1 && IsSwitchToken(tail[0])
    ensures r.Ok? ==> WellFormed(r.value) && r.value != map[]
  {
    match ScanTokens(mode, tail)
    case Err(e) => Err(e)
    case Ok(st) => Ok(st.cmd)
  }

  /**
    What `setFilterDefaults` establishes: the root filters are present and the
    include set is not empty; without no-recurse the same holds for the deep
    filters.
  */
  predicate DefaultsApplied(cmd: Command) {
    && Include in cmd && cmd[Include] != {}
    && Exclude in cmd
    && (NoRecurse !in cmd ==> DeepInclude in cmd && cmd[DeepInclude] != {} && DeepExclude in cmd)
  }

  /** Is the entry for `s` one that `setFilterDefaults` replaces? */
  predicate DefaultReplaces(cmd: Command, s: Switch) {
    || (s == Include && (Include !in cmd || cmd[Include] == {}))
    || (s == DeepInclude && NoRecurse !in cmd && (DeepInclude !in cmd || cmd[DeepInclude] == {}))
    || (s == Exclude && Exclude !in cmd)
    || (s == DeepExclude && NoRecurse !in cmd && DeepExclude !in cmd)
  }

  /** `setFilterDefaults` */
  function SetFilterDefaults(cmd: Command): (r: Command)
    ensures DefaultsApplied(r)
    ensures forall s | s in cmd && !DefaultReplaces(cmd, s) :: s in r && r[s] == cmd[s]
    ensures forall s | DefaultReplaces(cmd, s) ::
      s in r && r[s] == (if s in {Include, DeepInclude} then {"*"} else {})
    ensures forall s | s in r :: s in cmd || DefaultReplaces(cmd, s)
  {
    var c1 :=
      if Include !in cmd || cmd[Include] == {} then cmd[Include := {"*"}] else cmd;
    var c2 :=
      if NoRecurse !in c1 && (DeepInclude !in c1 || c1[DeepInclude] == {}) then c1[DeepInclude := {"*"}]
      else c1;
    var c3 :=
      if Exclude !in c2 then c2[Exclude := {}] else c2;
    var c4 :=
      if NoRecurse !in c3 && DeepExclude !in c3 then c3[DeepExclude := {}] else c3;
    c4
  }

  /** `processCommand`, with the lookup behaviour selected by `mode`. */
  function ProcessCommandWith(mode: LookupMode, args: Option<seq<string>>): (r: Outcome)
    ensures r.NotInvocation? <==>
      args.None? || |args.value| == 0 || !EqualsIgnoreCase(args.value[0], "zipp")
    ensures r.Parsed? ==> WellFormed(r.cmd) && DefaultsApplied(r.cmd)
    ensures (args.Some? && |args.value| >= 2 && EqualsIgnoreCase(args.value[0], "zipp")
      && !IsSwitchToken(args.value[1])) ==> r == Failed(InvalidSwitch(args.value[1]))
  {
    match args
    case None => NotInvocation
    case Some(a) =>
      if |a| < 1 then NotInvocation
      else if !EqualsIgnoreCase(a[0], "zipp") then NotInvocation
      else if |a| == 1 then Parsed(SetFilterDefaults(map[]))
      else if !IsSwitchToken(a[1]) then Failed(InvalidSwitch(a[1]))
      else
        match ParseCommands(mode, a[1..])
        case Err(e) => Failed(e)
        case Ok(c) => (DefaultsPreserveWellFormed(c); Parsed(SetFilterDefaults(c)))
  }

  /**
    `processCommand` as the program has it: the same outcome as the corrected
    lookup, except that it may fail with a null switch.
  */
  function ProcessCommandAsWritten(args: Option<seq<string>>): (r: Outcome)
    ensures r == ProcessCommand(args) || (r.Failed? && r.error.NullSwitch?)
  {
    ProcessCommandAgrees(args);
    ProcessCommandWith(OriginalToken, args)
  }

  /** `processCommand` with switch lookup on the upper-cased token. */
  function ProcessCommand(args: Option<seq<string>>): (r: Outcome)
    ensures r.Failed? ==> !r.error.NullSwitch?
  {
    NeverNullSwitch(args);
    ProcessCommandWith(UpperCasedToken, args)
  }

  // ---------------------------------------------------------------------------
  // Defaults and the corrected lookup

  /** The defaults keep a well-formed map well formed. */
  lemma DefaultsPreserveWellFormed(cmd: Command)
    requires WellFormed(cmd)
    ensures WellFormed(SetFilterDefaults(cmd))
  {
    assert BareName("*") by {
      assert !ContainsChar("*", FileSeparator) by {
        forall i | 0 <= i < |"*"| ensures "*"[i] != FileSeparator {}
      }
    }
  }

  /** A scan over resolved tokens never meets a null switch. */
  lemma {:induction false} ScanNeverNull(toks: seq<Token>, secondIsSwitch: bool)
    requires |toks| >= 1 && toks[0].Opening? && Resolved(toks)
    ensures ScanFold(toks, secondIsSwitch).Err? ==> !ScanFold(toks, secondIsSwitch).error.NullSwitch?
    decreases |toks|
  {
    if |toks| > 1 {
      var prefix := toks[..|toks| - 1];
      assert Resolved(prefix) by {
        forall i | 0 <= i < |prefix| ensures prefix[i] == toks[i] {}
      }
      ScanNeverNull(prefix, secondIsSwitch);
    }
  }

  /** The defaults change a map exactly when they are not yet applied. */
  lemma DefaultsFixedIff(cmd: Command)
    ensures SetFilterDefaults(cmd) == cmd <==> DefaultsApplied(cmd)
  {
    if DefaultsApplied(cmd) {
      forall s ensures !DefaultReplaces(cmd, s) {}
      assert SetFilterDefaults(cmd).Keys == cmd.Keys;
    }
  }

  /** Applying the defaults twice is applying them once. */
  lemma DefaultsIdempotent(cmd: Command)
    ensures SetFilterDefaults(SetFilterDefaults(cmd)) == SetFilterDefaults(cmd)
  {
    DefaultsFixedIff(SetFilterDefaults(cmd));
  }

  /** `zipp` alone: the four filters and nothing else. */
  lemma BareInvocation(args: seq<string>, z: string)
    requires z == "zipp" && args == [z]
    ensures ProcessCommand(Some(args)) ==
      Parsed(map[Include := {"*"}, DeepInclude := {"*"}, Exclude := {}, DeepExclude := {}])
  {
    EqualsIgnoreCaseReflexive(z);
    var r := SetFilterDefaults(map[]);
    assert forall s | s in r :: s in {Include, DeepInclude, Exclude, DeepExclude};
  }

  /** With the upper-cased lookup `processCommand` never fails with a null switch. */
  lemma NeverNullSwitch(args: Option<seq<string>>)
    ensures var r := ProcessCommandWith(UpperCasedToken, args);
      r.Failed? ==> !r.error.NullSwitch?
  {
    if args.Some? && |args.value| > 1 && IsSwitchToken(args.value[1]) {
      var tail := args.value[1..];
      ScanNeverNull(ClassifyAll(UpperCasedToken, tail), |tail| > 1 && IsSwitchToken(tail[1]));
    }
  }

  // ---------------------------------------------------------------------------
  // The switch table as the parser sees it

  /** The sixteen forms, spelled out. */
  lemma AllSwitchFormsIs()
    ensures AllSwitchForms() ==
      {"-SRCDIR", "-DSTDIR", "-INCLUDE", "-EXCLUDE", "-DEEPINCLUDE", "-DEEPEXCLUDE", "-NORECURSE", "-ZIPFILE",
       "-S", "-D", "-I", "-E", "-DI", "-DE", "-NR", "-Z"}
  {
    AllNamesDashedIs();
    AllShortNamesDashedIs();
  }

  /** A form of the table is a form of some switch, and the lookup returns that switch. */
  lemma FormLookup(f: string)
    requires f in AllSwitchForms()
    ensures IsFormWord(f)
    ensures exists s :: (f == NameDashed(s) || f == ShortNameDashed(s)) && CorrespondingSwitch(f) == Some(s)
  {
    var s :| s in Values && (f == NameDashed(s) || f == ShortNameDashed(s));
    FormsAreFormWords(s);
    CorrespondingSwitchRoundTrip(s);
  }

  /** Every form word in the table names exactly the switch the lookup returns. */
  lemma FormOfLookup(f: string, s: Switch)
    requires f == NameDashed(s) || f == ShortNameDashed(s)
    ensures f in AllSwitchForms()
    ensures CorrespondingSwitch(f) == Some(s)
  {
    ValuesComplete(s);
    CorrespondingSwitchRoundTrip(s);
  }

  /**
    For ASCII tokens the two tests agree: the upper-case form is in the table
    exactly when the lookup finds a switch.
  */
  lemma SwitchTokenIffLookupAscii(t: string)
    requires AllAscii(t)
    ensures IsSwitchToken(t) <==> CorrespondingSwitch(t).Some?
  {
    CorrespondingSwitchIgnoresCase(t);
    var up := UpperString(t);
    if IsSwitchToken(t) {
      FormLookup(up);
    }
    if CorrespondingSwitch(t).Some? {
      var s := CorrespondingSwitch(t).value;
      UpperStringAscii(t);
      assert AllAscii(up);
      CorrespondingSwitchSpec(up, s);
      FormsAreFormWords(s);
      if EqualsIgnoreCase(NameDashed(s), up) {
        EqualsIgnoreCaseFormWord(NameDashed(s), up);
        UpperStringFormWord(NameDashed(s));
        UpperUpperAscii(t);
        FormOfLookup(NameDashed(s), s);
      } else {
        EqualsIgnoreCaseFormWord(ShortNameDashed(s), up);
        UpperUpperAscii(t);
        FormOfLookup(ShortNameDashed(s), s);
      }
    }
  }

  /** Upper-casing an ASCII string twice is upper-casing it once. */
  lemma UpperUpperAscii(t: string)
    requires AllAscii(t)
    ensures AllAscii(UpperString(t)) && UpperString(UpperString(t)) == UpperString(t)
  {
    UpperStringAscii(t);
    var up := UpperString(t);
    forall i | 0 <= i < |up| ensures IsAscii(up[i]) && UpperChar(up[i]) == up[i] {
      assert up[i] == UpperChar(t[i]);
    }
    UpperStringAscii(up);
  }

  /** For ASCII tokens both lookup modes find the same switch. */
  lemma LookupModesAgreeAscii(t: string)
    requires AllAscii(t)
    ensures LookupSwitch(OriginalToken, t) == LookupSwitch(UpperCasedToken, t)
  {
    CorrespondingSwitchIgnoresCase(t);
  }

  // ---------------------------------------------------------------------------
  // Where the two tests disagree

  /**
    One character compared ignoring case with a letter or dash of a form: it
    upper-cases to exactly that letter, unless it is the dotted capital I or
    the Kelvin sign, which upper-case to themselves.
  */
  lemma CharEqualsFormChar(y: char, x: char)
    requires IsFormChar(y) && CharEqualsIgnoreCase(y, x)
    ensures UpperExpansion(x) == [y] || x == '\U{0130}' || x == '\U{212A}'
  {
  }

  /** A string equal to a form ignoring case upper-cases to that form, or contains one of the two exceptions. */
  lemma {:induction false} EqualsFormUpper(f: string, t: string)
    requires IsFormWord(f) && EqualsIgnoreCase(f, t)
    ensures UpperString(t) == f || ContainsChar(t, '\U{0130}') || ContainsChar(t, '\U{212A}')
  {
    if t != [] {
      CharEqualsFormChar(f[0], t[0]);
      assert EqualsIgnoreCase(f[1..], t[1..]) by {
        forall i | 0 <= i < |f[1..]| ensures CharEqualsIgnoreCase(f[1..][i], t[1..][i]) {
          assert CharEqualsIgnoreCase(f[i + 1], t[i + 1]);
        }
      }
      EqualsFormUpper(f[1..], t[1..]);
      if ContainsChar(t[1..], '\U{0130}') {
        var i :| 0 <= i < |t[1..]| && t[1..][i] == '\U{0130}';
        assert t[i + 1] == '\U{0130}';
      } else if ContainsChar(t[1..], '\U{212A}') {
        var i :| 0 <= i < |t[1..]| && t[1..][i] == '\U{212A}';
        assert t[i + 1] == '\U{212A}';
      } else if UpperExpansion(t[0]) == [f[0]] {
        assert f == [f[0]] + f[1..];
      } else {
        assert t[0] == '\U{0130}' || t[0] == '\U{212A}';
      }
    }
  }

  /** The upper-case form of a string with a dotted capital I or a Kelvin sign keeps it. */
  lemma {:induction false} UpperKeepsExceptions(t: string, c: char)
    requires c == '\U{0130}' || c == '\U{212A}'
    requires ContainsChar(t, c)
    ensures ContainsChar(UpperString(t), c)
  {
    if t[0] == c {
      assert UpperString(t)[0] == c;
    } else {
      var i :| 0 <= i < |t| && t[i] == c;
      assert t[1..][i - 1] == c;
      UpperKeepsExceptions(t[1..], c);
      var j :| 0 <= j < |UpperString(t[1..])| && UpperString(t[1..])[j] == c;
      assert UpperString(t)[|UpperExpansion(t[0])| + j] == c;
    }
  }

  /**
    Whenever the original-token lookup succeeds on a recognised token, the
    upper-cased lookup finds the same switch.
  */
  lemma LookupAgreesWhenFound(t: string, s: Switch)
    requires IsSwitchToken(t) && CorrespondingSwitch(t) == Some(s)
    ensures LookupSwitch(UpperCasedToken, t) == Some(s)
  {
    var up := UpperString(t);
    FormLookup(up);
    assert Denotes(s, t);
    FormsAreFormWords(s);
    var f := if EqualsIgnoreCase(NameDashed(s), t) then NameDashed(s) else ShortNameDashed(s);
    EqualsFormUpper(f, t);
    if ContainsChar(t, '\U{0130}') {
      UpperKeepsExceptions(t, '\U{0130}');
      assert false;
    } else if ContainsChar(t, '\U{212A}') {
      UpperKeepsExceptions(t, '\U{212A}');
      assert false;
    } else {
      assert up == f;
      FormOfLookup(f, s);
    }
  }

  /** The "fi" ligature upper-cases to two letters. */
  lemma LigatureUpperCase(t: string)
    requires t == "-zip\U{FB01}le"
    ensures UpperString(t) == "-ZIPFILE"
  {
    assert t == "-zip" + ("\U{FB01}" + "le");
    UpperStringAppend("-zip", "\U{FB01}" + "le");
    UpperStringAppend("\U{FB01}", "le");
    UpperStringAscii("-zip");
    UpperStringAscii("le");
  }

  /** The only forms with a 'Z' in second place are "-ZIPFILE" and "-Z", neither of seven characters. */
  lemma LigatureNotDenoted(t: string)
    requires t == "-zip\U{FB01}le"
    ensures CorrespondingSwitch(t) == None
  {
    assert |t| == 7 && t[1] == 'z';
    forall u: Switch ensures !Denotes(u, t) {
      ShortNameTable();
      var n, m := NameDashed(u), ShortNameDashed(u);
      assert |m| <= 3;
      if |n| == 7 {
        assert u == SrcDir || u == DstDir;
        assert n[1] == 'S' || n[1] == 'D';
        assert !CharEqualsIgnoreCase(n[1], t[1]);
      }
    }
    assert forall k :: 0 <= k < |Values| ==> !Denotes(Values[k], t);
  }

  /** A token written with the "fi" ligature is recognised, but the lookup of the token finds nothing. */
  lemma LigatureTokenLooksUpNull(t: string)
    requires t == "-zip\U{FB01}le"
    ensures IsSwitchToken(t)
    ensures CorrespondingSwitch(t) == None
    ensures LookupSwitch(UpperCasedToken, t) == Some(ZipFile)
  {
    LigatureUpperCase(t);
    FormOfLookup("-ZIPFILE", ZipFile);
    LigatureNotDenoted(t);
  }

  /** A token is classified alike by both lookups, unless the program's lookup finds nothing. */
  lemma ClassifyAgrees(t: string)
    ensures var a := Classify(OriginalToken, t);
      a == Classify(UpperCasedToken, t) || (a.Opening? && a.found.None?)
  {
    if IsSwitchToken(t) && CorrespondingSwitch(t).Some? {
      LookupAgreesWhenFound(t, CorrespondingSwitch(t).value);
    }
  }

  /** Tokens classified alike, except where the first sequence has a switch form the lookup missed. */
  predicate AgreeExceptNull(a: seq<Token>, b: seq<Token>) {
    |a| == |b| && forall i | 0 <= i < |a| :: a[i] == b[i] || (a[i].Opening? && a[i].found.None?)
  }

  /** On such tokens the two scans end alike, unless the first stops at a null switch. */
  lemma {:induction false} ScanFoldAgrees(a: seq<Token>, b: seq<Token>, secondIsSwitch: bool)
    requires AgreeExceptNull(a, b) && |a| >= 1 && a[0].Opening? && b[0].Opening?
    ensures var ra := ScanFold(a, secondIsSwitch);
      ra == ScanFold(b, secondIsSwitch) || (ra.Err? && ra.error.NullSwitch?)
    decreases |a|
  {
    if |a| > 1 {
      var n := |a| - 1;
      assert AgreeExceptNull(a[..n], b[..n]) by {
        forall i | 0 <= i < n ensures a[..n][i] == a[i] && b[..n][i] == b[i] {}
      }
      ScanFoldAgrees(a[..n], b[..n], secondIsSwitch);
    }
  }

  /**
    The program's `processCommand` and the corrected one give the same outcome,
    except that the program may fail with a null switch.
  */
  lemma ProcessCommandAgrees(args: Option<seq<string>>)
    ensures var a := ProcessCommandWith(OriginalToken, args);
      a == ProcessCommand(args) || (a.Failed? && a.error.NullSwitch?)
  {
    if args.Some? && |args.value| > 1 && IsSwitchToken(args.value[1]) {
      var tail := args.value[1..];
      var a := ClassifyAll(OriginalToken, tail);
      var b := ClassifyAll(UpperCasedToken, tail);
      forall i | 0 <= i < |tail| ensures a[i] == b[i] || (a[i].Opening? && a[i].found.None?) {
        ClassifyAgrees(tail[i]);
      }
      ScanFoldAgrees(a, b, |tail| > 1 && IsSwitchToken(tail[1]));
    }
  }

  /**
    The ligature token makes the program fail, while the corrected parser
    reads it as the archive-name switch.
  */
  lemma LigatureCommand(args: seq<string>, z: string, t: string, v: string)
    requires z == "zipp" && t == "-zip\U{FB01}le" && v == "a.zip"
    requires args == [z, t, v]
    ensures ProcessCommandAsWritten(Some(args)) == Failed(NullSwitch(t))
    ensures ProcessCommand(Some(args)).Parsed?
    ensures var cmd := ProcessCommand(Some(args)).cmd; ZipFile in cmd && cmd[ZipFile] == {v}
  {
    LigatureAsWritten(args, z, t, v);
    LigatureCorrected(args, z, t, v);
  }

  /** The program's lookup of the ligature token comes back null. */
  lemma LigatureAsWritten(args: seq<string>, z: string, t: string, v: string)
    requires z == "zipp" && t == "-zip\U{FB01}le" && v == "a.zip"
    requires args == [z, t, v]
    ensures ProcessCommandAsWritten(Some(args)) == Failed(NullSwitch(t))
  {
    EqualsIgnoreCaseReflexive(z);
    LigatureTokenLooksUpNull(t);
    assert args[1..] == [t, v] && args[1] == t;
    ProcessOfParse(OriginalToken, args);
    ScanNullFirst(OriginalToken, t, v);
  }

  /** The upper-cased lookup reads the ligature token as `-ZIPFILE`. */
  lemma LigatureCorrected(args: seq<string>, z: string, t: string, v: string)
    requires z == "zipp" && t == "-zip\U{FB01}le" && v == "a.zip"
    requires args == [z, t, v]
    ensures ProcessCommand(Some(args)).Parsed?
    ensures var cmd := ProcessCommand(Some(args)).cmd; ZipFile in cmd && cmd[ZipFile] == {v}
  {
    LigatureProcess(args, z, t, v);
    assert !DefaultReplaces(map[ZipFile := {v}], ZipFile);
  }

  lemma LigatureProcess(args: seq<string>, z: string, t: string, v: string)
    requires z == "zipp" && t == "-zip\U{FB01}le" && v == "a.zip"
    requires args == [z, t, v]
    ensures ProcessCommand(Some(args)) == Parsed(SetFilterDefaults(map[ZipFile := {v}]))
  {
    EqualsIgnoreCaseReflexive(z);
    LigatureParse(t, v);
    assert args[1..] == [t, v] && args[1] == t;
    ProcessOfParse(UpperCasedToken, args);
  }

  lemma LigatureParse(t: string, v: string)
    requires t == "-zip\U{FB01}le" && v == "a.zip"
    ensures IsSwitchToken(t)
    ensures ParseCommands(UpperCasedToken, [t, v]) == Ok(map[ZipFile := {v}])
  {
    LigatureTokenLooksUpNull(t);
    ArchiveNameValue(v);
    ScanSingleValue(UpperCasedToken, t, v, ZipFile);
  }

  /** "a.zip" is a plain file name. */
  lemma ArchiveNameValue(v: string)
    requires v == "a.zip"
    ensures !IsSwitchToken(v) && !StartsWith(v, "-") && BareName(v)
  {
    PlainValue(v);
    assert forall i | 0 <= i < |v| :: v[i] != FileSeparator;
  }

  /** After `zipp` and a switch form, `processCommand` is the parse followed by the defaults. */
  lemma ProcessOfParse(mode: LookupMode, args: seq<string>)
    requires |args| >= 2 && EqualsIgnoreCase(args[0], "zipp") && IsSwitchToken(args[1])
    ensures var r := ParseCommands(mode, args[1..]);
      ProcessCommandWith(mode, Some(args)) ==
        if r.Err? then Failed(r.error) else Parsed(SetFilterDefaults(r.value))
  {
  }

  /** Classifying two tokens. */
  lemma ClassifyPair(mode: LookupMode, t: string, v: string)
    ensures ClassifyAll(mode, [t, v]) == [Classify(mode, t), Classify(mode, v)]
  {
    assert [t, v][1..] == [v];
  }

  /** A scan is the scan of all but the last token, followed by one step. */
  lemma ScanFoldSnoc(toks: seq<Token>, x: Token, secondIsSwitch: bool)
    requires |toks| >= 1 && toks[0].Opening?
    ensures var r := ScanFold(toks, secondIsSwitch);
      ScanFold(toks + [x], secondIsSwitch) ==
        if r.Err? then Err(r.error) else Step(r.value, x, secondIsSwitch)
  {
    assert (toks + [x])[..|toks|] == toks;
  }

  /** `parseCommands` is the scan of the classified tokens. */
  lemma ParseIsFold(mode: LookupMode, t: string, v: string)
    requires IsSwitchToken(t)
    ensures var r := ScanFold(ClassifyAll(mode, [t, v]), IsSwitchToken(v));
      ParseCommands(mode, [t, v]) == if r.Err? then Err(r.error) else Ok(r.value.cmd)
  {
    assert [t, v][1] == v;
  }

  /** A first switch form the lookup misses stops the scan at once. */
  lemma ScanNullFirst(mode: LookupMode, t: string, v: string)
    requires IsSwitchToken(t) && LookupSwitch(mode, t) == None
    ensures ParseCommands(mode, [t, v]) == Err(NullSwitch(t))
  {
    ClassifyPair(mode, t, v);
    ScanFoldSnoc([Opening(t, None)], Classify(mode, v), IsSwitchToken(v));
    ParseIsFold(mode, t, v);
  }

  /** A switch followed by one acceptable value gives a one-entry map. */
  lemma ScanSingleValue(mode: LookupMode, t: string, v: string, s: Switch)
    requires IsSwitchToken(t) && LookupSwitch(mode, t) == Some(s) && !IsSwitchToken(v)
    requires s != NoRecurse && !StartsWith(v, "-") && (TakesBareNames(s) ==> BareName(v))
    ensures ParseCommands(mode, [t, v]) == Ok(map[s := {v}])
  {
    ClassifyPair(mode, t, v);
    FoldSingleValue(t, v, s);
    ParseIsFold(mode, t, v);
  }

  /** The same on classified tokens. */
  lemma FoldSingleValue(t: string, v: string, s: Switch)
    requires s != NoRecurse && !StartsWith(v, "-") && (TakesBareNames(s) ==> BareName(v))
    ensures ScanFold([Opening(t, Some(s)), Argument(v)], false) == Ok(Scan(map[s := {v}], s))
  {
    var st := Scan(map[s := {}], s);
    assert ScanFold([Opening(t, Some(s))], false) == Ok(st);
    assert st.cmd[s := {} + {v}] == map[s := {v}];
    ScanFoldSnoc([Opening(t, Some(s))], Argument(v), false);
  }

  /** Every form starts with a dash followed by one of the switches' initials. */
  lemma FormShape(f: string)
    requires f in AllSwitchForms()
    ensures |f| >= 2 && f[0] == '-' && f[1] in "SDIEDNZ"
  {
    var s :| s in Values && (f == NameDashed(s) || f == ShortNameDashed(s));
    SecondLetter(s);
  }

  /** A token that starts with an ASCII character other than the dash is a value. */
  lemma PlainValue(t: string)
    requires |t| >= 1 && IsAscii(t[0]) && t[0] != '-'
    ensures !IsSwitchToken(t)
  {
    var up := UpperString(t);
    assert up[0] == UpperChar(t[0]);
    if up in AllSwitchForms() {
      FormShape(up);
    }
  }

  /** A dotted capital I survives upper-casing. */
  lemma DottedCapitalUpperCase(t: string)
    requires t == "-\U{0130}NCLUDE"
    ensures UpperString(t) == t
  {
    forall i | 0 <= i < |t| ensures UpperExpansion(t[i]) == [t[i]] {
      assert IsFormChar(t[i]) || t[i] == '\U{0130}';
    }
    UpperStringFixed(t);
  }

  /** A string of characters that upper-case to themselves is its own upper-case form. */
  lemma {:induction false} UpperStringFixed(s: string)
    requires forall i | 0 <= i < |s| :: UpperExpansion(s[i]) == [s[i]]
    ensures UpperString(s) == s
  {
    if s != [] {
      UpperStringFixed(s[1..]);
      assert s == [s[0]] + s[1..];
    }
  }

  /** A dotted capital I lower-cases to 'i', so the token equals "-INCLUDE" ignoring case. */
  lemma DottedCapitalDenotesInclude(t: string)
    requires t == "-\U{0130}NCLUDE"
    ensures CorrespondingSwitch(t) == Some(Include)
  {
    ShortNameTable();
    var f := NameDashed(Include);
    assert f == "-INCLUDE" && |t| == 8;
    assert EqualsIgnoreCase(f, t) by {
      forall i | 0 <= i < 8 ensures CharEqualsIgnoreCase(f[i], t[i]) {
        if i == 1 {
          assert LowerChar(UpperChar(f[1])) == 'i' == LowerChar(UpperChar(t[1]));
        } else {
          assert f[i] == t[i];
        }
      }
    }
    assert !CharEqualsIgnoreCase(NameDashed(SrcDir)[1], t[1]);
    assert !CharEqualsIgnoreCase(NameDashed(DstDir)[1], t[1]);
    assert !Denotes(SrcDir, t) && !Denotes(DstDir, t);
    assert Values[2..][0] == Include;
    assert FirstDenoted(Values[2..], t) == Some(Include);
    assert Values[1..][1..] == Values[2..];
    assert FirstDenoted(Values[1..], t) == Some(Include);
  }

  /** A token written with a dotted capital I is not recognised, although the lookup finds a switch. */
  lemma DottedCapitalTokenIsNotRecognised(t: string)
    requires t == "-\U{0130}NCLUDE"
    ensures !IsSwitchToken(t)
    ensures CorrespondingSwitch(t) == Some(Include)
  {
    DottedCapitalUpperCase(t);
    if t in AllSwitchForms() {
      FormLookup(t);
      assert false;
    }
    DottedCapitalDenotesInclude(t);
  }

  // ---------------------------------------------------------------------------
  // What a successful scan contains

  /** The switch governing position `i`: the one opened by the nearest switch form at or before it. */
  function Governor(toks: seq<Token>, i: nat): Switch
    requires i < |toks| && toks[0].Opening? && Resolved(toks)
    decreases i
  {
    if toks[i].Opening? then toks[i].found.value else Governor(toks, i - 1)
  }

  /** The values that follow an opening of `s` with no switch form in between. */
  function Assigned(toks: seq<Token>, s: Switch): set<string>
    requires |toks| >= 1 && toks[0].Opening? && Resolved(toks)
  {
    set i | 0 <= i < |toks| && toks[i].Argument? && Governor(toks, i) == s :: toks[i].text
  }

  /** Some switch form among the tokens opens `s`. */
  predicate Mentioned(toks: seq<Token>, s: Switch) {
    exists i :: 0 <= i < |toks| && toks[i].Opening? && toks[i].found == Some(s)
  }

  /**
    What the scan of `toks` should hold for `s`: `s` is a key when it collected
    a value, when it is the last switch opened, or when it is no-recurse and
    was given; its values are the tokens it governs.
  */
  predicate DescribesSwitch(toks: seq<Token>, st: Scan, s: Switch)
    requires |toks| >= 1 && toks[0].Opening? && Resolved(toks)
  {
    && (s in st.cmd <==>
         Assigned(toks, s) != {} || s == st.current || (s == NoRecurse && Mentioned(toks, NoRecurse)))
    && (s in st.cmd ==> st.cmd[s] == Assigned(toks, s))
  }

  /** The scan state `st` is the one the tokens describe. */
  predicate Describes(toks: seq<Token>, st: Scan)
    requires |toks| >= 1 && toks[0].Opening? && Resolved(toks)
  {
    && st.current == Governor(toks, |toks| - 1)
    && forall s: Switch :: DescribesSwitch(toks, st, s)
  }

  lemma ResolvedPrefix(toks: seq<Token>, n: nat)
    requires Resolved(toks) && n <= |toks|
    ensures Resolved(toks[..n])
  {
    forall i | 0 <= i < n ensures toks[..n][i] == toks[i] {}
  }

  /** Governors of a prefix do not depend on what follows it. */
  lemma {:induction false} GovernorPrefix(toks: seq<Token>, n: nat, i: nat)
    requires i < n <= |toks| && toks[0].Opening? && Resolved(toks)
    ensures Resolved(toks[..n]) && Governor(toks, i) == Governor(toks[..n], i)
    decreases i
  {
    ResolvedPrefix(toks, n);
    assert toks[..n][i] == toks[i];
    if toks[i].Argument? {
      GovernorPrefix(toks, n, i - 1);
    }
  }

  /** The governor of any position is a switch the tokens mention. */
  lemma {:induction false} GovernorMentioned(toks: seq<Token>, i: nat)
    requires i < |toks| && toks[0].Opening? && Resolved(toks)
    ensures Mentioned(toks, Governor(toks, i))
    decreases i
  {
    if toks[i].Argument? {
      GovernorMentioned(toks, i - 1);
    }
  }

  /** One more token adds it to the values of its governor, if it is a value. */
  lemma AssignedLast(toks: seq<Token>, s: Switch)
    requires |toks| >= 2 && toks[0].Opening? && Resolved(toks)
    ensures Resolved(toks[..|toks| - 1])
    ensures var p := toks[..|toks| - 1]; var x := toks[|toks| - 1];
      Assigned(toks, s) ==
        Assigned(p, s) + (if x.Argument? && Governor(p, |p| - 1) == s then {x.text} else {})
  {
    var n := |toks| - 1;
    var p := toks[..n];
    var x := toks[n];
    ResolvedPrefix(toks, n);
    var extra := if x.Argument? && Governor(p, n - 1) == s then {x.text} else {};
    forall v | v in Assigned(toks, s) ensures v in Assigned(p, s) + extra {
      var i :| 0 <= i < |toks| && toks[i].Argument? && Governor(toks, i) == s && toks[i].text == v;
      if i < n {
        GovernorPrefix(toks, n, i);
        assert p[i] == toks[i];
      } else {
        GovernorPrefix(toks, n, n - 1);
      }
    }
    forall v | v in Assigned(p, s) + extra ensures v in Assigned(toks, s) {
      if v in Assigned(p, s) {
        var i :| 0 <= i < n && p[i].Argument? && Governor(p, i) == s && p[i].text == v;
        GovernorPrefix(toks, n, i);
        assert p[i] == toks[i];
      } else {
        GovernorPrefix(toks, n, n - 1);
        assert Governor(toks, n) == s;
      }
    }
  }

  /** One more token mentions its switch, if it is a switch form. */
  lemma MentionedLast(toks: seq<Token>, s: Switch)
    requires |toks| >= 1
    ensures Mentioned(toks, s) <==>
      Mentioned(toks[..|toks| - 1], s) || (toks[|toks| - 1].Opening? && toks[|toks| - 1].found == Some(s))
  {
    var p := toks[..|toks| - 1];
    if Mentioned(p, s) {
      var i :| 0 <= i < |p| && p[i].Opening? && p[i].found == Some(s);
      assert toks[i] == p[i];
    }
    if Mentioned(toks, s) {
      var i :| 0 <= i < |toks| && toks[i].Opening? && toks[i].found == Some(s);
      if i < |p| {
        assert toks[i] == p[i];
      }
    }
  }

  /** The first token alone: one key, the switch it opens, with no values. */
  lemma StartDescribes(toks: seq<Token>)
    requires |toks| == 1 && toks[0].Opening? && Resolved(toks)
    ensures StartScan(toks[0]).Ok? && Describes(toks, StartScan(toks[0]).value)
  {
    var st := StartScan(toks[0]).value;
    forall s: Switch ensures DescribesSwitch(toks, st, s) {
      assert Assigned(toks, s) == {};
    }
  }

  /** A switch form opens a fresh entry and drops the previous one if it stayed empty. */
  lemma OpenDescribesSwitch(toks: seq<Token>, st: Scan, st': Scan, s: Switch)
    requires |toks| >= 2 && toks[0].Opening? && Resolved(toks)
    requires Resolved(toks[..|toks| - 1])
    requires var x := toks[|toks| - 1]; x.Opening? && x.found.Some?
    requires st.current in st.cmd && st.current == Governor(toks[..|toks| - 1], |toks| - 2)
    requires DescribesSwitch(toks[..|toks| - 1], st, s)
    requires DescribesSwitch(toks[..|toks| - 1], st, NoRecurse)
    requires var n := toks[|toks| - 1].found.value;
      n !in st.cmd && st' == Scan(Settled(st)[n := {}], n)
    ensures DescribesSwitch(toks, st', s)
  {
    GovernorMentioned(toks[..|toks| - 1], |toks| - 2);
    MentionedLast(toks, NoRecurse);
    AssignedLast(toks, s);
  }

  /** A value joins the values of the current switch. */
  lemma AddDescribesSwitch(toks: seq<Token>, st: Scan, st': Scan, s: Switch)
    requires |toks| >= 2 && toks[0].Opening? && Resolved(toks)
    requires Resolved(toks[..|toks| - 1])
    requires toks[|toks| - 1].Argument?
    requires st.current in st.cmd && st.current == Governor(toks[..|toks| - 1], |toks| - 2)
    requires DescribesSwitch(toks[..|toks| - 1], st, s)
    requires st' == Scan(st.cmd[st.current := st.cmd[st.current] + {toks[|toks| - 1].text}], st.current)
    ensures DescribesSwitch(toks, st', s)
  {
    MentionedLast(toks, NoRecurse);
    AssignedLast(toks, s);
  }

  /** One successful step keeps the description up to date. */
  lemma StepDescribes(toks: seq<Token>, st: Scan, secondIsSwitch: bool)
    requires |toks| >= 2 && toks[0].Opening? && Resolved(toks)
    requires Resolved(toks[..|toks| - 1])
    requires ScanInvariant(st) && Describes(toks[..|toks| - 1], st)
    requires Step(st, toks[|toks| - 1], secondIsSwitch).Ok?
    ensures Describes(toks, Step(st, toks[|toks| - 1], secondIsSwitch).value)
  {
    var p := toks[..|toks| - 1];
    var x := toks[|toks| - 1];
    var st' := Step(st, x, secondIsSwitch).value;
    GovernorPrefix(toks, |toks| - 1, |toks| - 2);
    if x.Opening? {
      assert x.found.Some?;
      forall s: Switch ensures DescribesSwitch(toks, st', s) {
        OpenDescribesSwitch(toks, st, st', s);
      }
    } else {
      forall s: Switch ensures DescribesSwitch(toks, st', s) {
        AddDescribesSwitch(toks, st, st', s);
      }
    }
  }

  /** A successful scan over resolved tokens holds exactly the map the tokens describe. */
  lemma {:induction false} ScanDescribes(toks: seq<Token>, secondIsSwitch: bool)
    requires |toks| >= 1 && toks[0].Opening? && Resolved(toks)
    ensures ScanFold(toks, secondIsSwitch).Ok? ==> Describes(toks, ScanFold(toks, secondIsSwitch).value)
    decreases |toks|
  {
    if |toks| == 1 {
      StartDescribes(toks);
    } else {
      var p := toks[..|toks| - 1];
      ResolvedPrefix(toks, |toks| - 1);
      ScanDescribes(p, secondIsSwitch);
      match ScanFold(p, secondIsSwitch)
      case Err(e) =>
      case Ok(st) =>
        if Step(st, toks[|toks| - 1], secondIsSwitch).Ok? {
          StepDescribes(toks, st, secondIsSwitch);
        }
    }
  }

  /** With the corrected lookup every switch form has its switch. */
  lemma ClassifiedResolved(tail: seq<string>)
    ensures Resolved(ClassifyAll(UpperCasedToken, tail))
  {
    var toks := ClassifyAll(UpperCasedToken, tail);
    forall i | 0 <= i < |toks| ensures toks[i].Opening? ==> toks[i].found.Some? {
      assert toks[i] == Classify(UpperCasedToken, tail[i]);
    }
  }

  /**
    The contents of a successful parse: a switch is a key exactly when it
    collected a value, is the last switch given, or is no-recurse and was
    given; and its values are exactly the tokens that followed it.
  */
  lemma ParseContents(tail: seq<string>, s: Switch)
    requires |tail| >= 1 && IsSwitchToken(tail[0])
    requires ParseCommands(UpperCasedToken, tail).Ok?
    ensures var toks := ClassifyAll(UpperCasedToken, tail);
      var cmd := ParseCommands(UpperCasedToken, tail).value;
      && Resolved(toks)
      && (s in cmd <==>
           Assigned(toks, s) != {} || s == Governor(toks, |toks| - 1)
           || (s == NoRecurse && Mentioned(toks, NoRecurse)))
      && (s in cmd ==> cmd[s] == Assigned(toks, s))
  {
    var toks := ClassifyAll(UpperCasedToken, tail);
    assert Resolved(toks) by {
      forall i | 0 <= i < |toks| ensures toks[i].Opening? ==> toks[i].found.Some? {
        assert toks[i] == Classify(UpperCasedToken, tail[i]);
      }
    }
    ScanDescribes(toks, |tail| > 1 && IsSwitchToken(tail[1]));
    assert DescribesSwitch(toks, ScanTokens(UpperCasedToken, tail).value, s);
  }

  // ---------------------------------------------------------------------------
  // When a scan fails

  /**
    The error a token raises after the tokens `p`, read off what `p`
    describes rather than off the scan state: a switch already among the keys
    `p` describes is a duplicate (lines 54-55); a value is refused, in the
    order of lines 62-78, when it is dashed and the token after the first
    switch is a value, when its switch is no-recurse, when its single-valued
    switch already holds a value, or when it is a path given to a switch that
    takes file names.
  */
  function StepError(p: seq<Token>, x: Token, secondIsSwitch: bool): Option<ParseError>
    requires |p| >= 1 && p[0].Opening? && Resolved(p) && (x.Opening? ==> x.found.Some?)
  {
    var g := Governor(p, |p| - 1);
    match x
    case Opening(t, found) =>
      var s := found.value;
      if Assigned(p, s) != {} || s == g || (s == NoRecurse && Mentioned(p, NoRecurse)) then
        Some(DuplicateSwitch(t))
      else None
    case Argument(t) =>
      if StartsWith(t, "-") && !secondIsSwitch then Some(InvalidSwitch(t))
      else if g == NoRecurse then Some(NoRecurseTakesNoArguments)
      else if !IsMultiValued(g) && Assigned(p, g) != {} then Some(TooManyArguments(t))
      else if !BareName(t) && TakesBareNames(g) then Some(PathNotAllowed(t))
      else None
  }

  /** The error token `j` raises after the tokens before it. */
  function ErrorAt(toks: seq<Token>, j: nat, secondIsSwitch: bool): Option<ParseError>
    requires 1 <= j < |toks| && toks[0].Opening? && Resolved(toks)
  {
    ResolvedPrefix(toks, j);
    StepError(toks[..j], toks[j], secondIsSwitch)
  }

  /** On a state the tokens describe, a step fails exactly as the description predicts. */
  lemma StepMatchesError(p: seq<Token>, x: Token, st: Scan, secondIsSwitch: bool)
    requires |p| >= 1 && p[0].Opening? && Resolved(p) && (x.Opening? ==> x.found.Some?)
    requires ScanInvariant(st) && Describes(p, st)
    ensures Step(st, x, secondIsSwitch).Ok? <==> StepError(p, x, secondIsSwitch).None?
    ensures Step(st, x, secondIsSwitch).Err? ==>
      StepError(p, x, secondIsSwitch) == Some(Step(st, x, secondIsSwitch).error)
  {
    if x.Opening? {
      assert DescribesSwitch(p, st, x.found.value);
    } else {
      assert DescribesSwitch(p, st, st.current);
    }
  }

  /** No token from position 1 up to, not including, `j` raises an error. */
  predicate NoErrorBefore(toks: seq<Token>, j: nat, secondIsSwitch: bool)
    requires j <= |toks| && |toks| >= 1 && toks[0].Opening? && Resolved(toks)
  {
    forall k | 1 <= k < j :: ErrorAt(toks, k, secondIsSwitch).None?
  }

  /** Token `j` is the first to raise an error, and the error is `e`. */
  predicate FirstErrorAt(toks: seq<Token>, j: nat, secondIsSwitch: bool, e: ParseError)
    requires |toks| >= 1 && toks[0].Opening? && Resolved(toks)
  {
    1 <= j < |toks| && ErrorAt(toks, j, secondIsSwitch) == Some(e) && NoErrorBefore(toks, j, secondIsSwitch)
  }

  /** Errors inside a prefix do not depend on what follows it. */
  lemma ErrorAtPrefix(toks: seq<Token>, n: nat, secondIsSwitch: bool)
    requires 1 <= n <= |toks| && toks[0].Opening? && Resolved(toks)
    ensures Resolved(toks[..n])
    ensures forall j | 1 <= j < n :: ErrorAt(toks[..n], j, secondIsSwitch) == ErrorAt(toks, j, secondIsSwitch)
  {
    ResolvedPrefix(toks, n);
    forall j | 1 <= j < n ensures ErrorAt(toks[..n], j, secondIsSwitch) == ErrorAt(toks, j, secondIsSwitch) {
      assert toks[..n][..j] == toks[..j] && toks[..n][j] == toks[j];
    }
  }

  /**
    Over resolved tokens, the scan succeeds exactly when no token raises an
    error after the tokens before it; when it fails, its error is the one the
    first such token raises.
  */
  lemma {:induction false} ScanFailsAt(toks: seq<Token>, secondIsSwitch: bool)
    requires |toks| >= 1 && toks[0].Opening? && Resolved(toks)
    ensures ScanFold(toks, secondIsSwitch).Ok? <==> NoErrorBefore(toks, |toks|, secondIsSwitch)
    ensures ScanFold(toks, secondIsSwitch).Err? ==>
      exists j :: FirstErrorAt(toks, j, secondIsSwitch, ScanFold(toks, secondIsSwitch).error)
    decreases |toks|
  {
    if |toks| > 1 {
      var p := toks[..|toks| - 1];
      ResolvedPrefix(toks, |toks| - 1);
      ScanFailsAt(p, secondIsSwitch);
      if ScanFold(p, secondIsSwitch).Err? {
        var j :| FirstErrorAt(p, j, secondIsSwitch, ScanFold(p, secondIsSwitch).error);
        FailsInPrefix(toks, secondIsSwitch, j);
      } else {
        FailsAtLast(toks, secondIsSwitch);
      }
    }
  }

  /** The scan of the tokens before the last already failed: so does the whole scan, at the same token. */
  lemma FailsInPrefix(toks: seq<Token>, secondIsSwitch: bool, j: nat)
    requires |toks| >= 2 && toks[0].Opening? && Resolved(toks)
    requires Resolved(toks[..|toks| - 1])
    requires ScanFold(toks[..|toks| - 1], secondIsSwitch).Err?
    requires FirstErrorAt(toks[..|toks| - 1], j, secondIsSwitch, ScanFold(toks[..|toks| - 1], secondIsSwitch).error)
    ensures ScanFold(toks, secondIsSwitch).Err? && !NoErrorBefore(toks, |toks|, secondIsSwitch)
    ensures exists j :: FirstErrorAt(toks, j, secondIsSwitch, ScanFold(toks, secondIsSwitch).error)
  {
    var n := |toks| - 1;
    var p := toks[..n];
    var e := ScanFold(p, secondIsSwitch).error;
    assert ScanFold(toks, secondIsSwitch) == Err(e);
    ErrorAtPrefix(toks, n, secondIsSwitch);
    assert ErrorAt(toks, j, secondIsSwitch) == Some(e);
    assert NoErrorBefore(toks, j, secondIsSwitch);
    assert FirstErrorAt(toks, j, secondIsSwitch, e);
  }

  /** The tokens before the last scan cleanly: the last token decides, as the description predicts. */
  lemma FailsAtLast(toks: seq<Token>, secondIsSwitch: bool)
    requires |toks| >= 2 && toks[0].Opening? && Resolved(toks)
    requires Resolved(toks[..|toks| - 1])
    requires ScanFold(toks[..|toks| - 1], secondIsSwitch).Ok?
    requires NoErrorBefore(toks[..|toks| - 1], |toks| - 1, secondIsSwitch)
    ensures ScanFold(toks, secondIsSwitch).Ok? <==> NoErrorBefore(toks, |toks|, secondIsSwitch)
    ensures ScanFold(toks, secondIsSwitch).Err? ==>
      FirstErrorAt(toks, |toks| - 1, secondIsSwitch, ScanFold(toks, secondIsSwitch).error)
  {
    var n := |toks| - 1;
    var p := toks[..n];
    var st := ScanFold(p, secondIsSwitch).value;
    assert ScanFold(toks, secondIsSwitch) == Step(st, toks[n], secondIsSwitch);
    ErrorAtPrefix(toks, n, secondIsSwitch);
    assert NoErrorBefore(toks, n, secondIsSwitch);
    ScanDescribes(p, secondIsSwitch);
    StepMatchesError(p, toks[n], st, secondIsSwitch);
    assert ErrorAt(toks, n, secondIsSwitch) == StepError(p, toks[n], secondIsSwitch);
  }

  /**
    `parseCommands` with the corrected lookup fails exactly when some token
    after `zipp` raises an error after the tokens before it, and then with the
    first such token's error.
  */
  lemma ParseFailsAt(tail: seq<string>)
    requires |tail| >= 1 && IsSwitchToken(tail[0])
    ensures var toks := ClassifyAll(UpperCasedToken, tail);
      var second := |tail| > 1 && IsSwitchToken(tail[1]);
      && Resolved(toks)
      && (ParseCommands(UpperCasedToken, tail).Ok? <==> NoErrorBefore(toks, |toks|, second))
      && (ParseCommands(UpperCasedToken, tail).Err? ==>
           exists j :: FirstErrorAt(toks, j, second, ParseCommands(UpperCasedToken, tail).error))
  {
    ClassifiedResolved(tail);
    ScanFailsAt(ClassifyAll(UpperCasedToken, tail), |tail| > 1 && IsSwitchToken(tail[1]));
  }
}
