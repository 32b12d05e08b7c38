/**
  `pipe`: the command line is parsed, the folders and the archive's path are
  set, and the source folder is walked into the archive.

  The file system enters as parameters: the environment of `setDirectories`,
  and `contents`, the children of a folder while the walk runs (the archive
  being written is already among them when it lies in the source folder).
*/
module Zipper {
  import opened Results
  import opened Strings
  import opened Switches
  import opened CommandParser
  import opened Paths
  import opened Glob
  import opened OutputSetup
  import opened Traversal

  /** How a run of `pipe` ends. */
  datatype Run =
    | Quiet                                       // `processCommand` returned null
    | Rejected(parseError: ParseError)            // `processCommand` threw
    | Conflict(setupError: SetupError)            // `setDirectories` threw
    | Zipped(setup: Setup, entries: seq<string>)  // the archive's entry names, in order
    | Crashed                                     // `skip` threw on a file without a parent folder

  /**
    Every value given to one of the four filter switches is a plain pattern;
    the values of the other switches are never compiled as patterns.
  */
  predicate PlainFilterValues(args: Option<seq<string>>) {
    args.Some? && |args.value| >= 2 && IsSwitchToken(args.value[1]) ==>
      var toks := ClassifyAll(UpperCasedToken, args.value[1..]);
      ClassifiedResolved(args.value[1..]);
      forall i | 0 <= i < |toks| && toks[i].Argument? && IsMultiValued(Governor(toks, i)) ::
        IsPlainPattern(toks[i].text)
  }

  /** What `pipe` does once `processCommand` has returned or thrown. */
  function Continue(o: Outcome, check: ArchiveCheck, env: Environment, contents: Path -> seq<Node>): (r: Run)
    requires ValidEnvironment(env) && (o.Parsed? ==> WellFormed(o.cmd) && FilterReady(o.cmd))
    ensures r.Quiet? <==> o.NotInvocation?
    ensures r.Rejected? <==> o.Failed?
    ensures r.Rejected? ==> r.parseError == o.error
    ensures r.Conflict? <==>
      && o.Parsed?
      && RequestedName(o.cmd).Some?
      && env.fileExists(Resolve(ChosenFolder(o.cmd, DstDir, env), Parse(RequestedName(o.cmd).value)))
    ensures r.Zipped? ==> |r.entries| >= 1 && r.entries[0] == "/"
    ensures !r.Crashed?
  {
    match o
    case NotInvocation => Quiet
    case Failed(e) => Rejected(e)
    case Parsed(cmd) =>
      match SetDirectories(cmd, env)
      case Err(e) => Conflict(e)
      case Ok(setup) =>
        Zipped(setup, ArchiveNames(WalkOf(cmd, setup, env, check), contents(setup.source)))
  }

  /**
    What `pipe` does once `processCommand` has returned or thrown, as the
    program runs the walk: the archive recognised by `Path.equals`, and
    `skip` throwing on a file directly in a source folder given as the empty
    path. Every other run ends as `Continue` says.
  */
  function ContinueAsWritten(o: Outcome, env: Environment, contents: Path -> seq<Node>): (r: Run)
    requires ValidEnvironment(env) && (o.Parsed? ==> WellFormed(o.cmd) && FilterReady(o.cmd))
    ensures r.Crashed? ==>
      && o.Parsed?
      && SetDirectories(o.cmd, env).Ok?
      && SetDirectories(o.cmd, env).value.source == Path(false, [])
    ensures !r.Crashed? ==> r == Continue(o, SamePath, env, contents)
  {
    match o
    case Parsed(cmd) =>
      (match SetDirectories(cmd, env)
       case Ok(setup) =>
         var w := WalkOf(cmd, setup, env, SamePath);
         NullParentIff(w, contents(setup.source));
         if ReachesNullParent(w, contents(setup.source)) then Crashed
         else Continue(o, SamePath, env, contents)
       case Err(_) => Continue(o, SamePath, env, contents))
    case _ => Continue(o, SamePath, env, contents)
  }

  /**
    With the source given as the empty path and an archive whose path is
    absolute (the default destination is the working directory), every file
    directly in the source folder reaches `skip`, the archive among them: the
    run crashes as soon as the folder holds a file.
  */
  lemma EmptySourceCrashes(o: Outcome, env: Environment, contents: Path -> seq<Node>, j: nat)
    requires ValidEnvironment(env) && o.Parsed? && WellFormed(o.cmd) && FilterReady(o.cmd)
    requires SetDirectories(o.cmd, env).Ok?
    requires SetDirectories(o.cmd, env).value.source == Path(false, [])
    requires SetDirectories(o.cmd, env).value.archive.absolute
    requires j < |contents(Path(false, []))| && contents(Path(false, []))[j].File?
    ensures ContinueAsWritten(o, env, contents) == Crashed
  {
    var setup := SetDirectories(o.cmd, env).value;
    var w := WalkOf(o.cmd, setup, env, SamePath);
    var tree := contents(setup.source);
    assert !Located(w, [tree[j].name]).absolute;
    assert !IsArchive(w, [tree[j].name]);
    NullParentIff(w, tree);
  }

  /** The walk `zipDirWithSwitches` makes for a command and its setup. */
  function WalkOf(cmd: Command, setup: Setup, env: Environment, check: ArchiveCheck): Walk {
    Walk(cmd, setup.source, setup.archive, env.cwd, check)
  }

  /** `pipe` as the program has it: the switch lookup on the token as typed, and `Path.equals` against the archive. */
  function PipeAsWritten(args: Option<seq<string>>, env: Environment, contents: Path -> seq<Node>): (r: Run)
    requires ValidEnvironment(env) && PlainFilterValues(args)
    ensures r.Quiet? <==> args.None? || |args.value| == 0 || !EqualsIgnoreCase(args.value[0], "zipp")
  {
    var o := ProcessCommandAsWritten(args);
    ParsedFilterReady(args);
    ContinueAsWritten(o, env, contents)
  }

  /** `pipe` with the upper-cased switch lookup and the archive recognised by the file it names. */
  function Pipe(args: Option<seq<string>>, env: Environment, contents: Path -> seq<Node>): (r: Run)
    requires ValidEnvironment(env) && PlainFilterValues(args)
    ensures r.Quiet? <==> args.None? || |args.value| == 0 || !EqualsIgnoreCase(args.value[0], "zipp")
    ensures r.Rejected? ==> !r.parseError.NullSwitch?
    ensures !r.Crashed?
  {
    var o := ProcessCommand(args);
    ParsedFilterReady(args);
    Continue(o, SameFile, env, contents)
  }

  // ---------------------------------------------------------------------------
  // Where the filter values come from

  /** The defaults add no value but `*`. */
  lemma DefaultsValues(c: Command, s: Switch, v: string)
    requires s in SetFilterDefaults(c) && v in SetFilterDefaults(c)[s]
    ensures v == "*" || (s in c && v in c[s])
  {
  }

  /** Every value a successful parse collects is one of the parsed tokens. */
  lemma ParseValues(tail: seq<string>, s: Switch, v: string)
    requires |tail| >= 1 && IsSwitchToken(tail[0])
    requires ParseCommands(UpperCasedToken, tail).Ok?
    requires s in ParseCommands(UpperCasedToken, tail).value
    requires v in ParseCommands(UpperCasedToken, tail).value[s]
    ensures exists i :: 0 <= i < |tail| && tail[i] == v
  {
    ParseContents(tail, s);
    var toks := ClassifyAll(UpperCasedToken, tail);
    AssignedFromTokens(tail, toks, s, v);
  }

  lemma AssignedFromTokens(tail: seq<string>, toks: seq<Token>, s: Switch, v: string)
    requires toks == ClassifyAll(UpperCasedToken, tail)
    requires |toks| >= 1 && toks[0].Opening? && Resolved(toks) && v in Assigned(toks, s)
    ensures exists i :: 0 <= i < |tail| && tail[i] == v
  {
    var i :| 0 <= i < |toks| && toks[i].Argument? && Governor(toks, i) == s && toks[i].text == v;
    assert tail[i] == v;
  }

  /** A value of a parsed command is an argument of the command line, or the `*` default. */
  lemma ParsedValuesFromArgs(args: Option<seq<string>>, s: Switch, v: string)
    requires ProcessCommand(args).Parsed?
    requires s in ProcessCommand(args).cmd && v in ProcessCommand(args).cmd[s]
    ensures v == "*" || exists k :: 1 <= k < |args.value| && args.value[k] == v
  {
    var a := args.value;
    if |a| == 1 {
      DefaultsValues(map[], s, v);
    } else {
      var tail := a[1..];
      ProcessOfParse(UpperCasedToken, a);
      var c := ParseCommands(UpperCasedToken, tail).value;
      DefaultsValues(c, s, v);
      if v != "*" {
        ParseValues(tail, s, v);
        var i :| 0 <= i < |tail| && tail[i] == v;
        assert a[i + 1] == v;
      }
    }
  }

  /** With plain filter values, the parsed command is ready for the walk. */
  lemma ParsedFilterReady(args: Option<seq<string>>)
    requires PlainFilterValues(args)
    ensures ProcessCommand(args).Parsed? ==>
      WellFormed(ProcessCommand(args).cmd) && FilterReady(ProcessCommand(args).cmd)
  {
    var o := ProcessCommand(args);
    if o.Parsed? {
      forall s, v | s in o.cmd && v in o.cmd[s] && IsMultiValued(s) ensures IsPlainPattern(v) {
        FilterValuePlain(args, s, v);
      }
      assert PlainValues(o.cmd, Include) && PlainValues(o.cmd, Exclude);
      assert PlainValues(o.cmd, DeepInclude) && PlainValues(o.cmd, DeepExclude);
    }
  }

  /** A filter value of a parsed command is the `*` default or a value the filter switch was given. */
  lemma FilterValuePlain(args: Option<seq<string>>, s: Switch, v: string)
    requires PlainFilterValues(args) && ProcessCommand(args).Parsed?
    requires s in ProcessCommand(args).cmd && v in ProcessCommand(args).cmd[s] && IsMultiValued(s)
    ensures IsPlainPattern(v)
  {
    var a := args.value;
    if v == "*" {
      assert forall i | 0 <= i < |v| :: v[i] == '*';
    } else if |a| == 1 {
      DefaultsValues(map[], s, v);
    } else {
      var tail := a[1..];
      ProcessOfParse(UpperCasedToken, a);
      DefaultsValues(ParseCommands(UpperCasedToken, tail).value, s, v);
      var i := GovernedValue(tail, s, v);
    }
  }

  /** A value a successful parse collects for `s` is a value token that `s` governs. */
  lemma GovernedValue(tail: seq<string>, s: Switch, v: string) returns (i: nat)
    requires |tail| >= 1 && IsSwitchToken(tail[0])
    requires ParseCommands(UpperCasedToken, tail).Ok?
    requires s in ParseCommands(UpperCasedToken, tail).value
    requires v in ParseCommands(UpperCasedToken, tail).value[s]
    ensures var toks := ClassifyAll(UpperCasedToken, tail);
      Resolved(toks) && i < |toks| && toks[i].Argument? && Governor(toks, i) == s && toks[i].text == v
  {
    ParseContents(tail, s);
    var toks := ClassifyAll(UpperCasedToken, tail);
    i :| 0 <= i < |toks| && toks[i].Argument? && Governor(toks, i) == s && toks[i].text == v;
  }

  // ---------------------------------------------------------------------------
  // What the archive holds

  /**
    The names written for a parsed command are exactly the names of the
    selected entries of the source folder.
  */
  lemma ContinueContents(o: Outcome, check: ArchiveCheck, env: Environment, contents: Path -> seq<Node>, e: Entry)
    requires ValidEnvironment(env) && (o.Parsed? ==> WellFormed(o.cmd) && FilterReady(o.cmd))
    requires Continue(o, check, env, contents).Zipped?
    requires WellFormedTree(contents(Continue(o, check, env, contents).setup.source))
    requires ValidEntry(e)
    ensures var r := Continue(o, check, env, contents);
      EntryName(e) in r.entries <==> Archived(WalkOf(o.cmd, r.setup, env, check), contents(r.setup.source), e)
  {
    var r := Continue(o, check, env, contents);
    NamesMatchEntries(WalkOf(o.cmd, r.setup, env, check), contents(r.setup.source), e);
  }

  /** A valid entry's name is among the archive's names exactly when the entry is among its entries. */
  lemma NamesMatchEntries(w: Walk, tree: seq<Node>, e: Entry)
    requires ValidWalk(w) && WellFormedTree(tree) && ValidEntry(e)
    ensures EntryName(e) in ArchiveNames(w, tree) <==> Archived(w, tree, e)
  {
    var a := Archive(w, tree);
    var names := ArchiveNames(w, tree);
    ArchiveContents(w, tree, e);
    if EntryName(e) in names {
      var i :| 0 <= i < |names| && names[i] == EntryName(e);
      ArchiveNamesDecode(w, tree, i);
      EntryNameRoundTrip(e);
      assert a[i] == e;
    }
    if e in a {
      var i :| 0 <= i < |a| && a[i] == e;
      assert names[i] == EntryName(e);
    }
  }

  /** Compared by the file it names, the archive never goes into itself. */
  lemma ContinueNeverArchivesItself(o: Outcome, env: Environment, contents: Path -> seq<Node>, i: nat)
    requires ValidEnvironment(env) && (o.Parsed? ==> WellFormed(o.cmd) && FilterReady(o.cmd))
    requires Continue(o, SameFile, env, contents).Zipped?
    requires WellFormedTree(contents(Continue(o, SameFile, env, contents).setup.source))
    requires i < |Continue(o, SameFile, env, contents).entries|
    ensures var r := Continue(o, SameFile, env, contents);
      var e := DecodeEntry(r.entries[i]);
      e.FileEntry? ==>
        Canonical(env.cwd, Resolve(r.setup.source, Path(false, e.rel))) != Canonical(env.cwd, r.setup.archive)
  {
    var r := Continue(o, SameFile, env, contents);
    var w := WalkOf(o.cmd, r.setup, env, SameFile);
    var tree := contents(r.setup.source);
    ArchiveNamesDecode(w, tree, i);
    NotTheArchive(w, tree, i);
  }

  /** With `SameFile`, no file entry of the archive is the archive. */
  lemma NotTheArchive(w: Walk, tree: seq<Node>, i: nat)
    requires ValidWalk(w) && w.check == SameFile && i < |Archive(w, tree)|
    ensures var e := Archive(w, tree)[i]; e.FileEntry? ==> !IsArchive(w, e.rel)
  {
    var e := Archive(w, tree)[i];
    if e.FileEntry? {
      assert e == WalkNodes(w, [], tree, 0, map[]).0[i - 1];
    }
  }
}
