/**
  A run in which the archive lands in the folder being zipped under a
  different spelling of that folder: `zipp -d . -z a.zip` started in `/h`.
  The source folder is the working directory `/h`, the destination is `.`, and
  the archive's path is `./a.zip`, while the walk meets the archive as
  `/h/a.zip`.
*/
module ZipperExamples {
  import opened Results
  import opened Strings
  import opened Switches
  import opened CommandParser
  import opened Paths
  import opened Glob
  import opened OutputSetup
  import opened Traversal
  import opened Zipper
  import ParserExamples

  /** The working directory `/h`. */
  function Home(): Path {
    Path(true, ["h"])
  }

  /** `./a.zip` */
  function DottedArchive(): Path {
    Path(false, [".", "a.zip"])
  }

  /** The command `-d . -z a.zip` after `setFilterDefaults`. */
  function DotCommand(): Command {
    map[DstDir := {"."}, ZipFile := {"a.zip"},
        Include := IncludeDefault, Exclude := ExcludeDefault,
        DeepInclude := IncludeDefault, DeepExclude := ExcludeDefault]
  }

  /** `/h` with `.` a directory and no file named `./a.zip` yet. */
  function DotEnvironment(): Environment {
    Environment(Home(), p => p == Path(false, ["."]), p => false, 0, Date(2024, 1, 1))
  }

  /** While the walk runs, the source folder holds the archive and nothing else. */
  function OnlyArchive(): Path -> seq<Node> {
    p => [File("a.zip")]
  }

  lemma DotCommandReady()
    ensures WellFormed(DotCommand()) && FilterReady(DotCommand())
  {
    DotCommandWellFormed();
    var star := "*";
    assert IsPlainPattern(star) by {
      assert forall i | 0 <= i < |star| :: star[i] == '*';
    }
  }

  lemma DotCommandWellFormed()
    ensures WellFormed(DotCommand())
  {
    var cmd := DotCommand();
    var star := "*";
    assert BareName(star) by {
      assert forall i | 0 <= i < |star| :: star[i] == '*';
    }
    var zip := "a.zip";
    assert BareName(zip) by {
      assert forall i | 0 <= i < |zip| :: zip[i] != FileSeparator;
    }
    forall s | s in cmd
      ensures !IsMultiValued(s) ==> |cmd[s]| <= 1
      ensures s == NoRecurse ==> cmd[s] == {}
      ensures TakesBareNames(s) ==> forall v | v in cmd[s] :: BareName(v)
    {
    }
  }

  lemma DotEnvironmentValid()
    ensures ValidEnvironment(DotEnvironment())
  {
    assert IsName("h") by {
      assert forall i | 0 <= i < |"h"| :: "h"[i] == 'h';
    }
  }

  lemma DotFolders()
    ensures WellFormed(DotCommand()) && ValidEnvironment(DotEnvironment())
    ensures ChosenFolder(DotCommand(), SrcDir, DotEnvironment()) == Home()
    ensures ChosenFolder(DotCommand(), DstDir, DotEnvironment()) == Path(false, ["."])
  {
    DotCommandWellFormed();
    DotEnvironmentValid();
    DotDestination(".");
  }

  lemma DotDestination(dot: string)
    requires dot == "."
    requires WellFormed(DotCommand()) && ValidEnvironment(DotEnvironment())
    ensures ChosenFolder(DotCommand(), DstDir, DotEnvironment()) == Path(false, [dot])
  {
    assert IsName(dot) by {
      assert forall i | 0 <= i < |dot| :: dot[i] == '.';
    }
    ParseName(dot);
    assert DotCommand()[DstDir] == {dot};
    assert DotEnvironment().isDirectory(Parse(dot));
  }

  lemma DotName()
    ensures WellFormed(DotCommand())
    ensures RequestedName(DotCommand()) == Some("a.zip")
  {
    DotCommandWellFormed();
    var zip := "a.zip";
    assert !IsBlank(zip) by {
      assert zip[0] == 'a';
    }
  }

  /** The setup: source `/h`, destination `.`, archive `./a.zip`. */
  lemma DotSetup()
    ensures WellFormed(DotCommand()) && ValidEnvironment(DotEnvironment())
    ensures SetDirectories(DotCommand(), DotEnvironment()) == Ok(DotSetupValue())
  {
    DotFolders();
    DotName();
    var r := SetDirectories(DotCommand(), DotEnvironment());
    assert r.Ok?;
    var a := r.value.archive;
    assert a.names[..1] == ["."] && a.names[1] == "a.zip";
    assert a.names == [".", "a.zip"];
  }

  /** Under `Path.equals` the visited `/h/a.zip` is not `./a.zip`. */
  lemma NotSamePath()
    ensures Located(DotWalk(SamePath), ["a.zip"]) != DottedArchive()
  {
  }

  /** By the file it names, `/h/a.zip` is `./a.zip`. */
  lemma SameFileInDot()
    ensures Canonical(Home(), Path(true, ["h", "a.zip"])) == Canonical(Home(), DottedArchive())
  {
    NormalNamesDot(["a.zip"], true, ["h"]);
    assert Resolve(Home(), DottedArchive()).names == ["h"] + ["."] + ["a.zip"];
    assert ["h"] + ["."] + ["a.zip"] == ["h", ".", "a.zip"];
    assert ["h"] + ["a.zip"] == ["h", "a.zip"];
  }

  function DotSetupValue(): Setup {
    Setup(Home(), Path(false, ["."]), DottedArchive())
  }

  function DotWalk(check: ArchiveCheck): Walk {
    WalkOf(DotCommand(), DotSetupValue(), DotEnvironment(), check)
  }

  lemma DotWalkValid(check: ArchiveCheck)
    ensures ValidWalk(DotWalk(check))
  {
    DotCommandReady();
  }

  /** The folder's one file passes the default filters. */
  lemma OnlyFileEligible(z: string)
    requires z == "a.zip"
    ensures ValidWalk(DotWalk(SamePath))
    ensures Eligible(DotCommand(), [], [File(z)]) == {z}
  {
    DotWalkValid(SamePath);
    var tree := [File(z)];
    assert tree[0] == File(z);
    forall n | n in Listing(tree) ensures n == z {}
    assert Listing(tree) == {z};
  }

  /** `Path.equals` lets the archive through the walk. */
  lemma AsWrittenWalk(z: string)
    requires z == "a.zip"
    ensures ValidWalk(DotWalk(SamePath))
    ensures Archive(DotWalk(SamePath), [File(z)]) == [FolderEntry([]), FileEntry([z])]
  {
    OnlyFileEligible(z);
    NotSamePath();
    var w := DotWalk(SamePath);
    assert !IsArchive(w, [] + [z]);
    assert WalkNodes(w, [], [File(z)], 1, map[[] := {z}]).0 == [];
  }

  /** Comparing by the file named stops the archive. */
  lemma CorrectedWalk(z: string)
    requires z == "a.zip"
    ensures ValidWalk(DotWalk(SameFile))
    ensures Archive(DotWalk(SameFile), [File(z)]) == [FolderEntry([])]
  {
    DotWalkValid(SameFile);
    SameFileInDot();
    var w := DotWalk(SameFile);
    assert Located(w, [] + [z]) == Path(true, ["h", z]);
    assert IsArchive(w, [] + [z]);
    assert WalkNodes(w, [], [File(z)], 1, map[]).0 == [];
  }

  /** The run reaches the walk of the source folder, with the archive in it. */
  lemma DotRun(check: ArchiveCheck, z: string)
    requires z == "a.zip"
    ensures WellFormed(DotCommand()) && FilterReady(DotCommand()) && ValidEnvironment(DotEnvironment())
    ensures ValidWalk(DotWalk(check))
    ensures Continue(Parsed(DotCommand()), check, DotEnvironment(), OnlyArchive())
      == Zipped(DotSetupValue(), ArchiveNames(DotWalk(check), [File(z)]))
  {
    DotSetup();
    DotCommandReady();
  }

  /** As written, the archive is zipped into itself: its entries are `/` and `a.zip`. */
  lemma ArchiveContainsItself(z: string)
    requires z == "a.zip"
    ensures WellFormed(DotCommand()) && FilterReady(DotCommand()) && ValidEnvironment(DotEnvironment())
    ensures ContinueAsWritten(Parsed(DotCommand()), DotEnvironment(), OnlyArchive())
      == Zipped(DotSetupValue(), ["/", z])
  {
    DotRun(SamePath, z);
    AsWrittenNames(z);
  }

  lemma AsWrittenNames(z: string)
    requires z == "a.zip"
    ensures ValidWalk(DotWalk(SamePath))
    ensures ArchiveNames(DotWalk(SamePath), [File(z)]) == ["/", z]
  {
    AsWrittenWalk(z);
    var names := ArchiveNames(DotWalk(SamePath), [File(z)]);
    assert names[1] == Join([z], FileSeparator) == z;
  }

  lemma CorrectedNames(z: string)
    requires z == "a.zip"
    ensures ValidWalk(DotWalk(SameFile))
    ensures ArchiveNames(DotWalk(SameFile), [File(z)]) == ["/"]
  {
    CorrectedWalk(z);
  }

  /** Compared by the file it names, the archive is left out: the only entry is `/`. */
  lemma ArchiveLeavesItselfOut(z: string)
    requires z == "a.zip"
    ensures WellFormed(DotCommand()) && FilterReady(DotCommand()) && ValidEnvironment(DotEnvironment())
    ensures Continue(Parsed(DotCommand()), SameFile, DotEnvironment(), OnlyArchive())
      == Zipped(DotSetupValue(), ["/"])
  {
    DotRun(SameFile, z);
    CorrectedNames(z);
  }

  // ---------------------------------------------------------------------------
  // `zipp -s ""`: the source folder given as the empty path

  /** The command `-s ""` after `setFilterDefaults`. */
  function EmptySourceCommand(): Command {
    SetFilterDefaults(map[SrcDir := {""}])
  }

  /** `/h`, where the empty path names a directory, with no file yet. */
  function EmptySourceEnvironment(): Environment {
    Environment(Home(), p => p == Path(false, []), p => false, 0, Date(2024, 1, 1))
  }

  /** The default archive name of the run; the empty path's file name is empty. */
  function EmptySourceArchiveName(): string {
    DefaultName(Path(false, []), 0, Date(2024, 1, 1))
  }

  /** While the walk runs, the working directory holds `a.txt` and the archive being written. */
  function FileAndArchive(): Path -> seq<Node> {
    p => [File("a.txt"), File(EmptySourceArchiveName())]
  }

  /** The archive's name is a single name, and neither `a.txt`, `.` nor `..`. */
  lemma EmptySourceArchiveNameShape()
    ensures IsName(EmptySourceArchiveName())
    ensures EmptySourceArchiveName() !in {"a.txt", ".", ".."}
  {
    DefaultNameIsName(Path(false, []), 0, Date(2024, 1, 1));
    assert |EmptySourceArchiveName()| > 5;
  }

  /** `zipp -s ""` parses to the source `""` and the default filters. */
  lemma EmptySourceParsed(z: string, t: string, v: string)
    requires z == "zipp" && t == "-s" && v == ""
    ensures ProcessCommand(Some([z, t, v])) == Parsed(EmptySourceCommand())
  {
    ParserExamples.ShortSource(t);
    forall f | f in AllSwitchForms()
      ensures |f| >= 2
    {
      FormShape(f);
    }
    assert UpperString(v) == [];
    ScanSingleValue(UpperCasedToken, t, v, SrcDir);
    ParserExamples.ProcessParsed(z, [t, v], map[SrcDir := {v}]);
    assert [z] + [t, v] == [z, t, v];
  }

  lemma EmptySourceReady()
    ensures WellFormed(EmptySourceCommand()) && FilterReady(EmptySourceCommand())
    ensures EmptySourceCommand()[SrcDir] == {""}
    ensures EmptySourceCommand()[Include] == {"*"} && EmptySourceCommand()[Exclude] == {}
    ensures DstDir !in EmptySourceCommand() && ZipFile !in EmptySourceCommand()
  {
    var c := map[SrcDir := {""}];
    var cmd := EmptySourceCommand();
    assert !DefaultReplaces(c, SrcDir);
    assert DefaultReplaces(c, Include) && DefaultReplaces(c, Exclude);
    assert DefaultReplaces(c, DeepInclude) && DefaultReplaces(c, DeepExclude);
    var star := "*";
    assert IsPlainPattern(star) && BareName(star) by {
      assert forall i | 0 <= i < |star| :: star[i] == '*';
    }
    forall s | s in cmd
      ensures s == SrcDir || DefaultReplaces(c, s)
    {
    }
  }

  lemma EmptySourceEnvironmentValid()
    ensures ValidEnvironment(EmptySourceEnvironment())
  {
    assert IsName("h") by {
      assert forall i | 0 <= i < |"h"| :: "h"[i] == 'h';
    }
  }

  /** The source is the empty path; the archive goes to `/h`. */
  lemma EmptySourceSetup()
    ensures WellFormed(EmptySourceCommand()) && FilterReady(EmptySourceCommand())
    ensures ValidEnvironment(EmptySourceEnvironment())
    ensures SetDirectories(EmptySourceCommand(), EmptySourceEnvironment()).Ok?
    ensures SetDirectories(EmptySourceCommand(), EmptySourceEnvironment()).value.source == Path(false, [])
    ensures SetDirectories(EmptySourceCommand(), EmptySourceEnvironment()).value.archive
      == Path(true, ["h", EmptySourceArchiveName()])
  {
    EmptySourceReady();
    EmptySourceEnvironmentValid();
    ParseEmpty("");
    assert EmptySourceEnvironment().isDirectory(Parse(""));
    var a := SetDirectories(EmptySourceCommand(), EmptySourceEnvironment()).value.archive;
    assert a.names[..1] == ["h"] && a.names[1] == EmptySourceArchiveName();
    assert a.names == ["h", EmptySourceArchiveName()];
  }

  /** As written, `zipp -s ""` in a folder holding `a.txt` throws in `skip`. */
  lemma EmptySourceCrashesAsWritten(z: string, t: string, v: string)
    requires z == "zipp" && t == "-s" && v == ""
    ensures ProcessCommand(Some([z, t, v])) == Parsed(EmptySourceCommand())
    ensures WellFormed(EmptySourceCommand()) && FilterReady(EmptySourceCommand())
    ensures ValidEnvironment(EmptySourceEnvironment())
    ensures ContinueAsWritten(Parsed(EmptySourceCommand()), EmptySourceEnvironment(), FileAndArchive()) == Crashed
  {
    EmptySourceParsed(z, t, v);
    EmptySourceSetup();
    EmptySourceCrashes(Parsed(EmptySourceCommand()), EmptySourceEnvironment(), FileAndArchive(), 0);
  }

  /** Both files of the folder pass the default filters. */
  lemma EmptySourceEligible(z: string, n: string)
    requires z == "a.txt" && n == EmptySourceArchiveName()
    ensures FilterReady(EmptySourceCommand())
    ensures Eligible(EmptySourceCommand(), [], [File(z), File(n)]) == {z, n}
  {
    EmptySourceReady();
    var tree := [File(z), File(n)];
    assert tree[0] == File(z) && tree[1] == File(n);
    forall m | m in Listing(tree) ensures m == z || m == n {}
    assert Listing(tree) == {z, n};
  }

  /** A walk of the corrected run: the command `-s ""`, the empty source path, the archive `/h/<name>`, compared by the file named. */
  predicate EmptySourceWalk(w: Walk) {
    && w.cmd == EmptySourceCommand() && w.source == Path(false, []) && w.check == SameFile
    && w.cwd == Home() && w.archive == Path(true, ["h", EmptySourceArchiveName()])
  }

  /** Two names other than `.` and `..` are already normal. */
  lemma PlainPair(a: string, b: string)
    requires a !in {".", ".."} && b !in {".", ".."}
    ensures NormalNames([a, b], true) == [a, b]
  {
    assert [a, b][..1] == [a] && [a][..0] == [];
    assert NormalNames([a], true) == [a];
  }

  /** `a.txt` is not the archive; the archive, met as a bare name, is. */
  lemma EmptySourceRecognised(w: Walk, z: string, n: string)
    requires EmptySourceWalk(w) && z == "a.txt" && n == EmptySourceArchiveName()
    ensures !IsArchive(w, [] + [z]) && IsArchive(w, [] + [n])
  {
    EmptySourceArchiveNameShape();
    assert Located(w, [] + [n]) == Path(false, [n]);
    assert Resolve(Home(), Path(false, [n])) == Path(true, ["h", n]);
    PlainPair("h", z);
    PlainPair("h", n);
    assert Resolve(Home(), Path(false, [z])) == Path(true, ["h", z]);
  }

  /** `a.txt` passes `skip` and gets its entry; the archive is turned away. */
  lemma EmptySourceEntries(w: Walk, z: string, n: string)
    requires EmptySourceWalk(w) && z == "a.txt" && n == EmptySourceArchiveName()
    ensures ValidWalk(w)
    ensures Archive(w, [File(z), File(n)]) == [FolderEntry([]), FileEntry([z])]
  {
    EmptySourceEligible(z, n);
    EmptySourceRecognised(w, z, n);
    var tree := [File(z), File(n)];
    var c := map[[] := {z, n}];
    assert WalkNodes(w, [], tree, 2, c).0 == [];
    assert WalkNodes(w, [], tree, 1, c).0 == [];
    assert WalkNodes(w, [], tree, 0, map[]).0 == [FileEntry([z])];
  }

  lemma EmptySourceNames(w: Walk, z: string, n: string)
    requires EmptySourceWalk(w) && z == "a.txt" && n == EmptySourceArchiveName()
    ensures ValidWalk(w)
    ensures ArchiveNames(w, [File(z), File(n)]) == ["/", z]
  {
    EmptySourceEntries(w, z, n);
    var names := ArchiveNames(w, [File(z), File(n)]);
    assert names[1] == Join([z], FileSeparator) == z;
  }

  /** Corrected, the run of `zipp -s ""` zips `a.txt` and leaves the archive out. */
  lemma EmptySourceZips(z: string)
    requires z == "a.txt"
    ensures WellFormed(EmptySourceCommand()) && FilterReady(EmptySourceCommand())
    ensures ValidEnvironment(EmptySourceEnvironment())
    ensures Continue(Parsed(EmptySourceCommand()), SameFile, EmptySourceEnvironment(), FileAndArchive()).Zipped?
    ensures Continue(Parsed(EmptySourceCommand()), SameFile, EmptySourceEnvironment(), FileAndArchive()).entries
      == ["/", z]
  {
    EmptySourceSetup();
    var cmd := EmptySourceCommand();
    var env := EmptySourceEnvironment();
    var setup := SetDirectories(cmd, env).value;
    var w := WalkOf(cmd, setup, env, SameFile);
    var n := EmptySourceArchiveName();
    EmptySourceNames(w, z, n);
    assert FileAndArchive()(setup.source) == [File(z), File(n)];
    assert Continue(Parsed(cmd), SameFile, env, FileAndArchive())
      == Zipped(setup, ArchiveNames(w, FileAndArchive()(setup.source)));
  }

  /** The command line `zipp -s ""` gives no filter value, so the corrected `pipe` applies. */
  lemma EmptySourcePlain(z: string, t: string, v: string)
    requires z == "zipp" && t == "-s" && v == ""
    ensures PlainFilterValues(Some([z, t, v]))
  {
    ParserExamples.ShortSource(t);
    var args := [z, t, v];
    assert args[1..] == [t, v];
    assert UpperString(v) == [];
    forall f | f in AllSwitchForms()
      ensures |f| >= 2
    {
      FormShape(f);
    }
    var toks := ClassifyAll(UpperCasedToken, [t, v]);
    assert toks == [Opening(t, Some(SrcDir)), Argument(v)];
    ClassifiedResolved([t, v]);
    assert Governor(toks, 1) == SrcDir;
  }

  /** The corrected `pipe` of `zipp -s ""` zips `/` and `a.txt`, where the program throws. */
  lemma EmptySourcePipe(z: string, t: string, v: string)
    requires z == "zipp" && t == "-s" && v == ""
    ensures ValidEnvironment(EmptySourceEnvironment()) && PlainFilterValues(Some([z, t, v]))
    ensures Pipe(Some([z, t, v]), EmptySourceEnvironment(), FileAndArchive()).Zipped?
    ensures Pipe(Some([z, t, v]), EmptySourceEnvironment(), FileAndArchive()).entries == ["/", "a.txt"]
  {
    EmptySourcePlain(z, t, v);
    EmptySourceParsed(z, t, v);
    EmptySourceZips("a.txt");
  }

  // ---------------------------------------------------------------------------
  // `zipp -illegal`: a token after `zipp` that is no switch form

  /** In any environment, `pipe` of `zipp -illegal` throws the invalid-switch error, as written and corrected. */
  lemma IllegalSwitchRejected(z: string, t: string, env: Environment, contents: Path -> seq<Node>)
    requires z == "zipp" && t == "-illegal" && ValidEnvironment(env)
    ensures PlainFilterValues(Some([z, t]))
    ensures PipeAsWritten(Some([z, t]), env, contents) == Rejected(InvalidSwitch(t))
    ensures Pipe(Some([z, t]), env, contents) == Rejected(InvalidSwitch(t))
  {
    ParserExamples.Illegal(t);
    EqualsIgnoreCaseReflexive(z);
  }

  /** `zipp -s folderA -illegal`: the dashed word after a value is rejected too. */
  lemma IllegalAfterValueRejected(z: string, t: string, a: string, d: string, env: Environment, contents: Path -> seq<Node>)
    requires z == "zipp" && t == "-s" && a == "folderA" && d == "-illegal" && ValidEnvironment(env)
    ensures PlainFilterValues(Some([z, t, a, d]))
    ensures Pipe(Some([z, t, a, d]), env, contents) == Rejected(InvalidSwitch(d))
  {
    ParserExamples.IllegalAfterValue(z, t, a, d);
    ParserExamples.ShortSource(t);
    ParserExamples.PlainToken(a);
    ParserExamples.Illegal(d);
    var args := [z, t, a, d];
    var toks := ClassifyAll(UpperCasedToken, args[1..]);
    assert args[1..] == [t, a, d];
    ParserExamples.ClassifyThree(t, a, d);
    assert toks == [Opening(t, Some(SrcDir)), Argument(a), Argument(d)];
    ClassifiedResolved(args[1..]);
    forall i | 0 <= i < |toks| && toks[i].Argument? ensures Governor(toks, i) == SrcDir {
    }
  }
}
