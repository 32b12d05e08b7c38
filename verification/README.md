# zipp in Dafny

`zipp` is a small command-line tool that zips a folder. A command line such as

    zipp -s src -d out -z backup.zip -i *.txt -e tmp* -nr

is read into a map from switch to a set of values. The four filter switches
are then given their defaults. Next the source folder, the destination folder
and the archive's path are settled. Finally the source folder is walked in
pre-order. Each folder becomes an entry ending in `/`; the source folder
itself is the entry `/`. A file becomes an entry when:

- its name passes the include and exclude globs of its folder: the root
  filters for the source folder, the deep filters below it;
- it is not the archive being written.

`-noRecurse` keeps the walk in the source folder.

The model covers the three core classes:

- `Switch` (module `Switches`): the eight switches, their dashed long and
  short forms, the case-insensitive lookup and `isMultiValued`.
- `CommandParser` (module `CommandParser`):
  - `processCommand`;
  - the `parseCommands` scan, as a left fold over classified tokens;
  - `setFilterDefaults`.
- `DirectoryZipper`:
  - `Glob`: `filterByPatterns` and `filter`, with the glob-to-regex
    translation given as a matcher over atoms;
  - `OutputSetup`: `setDirectories` with the default archive name;
  - `Traversal`: the pre-order visitor and `skip` with its per-folder cache;
  - `Zipper`: `pipe`.

Supporting modules:

- `Results`: Option and Result.
- `Strings`: the parts of `java.lang.String` the code relies on:
  - `toUpperCase`, including the expansions of `ß` and the `ﬀ`–`ﬆ` ligatures;
  - `equalsIgnoreCase`, `startsWith`, `endsWith`, `trim().isEmpty()`;
  - joining and splitting.
- `Paths`: `java.nio.file.Path` as an absolute flag and a list of names, with
  `Paths.get`, `resolve`, `getFileName` and `normalize`.

Where the program meets the outside world, the model takes a parameter
instead:

- the working directory, `Files.isDirectory`, `Files.exists`, the clock and
  today's date form an `Environment`;
- the folder being zipped is a tree of names, as it stands while the walk
  runs. The archive being written is already in it when it lies inside the
  source folder.

Three kinds of member carry the properties:

- partners of the operations: a reference walk without the cache, a
  selection predicate for the archive's entries, decoders for entry names
  and default archive names, and a token-level description of what a parse
  holds;
- lemmas connecting each operation to its partner;
- example lemmas that restate the repository's unit tests on concrete
  command lines.

Three defects of the program were found; see "## Findings". In each case the
model keeps a member for the behaviour as written, and the corrected
behaviour is what the rest of the model uses.

## Where the code and its description differ

The model follows the code in each of these cases.

- `?` in a pattern. The matcher's comment (DirectoryZipper.java:199-200)
  says `?` matches exactly one character. The translation at line 216 turns
  it into `.?`, which matches zero or one. So `a?c` accepts `ac`
  (`GlobExamples.QuestionMark`).
- The archive. The comment at DirectoryZipper.java:106 says the visitor
  skips the archive itself, and DirectoryZipperTest.java:149 expects the
  same. The comparison at line 107 does not ensure that; see Finding 2.

## Behaviour of the code worth noting

Nothing in the program's comments or tests speaks to these two cases; the
model states what the code does.

- A pattern ending in `.`. Line 212 of DirectoryZipper.java drops one
  trailing dot before translating. So `report.` accepts exactly what
  `report` accepts, and that is `report` alone (`GlobExamples.ReportDot`,
  `Glob.TrailingDotIgnored`).
- Dashed values that are not switches. When a value token starts with `-`,
  the check at CommandParser.java:63 tests the SECOND token after `zipp`,
  not the current one. So a dashed word is accepted as a value whenever
  that second token is a switch form. For example, `-i -e -foo` gives the
  exclude filter `{-foo}` (`ParserExamples.DashedWordAccepted`), while
  `-s folderA -illegal` is rejected (`ParserExamples.IllegalAfterValue`).
  `CommandParser.Step` models this with its `secondIsSwitch` argument.

## Model

| member | source | states |
|---|---|---|
| Switches.ShortName | src/main/java/com/ak/zipp/Switch.java:23-36 | a short name is non-empty and starts with the switch's own initial |
| Switches.ShortNameTable | src/main/java/com/ak/zipp/Switch.java:27-34 | the eight short names are S, D, I, E, DI, DE, NR and Z: two-letter names for the deep filters and no-recurse, the initial otherwise |
| Switches.NameDashed | src/main/java/com/ak/zipp/Switch.java:47-49 | a dashed name is a dash followed by capitals, more than three characters long, so never a short form |
| Switches.ShortNameDashed | src/main/java/com/ak/zipp/Switch.java:44-46 | a dashed short name is a dash followed by one or two capitals |
| Switches.AllNamesDashedIs | src/main/java/com/ak/zipp/Switch.java:16-21 | the set of dashed long names is exactly the eight forms the switch test expects |
| Switches.AllShortNamesDashedIs | src/main/java/com/ak/zipp/Switch.java:38-43 | the set of dashed short names is exactly the eight short forms the switch test expects |
| Switches.FormsDistinct | src/main/java/com/ak/zipp/Switch.java:16-46 | no long form equals a short form, and different switches have different long forms and different short forms |
| Switches.FirstDenoted | src/main/java/com/ak/zipp/Switch.java:57-63 | the lookup loop returns a candidate that the string denotes, and returns nothing exactly when no candidate denotes it |
| Switches.CorrespondingSwitch | src/main/java/com/ak/zipp/Switch.java:57-63 | the lookup returns a switch whose dashed name or dashed short name equals the string ignoring case, and returns null exactly when no switch has such a form |
| Switches.NoneDenoted | src/main/java/com/ak/zipp/Switch.java:58-62 | the loop over the switches in declaration order misses the string exactly when no switch has a form equal to it ignoring case |
| Switches.CorrespondingSwitchSpec | src/main/java/com/ak/zipp/Switch.java:57-63 | for an ASCII string the lookup returns s exactly when the string equals one of s's forms ignoring case, and null exactly when it equals none |
| Switches.DenotesUniqueAscii | src/main/java/com/ak/zipp/Switch.java:57-63 | an ASCII string denotes at most one switch, so the order of the loop does not matter for ASCII |
| Switches.CorrespondingSwitchRoundTrip | src/main/java/com/ak/zipp/Switch.java:44-63 | looking up a switch's own long or short form gives that switch back |
| Switches.NamesAreUpperCase | src/main/java/com/ak/zipp/Switch.java:23-33 | every name is a word of capitals, so upper-casing it in the short-name table changes nothing |
| Switches.FormRoundTrip | src/main/java/com/ak/zipp/Switch.java:57-63 | a dashed name or dashed short name, looked up, finds the switch it belongs to |
| Switches.CorrespondingSwitchIgnoresCase | src/main/java/com/ak/zipp/Switch.java:59-60 | for ASCII strings the lookup does not change when the string is upper-cased |
| Switches.CorrespondingSwitchMixedCase | src/test/java/com/ak/zipp/SwitchTest.java:33-38 | `-srcDir` finds the source switch |
| Switches.CorrespondingSwitchUnknown | src/test/java/com/ak/zipp/SwitchTest.java:37 | `-UNKNOWN` finds nothing |
| Switches.MultiValuedByName | src/main/java/com/ak/zipp/Switch.java:65-69 | a switch is multi-valued exactly when its name ends in CLUDE, which is the four filters |
| Strings.UpperExpansion | src/main/java/com/ak/zipp/CommandParser.java:37 | a character upper-cases to one to three characters, and an ASCII character to its single ASCII upper-case form |
| Strings.UpperStringAscii | src/main/java/com/ak/zipp/CommandParser.java:53 | upper-casing an ASCII string keeps its length and maps each character on its own |
| Strings.UpperStringAppend | src/main/java/com/ak/zipp/CommandParser.java:53 | upper-casing distributes over concatenation |
| Strings.EqualsIgnoreCaseFormWord | src/main/java/com/ak/zipp/Switch.java:59-60 | an ASCII string equals an upper-case form ignoring case exactly when its upper-case form is that form |
| Strings.EqualsIgnoreCaseFormUnique | src/main/java/com/ak/zipp/Switch.java:59-60 | an ASCII string equals at most one upper-case form ignoring case |
| Strings.SplitJoin | src/main/java/com/ak/zipp/DirectoryZipper.java:115-116 | splitting a joined list of separator-free names gives the names back |
| Strings.JoinSplit | src/main/java/com/ak/zipp/DirectoryZipper.java:115-116 | joining the pieces of a split string gives the string back |
| Strings.NatToStringValue | src/main/java/com/ak/zipp/DirectoryZipper.java:67 | the decimal text of a number reads back as that number |
| Strings.ZeroPad | src/main/java/com/ak/zipp/DirectoryZipper.java:68 | padding reaches the requested width and keeps the text as its suffix |
| CommandParser.AllSwitchFormsIs | src/main/java/com/ak/zipp/CommandParser.java:13-17 | the parser's table holds exactly the sixteen dashed forms |
| CommandParser.FormLookup | src/main/java/com/ak/zipp/CommandParser.java:13-17 | every form in the table is the form of a switch, and looking that form up finds the switch |
| CommandParser.SwitchTokenIffLookupAscii | src/main/java/com/ak/zipp/CommandParser.java:53-60 | for an ASCII token the two tests agree: its upper-case form is in the table exactly when the lookup finds a switch |
| CommandParser.LookupModesAgreeAscii | src/main/java/com/ak/zipp/CommandParser.java:53-60 | for an ASCII token the program's lookup and the corrected lookup find the same switch |
| CommandParser.LookupSwitch | src/main/java/com/ak/zipp/CommandParser.java:53-60 | the corrected lookup finds a switch for every token the table recognises |
| CommandParser.LookupAgreesWhenFound | src/main/java/com/ak/zipp/CommandParser.java:53-60 | whenever the program's lookup finds a switch for a recognised token, the corrected lookup finds the same one |
| CommandParser.EqualsFormUpper | src/main/java/com/ak/zipp/Switch.java:59-60 | a string equal to a form ignoring case upper-cases to that form, unless it holds a dotted capital I or a Kelvin sign |
| CommandParser.DottedCapitalTokenIsNotRecognised | src/main/java/com/ak/zipp/CommandParser.java:53 | `-İNCLUDE` is not recognised as a switch, although the lookup would find the include switch |
| CommandParser.LigatureTokenLooksUpNull | src/main/java/com/ak/zipp/CommandParser.java:53-60 | `-zipﬁle` is recognised as a switch form, the program's lookup finds nothing, and the corrected lookup finds the archive-name switch |
| CommandParser.Classify | src/main/java/com/ak/zipp/CommandParser.java:53 | a token opens a switch exactly when its upper-case form is in the table, and the corrected lookup then always knows which switch |
| CommandParser.ClassifyAll | src/main/java/com/ak/zipp/CommandParser.java:52 | the tokens are classified one by one, in order |
| CommandParser.StartScan | src/main/java/com/ak/zipp/CommandParser.java:49-60 | the first switch gives a map with that switch alone, with no values, and fails exactly when its lookup found nothing |
| CommandParser.Settled | src/main/java/com/ak/zipp/CommandParser.java:56-59 | when a switch is opened, the previous switch is dropped exactly when it collected no value and is not no-recurse; nothing else changes |
| CommandParser.Step | src/main/java/com/ak/zipp/CommandParser.java:53-80 | one token keeps the scan invariant; a switch opens a fresh empty entry for a switch not seen before; a value joins the current switch's set and leaves the other keys alone; a null-switch error only comes from a switch form whose lookup failed |
| CommandParser.ScanFold | src/main/java/com/ak/zipp/CommandParser.java:52-81 | every successful scan ends in a state where the current switch has an entry, the map is well formed, and every other entry except no-recurse holds a value |
| CommandParser.StepMatchesError | src/main/java/com/ak/zipp/CommandParser.java:53-79 | on a state described by the tokens read so far, a token fails exactly when the description predicts an error for it (a duplicate switch, a dashed value, a value for no-recurse, a second value, a path), and with that error |
| CommandParser.ScanFailsAt | src/main/java/com/ak/zipp/CommandParser.java:52-81 | the loop succeeds exactly when no token raises an error given the tokens before it; when it fails, its error is the one raised by the first such token |
| CommandParser.ParseFailsAt | src/main/java/com/ak/zipp/CommandParser.java:48-82 | `parseCommands` returns a map exactly when no token of the command line raises an error given the tokens before it, and otherwise throws the error of the first token that does |
| CommandParser.ClassifiedResolved | src/main/java/com/ak/zipp/CommandParser.java:53-60 | when the switch is looked up by the form the table recognised, every recognised token has its switch |
| CommandParser.ParseCommands | src/main/java/com/ak/zipp/CommandParser.java:48-82 | a successful parse is non-empty and well formed: single-valued switches hold at most one value, no-recurse none, and filters and archive names are bare file names |
| CommandParser.ParseContents | src/main/java/com/ak/zipp/CommandParser.java:48-82 | after a successful parse, a switch is a key exactly when it collected a value, was the last switch given, or is a given no-recurse; its values are exactly the tokens that followed it before the next switch form |
| CommandParser.ScanDescribes | src/main/java/com/ak/zipp/CommandParser.java:52-81 | a successful scan over resolved tokens ends in the state the token-level description predicts |
| CommandParser.ScanNeverNull | src/main/java/com/ak/zipp/CommandParser.java:60 | when every switch form has its switch, the scan never fails with a null switch |
| CommandParser.SetFilterDefaults | src/main/java/com/ak/zipp/CommandParser.java:84-104 | afterwards include is present and non-empty and exclude is present, and the same holds for the deep filters unless no-recurse is given; the replaced entries hold `{*}` or `{}`; every other entry is kept and no other key is added |
| CommandParser.DefaultsPreserveWellFormed | src/main/java/com/ak/zipp/CommandParser.java:84-104 | the defaults keep a well-formed map well formed |
| CommandParser.DefaultsFixedIff | src/main/java/com/ak/zipp/CommandParser.java:84-104 | the defaults leave a map unchanged exactly when they are already applied |
| CommandParser.DefaultsIdempotent | src/main/java/com/ak/zipp/CommandParser.java:84-104 | applying the defaults twice is the same as applying them once |
| CommandParser.ProcessCommandWith | src/main/java/com/ak/zipp/CommandParser.java:19-46 | the result is null exactly when there are no arguments or the first is not `zipp` ignoring case; when the token after `zipp` is not a switch form, it throws the invalid-switch error naming that token; every returned map is well formed with the defaults applied |
| CommandParser.ProcessCommand | src/main/java/com/ak/zipp/CommandParser.java:19-46 | the corrected `processCommand` never fails with a null switch |
| CommandParser.ProcessCommandAgrees | src/main/java/com/ak/zipp/CommandParser.java:19-82 | the program's `processCommand` and the corrected one give the same outcome, except where the program fails with a null switch |
| CommandParser.ProcessCommandAsWritten | src/main/java/com/ak/zipp/CommandParser.java:19-82 | the program's `processCommand` returns what the corrected one returns, or else throws a null-switch error |
| CommandParser.ScanFoldAgrees | src/main/java/com/ak/zipp/CommandParser.java:48-82 | on tokens that the two lookups classify alike, except where the lookup as typed found no switch, the loop gives the same result both ways, unless the lookup as typed makes it fail with a null switch |
| CommandParser.StepDescribes | src/main/java/com/ak/zipp/CommandParser.java:53-79 | each accepted token keeps the map described by the tokens read so far: a switch holds exactly the values that followed it |
| CommandParser.ProcessOfParse | src/main/java/com/ak/zipp/CommandParser.java:37-45 | after `zipp` and a switch form, `processCommand` gives the parse's error, or the parsed map with the defaults applied |
| CommandParser.BareInvocation | src/test/java/com/ak/zipp/CommandParserTest.java:112-121 | `zipp` alone yields the four filters with their defaults and nothing else |
| CommandParser.LigatureCommand | src/main/java/com/ak/zipp/CommandParser.java:53-60 | `zipp -zipﬁle a.zip`: the program fails with a null switch, while the corrected parser sets the archive name to `a.zip` |
| CommandParser.LigatureAsWritten | src/main/java/com/ak/zipp/CommandParser.java:60 | as written, `zipp -zipﬁle a.zip` fails with a null switch on the ligature token |
| CommandParser.LigatureCorrected | src/main/java/com/ak/zipp/CommandParser.java:53-60 | corrected, `zipp -zipﬁle a.zip` parses, and the archive name is `{a.zip}` |
| ParserExamples.ProcessParsed | src/main/java/com/ak/zipp/CommandParser.java:44-45 | `zipp` followed by a tail that parses gives the parsed map with the defaults |
| ParserExamples.ProcessFailed | src/main/java/com/ak/zipp/CommandParser.java:44 | `zipp` followed by a tail that fails gives that failure |
| ParserExamples.IncludeTwoFiles | src/test/java/com/ak/zipp/CommandParserTest.java:59-67 | `-include a b` gives the include filter `{a, b}` |
| ParserExamples.SourceWithoutValue | src/test/java/com/ak/zipp/CommandParserTest.java:41-47 | `zipp -srcDir -include` parses, and the source switch, which got no value, is not in the map |
| ParserExamples.IncludeThenDeepExclude | src/test/java/com/ak/zipp/CommandParserTest.java:69-78 | `zipp -include -de` gives include `{*}` and deep exclude `{}` |
| ParserExamples.DuplicateInclude | src/test/java/com/ak/zipp/CommandParserTest.java:81-86 | `zipp -include a -include b` fails as a duplicate switch |
| ParserExamples.NoRecurseWithValue | src/test/java/com/ak/zipp/CommandParserTest.java:54-56 | `zipp -noRecurse v` fails because no-recurse takes no value |
| ParserExamples.DashedWordRejected | src/test/java/com/ak/zipp/CommandParserTest.java:50-53 | `zipp -srcDir a -folder` fails with an invalid switch, because the second token is not a switch form |
| ParserExamples.Illegal | src/main/java/com/ak/zipp/CommandParser.java:37 | `-illegal` is not a switch form, so the parser takes it as a value |
| ParserExamples.IllegalFirstSwitch | src/test/java/com/ak/zipp/CommandParserTest.java:34-39 | `zipp -illegal` throws the invalid-switch error for `-illegal` |
| ParserExamples.IllegalAfterValue | src/test/java/com/ak/zipp/DirectoryZipperTest.java:236-239 | `zipp -s folderA -illegal` throws the invalid-switch error for `-illegal` |
| ParserExamples.DashedWordAccepted | src/main/java/com/ak/zipp/CommandParser.java:62-68 | `-i -e -foo` parses, with `-foo` as the exclude filter, because the check looks at the second token |
| ParserExamples.DotRejected | src/test/java/com/ak/zipp/CommandParserTest.java:105-106 | `zipp -de .` fails because a filter takes no `.` |
| ParserExamples.SourceTwoValues | src/main/java/com/ak/zipp/CommandParser.java:71-72 | `-s a b` fails on `b`, because the source folder takes one value |
| ParserExamples.IncludeGivenAgain | src/main/java/com/ak/zipp/CommandParser.java:54-59 | `-i -e -i a` parses: the first include was dropped for being empty, so the second is no duplicate |
| ParserExamples.DefaultsAddNoSource | src/main/java/com/ak/zipp/CommandParser.java:84-104 | the defaults never add a source folder |
| ParserExamples.FoldTwoValues | src/main/java/com/ak/zipp/CommandParser.java:73-79 | a multi-valued switch followed by two file names collects both |
| ParserExamples.FoldDuplicate | src/main/java/com/ak/zipp/CommandParser.java:54-55 | a multi-valued switch that already holds a value cannot be given again |
| ParserExamples.FoldGivenAgain | src/main/java/com/ak/zipp/CommandParser.java:56-60 | a switch dropped for having no value may be given again, and then holds its new value |
| ParserExamples.FoldTooMany | src/main/java/com/ak/zipp/CommandParser.java:71-72 | a single-valued switch rejects its second value |
| ParserExamples.FoldDashedValue | src/main/java/com/ak/zipp/CommandParser.java:62-68 | a dashed token after the first value is rejected as an invalid switch when the token after the first switch is a value |
| ParserExamples.FoldDashedValueAccepted | src/main/java/com/ak/zipp/CommandParser.java:62-68 | a dashed token is taken as a value when the token after the first switch is a switch form |
| Glob.TrimTrailingDot | src/main/java/com/ak/zipp/DirectoryZipper.java:212-214 | exactly one trailing dot is removed, and the rest of the pattern is kept as a prefix |
| Glob.Translate | src/main/java/com/ak/zipp/DirectoryZipper.java:215-217 | each pattern character becomes one atom: `?` an optional character, `*` a run, anything else itself |
| Glob.MatchIffSpans | src/main/java/com/ak/zipp/DirectoryZipper.java:218 | the matcher accepts a name exactly when the name splits into pieces, one per atom, each accepted by its atom |
| Glob.MatchLength | src/main/java/com/ak/zipp/DirectoryZipper.java:215-218 | a matched name has at least one character per literal of the pattern and, when the pattern has no `*`, at most one per pattern character |
| Glob.GlobMatches | src/main/java/com/ak/zipp/DirectoryZipper.java:211-218 | a pattern without `?` or `*` matches a name exactly when the name is the pattern less its trailing dot |
| Glob.LiteralGlob | src/main/java/com/ak/zipp/DirectoryZipper.java:212-218 | after the trailing dot is dropped, a pattern without wildcards matches exactly itself |
| Glob.AnyMatches | src/main/java/com/ak/zipp/DirectoryZipper.java:210-219 | no pattern matches no name, and a set holding `*` matches every name without a line terminator |
| Glob.StarPattern | src/main/java/com/ak/zipp/DirectoryZipper.java:217-218 | `*` matches exactly the names without line terminators |
| Glob.RunMatchIff | src/main/java/com/ak/zipp/DirectoryZipper.java:217-218 | the atom for `*` alone accepts exactly the names without line terminators |
| Glob.LiteralPattern | src/main/java/com/ak/zipp/DirectoryZipper.java:215-218 | a pattern without wildcards or a trailing dot matches only itself; its dots are literal |
| Glob.LiteralMatchIff | src/main/java/com/ak/zipp/DirectoryZipper.java:215-218 | a pattern without `?` or `*` accepts a name exactly when the name is the pattern |
| Glob.SuffixPattern | src/main/java/com/ak/zipp/DirectoryZipper.java:212-218 | `*w` matches exactly the names ending in w whose remaining prefix has no line terminator |
| Glob.SuffixMatchIff | src/main/java/com/ak/zipp/DirectoryZipper.java:215-218 | `*` followed by a word without wildcards accepts exactly the names that end in the word and have no line terminator before it |
| Glob.TrailingDotIgnored | src/main/java/com/ak/zipp/DirectoryZipper.java:212-214 | a pattern with a trailing dot matches exactly what the pattern without it matches |
| Glob.OptionalBetween | src/main/java/com/ak/zipp/DirectoryZipper.java:216 | `a?c` accepts `ac` and any three-character `a_c` whose middle is not a line terminator |
| Glob.FilterByPatterns | src/main/java/com/ak/zipp/DirectoryZipper.java:208-221 | the result is the names that match at least one pattern; no patterns select nothing |
| Glob.FilterByPatternsUnion | src/main/java/com/ak/zipp/DirectoryZipper.java:208-221 | filtering by a union of pattern sets is the union of the filterings |
| Glob.Filter | src/main/java/com/ak/zipp/DirectoryZipper.java:179-191 | every kept name is listed, is included by the default or by a matching include, and matches no exclude |
| Glob.FilterMembers | src/main/java/com/ak/zipp/DirectoryZipper.java:179-191 | a name is kept exactly when it is listed, included by the default or by a matching include pattern, and matched by no exclude pattern |
| Glob.FilterIsSelection | src/main/java/com/ak/zipp/DirectoryZipper.java:186-187 | on names without line terminators, the `{*}` and `{}` shortcuts select the same names as matching the patterns |
| Glob.IncludeDefaultIff | src/main/java/com/ak/zipp/DirectoryZipper.java:186 | matching `{*}` keeps every listed name exactly when no name has a line terminator |
| Glob.ExcludeDefaultAgrees | src/main/java/com/ak/zipp/DirectoryZipper.java:187 | matching `{}` selects nothing, the same as the exclude shortcut |
| Glob.IncludeDefaultKeepsLineBreaks | src/main/java/com/ak/zipp/DirectoryZipper.java:186 | the include shortcut keeps a name with a line terminator, although `*` does not match it |
| GlobExamples.StarDotTxtAcceptsName | src/main/java/com/ak/zipp/DirectoryZipper.java:199-200 | `*.txt` matches `a.txt` |
| GlobExamples.StarDotTxtAcceptsBare | src/main/java/com/ak/zipp/DirectoryZipper.java:199-200 | `*.txt` matches `.txt`: the run may be empty |
| GlobExamples.StarDotTxtRejects | src/main/java/com/ak/zipp/DirectoryZipper.java:218 | `*.txt` does not match `a.txtx`: the match covers the whole name |
| GlobExamples.QuestionMark | src/main/java/com/ak/zipp/DirectoryZipper.java:216 | `a?c` matches `ac` and `abc` but not `abbc` |
| GlobExamples.ReportDot | src/main/java/com/ak/zipp/DirectoryZipper.java:212-214 | `report.` matches what `report` matches, which is `report` alone |
| Paths.Parse | src/main/java/com/ak/zipp/DirectoryZipper.java:52-54 | `Paths.get` gives a path whose names are non-empty and free of separators |
| Paths.ParseRender | src/main/java/com/ak/zipp/DirectoryZipper.java:52-54 | reading back the text of a valid path gives the same path |
| Paths.Resolve | src/main/java/com/ak/zipp/DirectoryZipper.java:71 | resolving a relative path keeps the base's kind and extends its names |
| Paths.ResolveAssociative | src/main/java/com/ak/zipp/DirectoryZipper.java:71 | resolving relative paths one after the other is resolving their combination |
| Paths.FileNameOfResolve | src/main/java/com/ak/zipp/DirectoryZipper.java:65-71 | resolving a plain name adds exactly that name, which becomes the file name |
| Paths.FileName | src/main/java/com/ak/zipp/DirectoryZipper.java:67 | there is no file name exactly for the root, which the default name then spells `null` |
| Paths.ParentPath | src/main/java/com/ak/zipp/DirectoryZipper.java:150 | `getParent` is null exactly for the empty path and for a relative path of one name; otherwise the parent resolved by the last name gives the path back |
| Paths.ParseEmpty | src/main/java/com/ak/zipp/DirectoryZipper.java:52-54 | `Paths.get("")` is the empty relative path |
| Paths.Normalize | src/main/java/com/ak/zipp/DirectoryZipper.java:107 | normalising keeps the kind of path and leaves no `.`, no `..` after a name, and no `..` in an absolute path |
| Paths.NormalizeIdempotent | src/main/java/com/ak/zipp/DirectoryZipper.java:107 | normalising twice is normalising once |
| Paths.CanonicalOfRelative | src/main/java/com/ak/zipp/DirectoryZipper.java:107 | a relative path names the same file as the working directory resolved by it |
| OutputSetup.ChosenFolder | src/main/java/com/ak/zipp/DirectoryZipper.java:50-60 | the folder is the given value when that value is a directory, and the working directory when no value is given or the value is not a directory |
| OutputSetup.RequestedName | src/main/java/com/ak/zipp/DirectoryZipper.java:63-64 | a name is requested exactly when the archive switch holds a value that is not blank, and then the name is that value |
| OutputSetup.SetDirectories | src/main/java/com/ak/zipp/DirectoryZipper.java:46-73 | fails exactly when a requested name already exists in the destination, naming it; otherwise source and destination are the chosen folders, and the archive sits directly in the destination under the requested name or the default one |
| OutputSetup.DefaultNameIsName | src/main/java/com/ak/zipp/DirectoryZipper.java:67-68 | the default archive name is a single name without separators |
| OutputSetup.DefaultName | src/main/java/com/ak/zipp/DirectoryZipper.java:67-68 | the default name starts with the source folder's file name and `_`, ends in `.zip`, and is longer than those parts, the marker and the date together |
| OutputSetup.DefaultNameRoundTrip | src/main/java/com/ak/zipp/DirectoryZipper.java:67-68 | the time and date can be read back from a default archive name |
| OutputSetup.DateRoundTrip | src/main/java/com/ak/zipp/DirectoryZipper.java:68 | a date written as `dd-MM-yyyy` reads back as the same date |
| OutputSetup.LongRoundTrip | src/main/java/com/ak/zipp/DirectoryZipper.java:67 | the decimal text of the millisecond count reads back as that count, negative counts included |
| OutputSetup.FormatDateLength | src/main/java/com/ak/zipp/DirectoryZipper.java:68 | for years 1 to 9999 the date text has ten characters |
| OutputSetup.FormatDate | src/main/java/com/ak/zipp/DirectoryZipper.java:68 | `dd-MM-yyyy` gives two digits of day, a dash, two digits of month, a dash and at least four characters of year |
| OutputSetup.YearText | src/main/java/com/ak/zipp/DirectoryZipper.java:68 | `yyyy` prints at least four characters, however small or large the year |
| OutputSetup.YearOfEra | src/main/java/com/ak/zipp/DirectoryZipper.java:68 | `yyyy` shows the year of era, which is at least 1 and equals the year from year 1 on |
| OutputSetup.DecodeShape | src/main/java/com/ak/zipp/DirectoryZipper.java:67-68 | a name of the form base, `_`, time, `_Zipped-on_`, date, `.zip` decodes to its time and date |
| Traversal.Listing | src/main/java/com/ak/zipp/DirectoryZipper.java:181-184 | the listing holds exactly the names of the regular files directly in the folder |
| Traversal.Eligible | src/main/java/com/ak/zipp/DirectoryZipper.java:153-156 | the eligible names of a folder are among its listed files |
| Traversal.EligibleMembers | src/main/java/com/ak/zipp/DirectoryZipper.java:153-156 | a name is eligible exactly when it is a file of the folder that passes the folder's include and exclude filters: the root filters in the source folder, the deep filters below it |
| Traversal.Skip | src/main/java/com/ak/zipp/DirectoryZipper.java:149-160 | with a correct cache, a file is skipped exactly when it is not eligible in its folder, the folder being found by its place under the source; afterwards the folder's entry holds its eligible names; other entries are kept and no other entry is added |
| Traversal.SkipKeepsCacheOk | src/main/java/com/ak/zipp/DirectoryZipper.java:149-160 | a skip keeps every cached folder's entry equal to that folder's eligible names |
| Traversal.SkipFolder | src/main/java/com/ak/zipp/DirectoryZipper.java:149-156 | the parent of a visited file is the folder the walk is in, except for a file directly in an empty source path, whose parent is null; the folder equals the source exactly at the top of the walk |
| Traversal.NullParentIff | src/main/java/com/ak/zipp/DirectoryZipper.java:105-112 | the walk hands `skip` a file without a parent exactly when the source is the empty path and the source folder holds a file whose path is not equal to the archive's |
| Traversal.ArchiveRecognised | src/main/java/com/ak/zipp/DirectoryZipper.java:107 | a file whose path equals the archive's is recognised as the archive, and comparing by the file named recognises every file that comparing paths does |
| Traversal.WalkNodes | src/main/java/com/ak/zipp/DirectoryZipper.java:101-131 | every entry lies below the folder being walked; under no-recurse only its files appear; comparing by the file named, the archive never appears; cached entries are kept |
| Traversal.WalkCacheTransparent | src/main/java/com/ak/zipp/DirectoryZipper.java:149-160 | on a tree with distinct sibling names, the walk with the cache gives the same entries as the reference walk without it |
| Traversal.RefMembers | src/main/java/com/ak/zipp/DirectoryZipper.java:101-131 | an entry comes out of the reference walk exactly when it comes out of visiting one of the remaining children |
| Traversal.RefBelow | src/main/java/com/ak/zipp/DirectoryZipper.java:115-128 | every entry of the reference walk lies strictly below the folder it starts from |
| Traversal.FileMembers | src/main/java/com/ak/zipp/DirectoryZipper.java:105-119 | a file entry comes out of the reference walk exactly when the file is selected: it lies directly in the folder or, without no-recurse, in a folder below; it is not the archive; and it is eligible in its own folder |
| Traversal.FolderMembers | src/main/java/com/ak/zipp/DirectoryZipper.java:123-130 | a folder entry comes out of the reference walk exactly when there is no no-recurse and the path leads to a folder |
| Traversal.Archive | src/main/java/com/ak/zipp/DirectoryZipper.java:101-131 | the first entry is the source folder `/`, every other entry has a name, and under no-recurse all others are files directly in the source folder |
| Traversal.ArchiveContents | src/main/java/com/ak/zipp/DirectoryZipper.java:101-131 | an entry is in the archive exactly when it is the source folder, a sub-folder reached without no-recurse, or a selected file |
| Traversal.RootFiles | src/main/java/com/ak/zipp/DirectoryZipper.java:105-119 | a file of the source folder is archived exactly when it is there, is not the archive, passes the include filter (or include is `{*}`), and matches no exclude pattern |
| Traversal.RootSelected | src/main/java/com/ak/zipp/DirectoryZipper.java:105-119 | a file directly in the source folder is selected exactly when it is not the archive and is eligible there |
| Traversal.DeepFiles | src/main/java/com/ak/zipp/DirectoryZipper.java:105-125 | a file below the source folder is archived exactly when there is no no-recurse, it is not the archive, its folder holds it, and it passes the deep filters |
| Traversal.NoRecurseFlat | src/test/java/com/ak/zipp/DirectoryZipperTest.java:118-137 | under no-recurse the archive holds `/` and files of the source folder only |
| Traversal.ArchiveNames | src/main/java/com/ak/zipp/DirectoryZipper.java:115-128 | there is one name per entry, and the first is `/` |
| Traversal.EntryName | src/main/java/com/ak/zipp/DirectoryZipper.java:115-128 | a valid entry's name ends in `/` exactly when the entry is a folder |
| Traversal.EntryNameRoundTrip | src/main/java/com/ak/zipp/DirectoryZipper.java:115-128 | reading an entry name back gives the entry, for folder names ending in `/` as for file names |
| Traversal.ArchiveNamesDecode | src/main/java/com/ak/zipp/DirectoryZipper.java:115-128 | each name written reads back as the entry it was written for |
| Zipper.Continue | src/main/java/com/ak/zipp/DirectoryZipper.java:37-44 | the run is quiet exactly when the parse returned null, rejected exactly when it threw (with the same error), and a conflict exactly when a requested name is taken in the chosen destination; a zip always starts with `/`; with `skip` finding folders by their place under the source, the run never crashes |
| Zipper.ContinueAsWritten | src/main/java/com/ak/zipp/DirectoryZipper.java:37-44 | as written, a run that does not crash is the corrected run, and a crash needs a parsed command whose source folder is the empty path |
| Zipper.EmptySourceCrashes | src/main/java/com/ak/zipp/DirectoryZipper.java:149-156 | as written, a run whose source folder is the empty path and holds a file crashes in `skip` |
| Zipper.PipeAsWritten | src/main/java/com/ak/zipp/DirectoryZipper.java:37-44 | as written, `pipe` does nothing exactly when the arguments are not a `zipp` command |
| Zipper.Pipe | src/main/java/com/ak/zipp/DirectoryZipper.java:37-44 | corrected, `pipe` does nothing exactly when the arguments are not a `zipp` command, never fails with a null switch, and never crashes |
| Zipper.ParsedValuesFromArgs | src/main/java/com/ak/zipp/CommandParser.java:19-104 | every value in a parsed command is one of the arguments after `zipp`, or the `*` default |
| Zipper.ParsedFilterReady | src/main/java/com/ak/zipp/CommandParser.java:19-104 | when every value given to a filter is a plain glob, every parsed command is well formed and carries the filters the walk reads |
| Zipper.FilterValuePlain | src/main/java/com/ak/zipp/CommandParser.java:48-82 | when every value given to a filter is a plain glob, every value a filter holds after the parse is one |
| Zipper.GovernedValue | src/main/java/com/ak/zipp/CommandParser.java:52-80 | every value a switch holds after a successful parse is a token of the command line that follows that switch |
| Zipper.ContinueContents | src/main/java/com/ak/zipp/DirectoryZipper.java:37-131 | after a zip, an entry's name is among the written names exactly when the entry is selected from the source folder |
| Zipper.NamesMatchEntries | src/main/java/com/ak/zipp/DirectoryZipper.java:115-128 | an entry's name is among the archive's names exactly when the entry is among its entries |
| Zipper.ContinueNeverArchivesItself | src/main/java/com/ak/zipp/DirectoryZipper.java:106-108 | comparing by the file named, no file entry read back from the archive names the archive's own file |
| ZipperExamples.DotSetup | src/main/java/com/ak/zipp/DirectoryZipper.java:46-73 | `-d . -z a.zip` in `/h` sets source `/h`, destination `.` and archive `./a.zip` |
| ZipperExamples.NotSamePath | src/main/java/com/ak/zipp/DirectoryZipper.java:107 | the visited `/h/a.zip` is not equal to `./a.zip` as a path |
| ZipperExamples.SameFileInDot | src/main/java/com/ak/zipp/DirectoryZipper.java:107 | `/h/a.zip` and `./a.zip` name the same file in `/h` |
| ZipperExamples.AsWrittenNames | src/main/java/com/ak/zipp/DirectoryZipper.java:106-117 | comparing with `Path.equals`, the walk of `/h` holding only `a.zip` writes the names `/` and `a.zip` |
| ZipperExamples.CorrectedNames | src/main/java/com/ak/zipp/DirectoryZipper.java:106-117 | comparing by the file named, the same walk writes only `/` |
| ZipperExamples.ArchiveContainsItself | src/main/java/com/ak/zipp/DirectoryZipper.java:106-108 | as written, the run zips the archive into itself: the entries are `/` and `a.zip` |
| ZipperExamples.ArchiveLeavesItselfOut | src/main/java/com/ak/zipp/DirectoryZipper.java:106-108 | corrected, the same run leaves the archive out: the only entry is `/` |
| ZipperExamples.EmptySourceParsed | src/main/java/com/ak/zipp/CommandParser.java:19-104 | `zipp -s ""` parses to the source folder `""` and the default filters |
| ZipperExamples.EmptySourceSetup | src/main/java/com/ak/zipp/DirectoryZipper.java:46-73 | started in `/h`, `zipp -s ""` keeps the empty path as the source, since it names a directory, and places the archive at `/h/` followed by the default name |
| ZipperExamples.EmptySourceCrashesAsWritten | src/main/java/com/ak/zipp/DirectoryZipper.java:149-156 | as written, `zipp -s ""` in a folder holding `a.txt` and the archive being written throws in `skip` |
| ZipperExamples.EmptySourceEligible | src/main/java/com/ak/zipp/DirectoryZipper.java:153-156 | `a.txt` and the archive both pass the default root filters |
| ZipperExamples.EmptySourceArchiveNameShape | src/main/java/com/ak/zipp/DirectoryZipper.java:67-68 | the default archive name of this run is a single name, different from `a.txt` |
| ZipperExamples.EmptySourceRecognised | src/main/java/com/ak/zipp/DirectoryZipper.java:106-108 | compared by the file named, the visited bare name of the archive is the archive and `a.txt` is not |
| ZipperExamples.EmptySourceEntries | src/main/java/com/ak/zipp/DirectoryZipper.java:105-131 | with the folder found by its place under the source and the archive compared by the file named, the walk of the empty source path holding `a.txt` and the archive gives the entries `/` and `a.txt` |
| ZipperExamples.EmptySourceNames | src/main/java/com/ak/zipp/DirectoryZipper.java:115-128 | the same walk writes the names `/` and `a.txt` |
| ZipperExamples.EmptySourceZips | src/main/java/com/ak/zipp/DirectoryZipper.java:37-44 | corrected, the run of `zipp -s ""` in the folder holding `a.txt` and the archive zips `/` and `a.txt` |
| ZipperExamples.EmptySourcePlain | src/main/java/com/ak/zipp/CommandParser.java:19-104 | `zipp -s ""` gives no filter a value, so it meets the condition of the corrected `pipe` |
| ZipperExamples.EmptySourcePipe | src/main/java/com/ak/zipp/DirectoryZipper.java:37-44 | the corrected `pipe` of `zipp -s ""` zips `/` and `a.txt` |
| ZipperExamples.IllegalSwitchRejected | src/test/java/com/ak/zipp/DirectoryZipperTest.java:225-234 | in any environment, `pipe` of `zipp -illegal` throws the invalid-switch error, both as written and corrected |
| ZipperExamples.IllegalAfterValueRejected | src/test/java/com/ak/zipp/DirectoryZipperTest.java:236-239 | in any environment, the corrected `pipe` of `zipp -s folderA -illegal` throws the invalid-switch error |

## Left out

- Writing the archive is not modelled:
  - `ZipOutputStream`, `putNextEntry`, `Files.copy` of each file's bytes, `closeEntry`;
  - the `IOException` caught and printed at DirectoryZipper.java:133.
  The model produces the sequence of entry names instead.
- Console output is not modelled:
  - the messages `processCommand` prints;
  - the text of the exception messages.
  Errors keep their kind and the offending token.
- The file system enters as parameters:
  - `Files.isDirectory`, `Files.exists`, `System.getProperty("user.dir")`, `System.currentTimeMillis` and `LocalDate.now`;
  - `Files.list` and `Files.walkFileTree`, as a tree of names.
  Symbolic links, special files, files that change during the walk and I/O errors are not modelled.
- Children are visited in the order the tree lists them. That order stands for the order of the directory stream, which Java leaves unspecified.
- Paths use the Unix separator `/`:
  - the `File.separator` replacement at DirectoryZipper.java:116 is the identity;
  - Windows drive letters are not modelled;
  - `Paths.get` on a string that is not a valid path throws `InvalidPathException`, which is not modelled.
- The millisecond count is an unbounded integer, not a 64-bit `long`. A real clock never comes near the bound.
- `toUpperCase` and `equalsIgnoreCase` follow the root locale. Under a Turkish default locale, `i` upper-cases to `İ`; this is not modelled.
  - Characters whose upper-case form is ASCII follow Java's table exactly, including the expansions of `ß` and `ﬀ`–`ﬆ`.
  - Other characters are kept as they are. Any string holding one stays outside the all-ASCII switch table either way.
- Zipper.Pipe: requires every value given to a filter switch to be free of regex metacharacters (`\ ^ $ | + ( ) [ ] { }`). Such a pattern goes to `Pattern.matches` as regex syntax, or throws `PatternSyntaxException`; neither case is modelled. Folders, the archive name and tokens of other switches are not restricted.
- Zipper.PipeAsWritten: the same restriction on filter values.
- Glob.FilterByPatterns: defined only for patterns without regex metacharacters, for the same reason.
- Glob.Filter: the same restriction to patterns without regex metacharacters.
- OutputSetup.DefaultNameRoundTrip: stated for years 1 to 9999. From year 10000 `yyyy` prints a leading `+` and the date text is longer than ten characters.
- OutputSetup.DateRoundTrip: stated for years 1 to 9999, for the same reason.
- Traversal.WalkCacheTransparent: requires distinct sibling names, which a real directory always has.
- Paths.Normalize: `..` is removed against the preceding name without following symbolic links.
- Zipper.ContinueNeverArchivesItself: compares paths by this normalisation, not by `toRealPath`, so an archive reached through a symbolic link is not covered.
- The `DirectoryZipper` constructor only stores the command. The model passes the command to `Continue` directly.

## Findings

| source | as written | input that shows it | evidently intended | confidence | as-written member | corrected member |
|---|---|---|---|---|---|---|
| src/main/java/com/ak/zipp/CommandParser.java:53-60 | a token is recognised as a switch by upper-casing it (line 53), but its switch is then looked up on the token as typed (line 60); when the two disagree, the switch is null and `EnumMap.put` throws a `NullPointerException` | `zipp -zipﬁle a.zip`, where `ﬁ` is U+FB01: the token upper-cases to `-ZIPFILE`, but no form equals `-zipﬁle` ignoring case | look up the switch the recognition matched, so the token sets the archive name `a.zip` | not executed | CommandParser.LigatureAsWritten | CommandParser.ProcessCommand |
| src/main/java/com/ak/zipp/DirectoryZipper.java:107 | the visited file is compared with the archive's path by `Path.equals`, which compares spellings; the walk spells paths from the source folder, while the archive's path is spelled from the destination argument | `zipp -d . -z a.zip` started in `/h`: the walk meets `/h/a.zip`, the archive's path is `./a.zip`, and the archive is zipped into itself | skip the file that IS the archive, by comparing the files the two paths name | not executed | ZipperExamples.AsWrittenNames | Traversal.WalkNodes |
| src/main/java/com/ak/zipp/DirectoryZipper.java:149-156 | `skip` takes the visited file's parent as its folder (line 150) and calls `folder.equals(sourceDir)` on it (lines 154-155); `getParent` is null for a relative path of one name, so this throws a `NullPointerException` | `zipp -s ""` started in a folder holding `a.txt`: the source is the empty path, the walk visits `a.txt`, whose parent is null | find the folder of a file by its place under the source, so that files directly in the source folder get the root filters | not executed | Zipper.ContinueAsWritten | Zipper.ContinueContents |

For the first finding, `CommandParser.ProcessCommandAgrees` shows that a null
switch is the only way the two lookups can differ. `CommandParser.ProcessCommand`
never fails with a null switch, and `Zipper.Pipe` uses it. On the ligature
token, `CommandParser.LigatureCorrected` shows that it sets the archive name.

For the second finding, `Traversal.WalkNodes` states that no file entry is
the archive when files are compared by the file they name.
`Zipper.ContinueNeverArchivesItself` carries this to every run that uses the
corrected comparison, and `Zipper.Pipe` uses that comparison. On the run
above, `ZipperExamples.ArchiveContainsItself` and
`ZipperExamples.ArchiveLeavesItselfOut` give the two outcomes of `pipe`.

For the third finding, `Traversal.NullParentIff` shows that the walk hands
`skip` a file without a parent exactly when the source is the empty path and
holds a file that line 107 does not take for the archive. With the default
destination the archive's path is absolute while the visited paths are bare
names, so even the archive itself, once created, reaches `skip`.
`Zipper.EmptySourceCrashes` then shows that every such run crashes
as written, and `ZipperExamples.EmptySourceCrashesAsWritten` gives the
command line. `Traversal.Skip` finds the folder by the file's place under the
source, which `Traversal.SkipFolder` shows is the parent whenever there is one.
`Zipper.ContinueContents` states what the corrected run then archives for any
source folder, the empty path included: exactly the entries selected from it,
with the files directly in it under the root filters (`Traversal.RootFiles`).
`ZipperExamples.EmptySourcePipe` shows the same command line, in a folder
holding `a.txt` and the archive being written, zipping `/` and `a.txt`.
