/**
  `setDirectories`: choosing the source folder, the destination folder and
  the archive's path from a parsed command. The working directory, the file
  system's answers (`Files.isDirectory`, `Files.exists`), the clock and
  today's date are inputs.
*/
module OutputSetup {
  import opened Results
  import opened Strings
  import opened Switches
  import opened CommandParser
  import opened Paths

  // ---------------------------------------------------------------------------
  // Dates

  /** A `LocalDate`: proleptic year, month 1-12, day of month. */
  datatype Date = Date(year: int, month: int, day: int)

  predicate IsLeapYear(y: int) {
    y % 4 == 0 && (y % 100 != 0 || y % 400 == 0)
  }

  function DaysInMonth(y: int, m: int): int
    requires 1 <= m <= 12
  {
    if m == 2 then (if IsLeapYear(y) then 29 else 28)
    else if m in {4, 6, 9, 11} then 30
    else 31
  }

  predicate ValidDate(d: Date) {
    1 <= d.month <= 12 && 1 <= d.day <= DaysInMonth(d.year, d.month)
  }

  /** The `yyyy` field counts years of the era: 1 BCE, proleptic year 0, is year 1. */
  function YearOfEra(y: int): (r: nat)
    ensures r >= 1
    ensures y >= 1 ==> r == y
  {
    if y >= 1 then y else 1 - y
  }

  /** At least four digits; a year needing more is signed with `+`. */
  function YearText(n: nat): (r: string)
    ensures |r| >= 4
  {
    if n > 9999 then (NatToStringLengthAbove(n, 4); "+" + NatToString(n)) else ZeroPad(NatToString(n), 4)
  }

  /**
    `format(DateTimeFormatter.ofPattern("dd-MM-yyyy"))`: two digits of day,
    a dash, two digits of month, a dash and a year of at least four characters.
  */
  function FormatDate(d: Date): (r: string)
    requires ValidDate(d)
    ensures |r| >= 10 && r[2] == '-' && r[5] == '-'
    ensures AllDigits(r[..2]) && AllDigits(r[3..5])
  {
    TwoDigits(d.day);
    TwoDigits(d.month);
    DashedFields(ZeroPad(NatToString(d.day), 2), ZeroPad(NatToString(d.month), 2), YearText(YearOfEra(d.year)));
    ZeroPad(NatToString(d.day), 2) + "-" + ZeroPad(NatToString(d.month), 2) + "-" + YearText(YearOfEra(d.year))
  }

  /** A day or a month is written in two digits. */
  lemma TwoDigits(n: nat)
    requires n < 100
    ensures |ZeroPad(NatToString(n), 2)| == 2 && AllDigits(ZeroPad(NatToString(n), 2))
  {
    NatToStringLength(n, 2);
    PaddedDigits(NatToString(n), 2);
  }

  /** Where the fields of `a-b-c` sit, for two-character `a` and `b`. */
  lemma DashedFields(a: string, b: string, c: string)
    requires |a| == 2 && |b| == 2
    ensures (a + "-" + b + "-" + c)[..2] == a && (a + "-" + b + "-" + c)[3..5] == b
    ensures (a + "-" + b + "-" + c)[2] == '-' && (a + "-" + b + "-" + c)[5] == '-'
  {
  }

  predicate AllDigits(s: string) {
    forall i :: 0 <= i < |s| ==> '0' <= s[i] <= '9'
  }

  /** Reads `dd-MM-yyyy` with a four-digit year back into a date. */
  function ParseDate(t: string): Option<Date> {
    if |t| == 10 && t[2] == '-' && t[5] == '-'
      && AllDigits(t[..2]) && AllDigits(t[3..5]) && AllDigits(t[6..])
    then Some(Date(DigitsValue(t[6..]), DigitsValue(t[3..5]), DigitsValue(t[..2])))
    else None
  }

  /** Reads the text of `Long.toString` back. */
  function ParseLong(s: string): Option<int> {
    if |s| >= 2 && s[0] == '-' && AllDigits(s[1..]) then Some(-(DigitsValue(s[1..]) as int))
    else if |s| >= 1 && AllDigits(s) then Some(DigitsValue(s))
    else None
  }

  // ---------------------------------------------------------------------------
  // The default archive name

  const Marker: string := "_Zipped-on_"
  const Extension: string := ".zip"

  /**
    `sourceDir.getFileName() + "_" + millis + "_Zipped-on_" + date + ".zip"`:
    named after the source folder and ending in `.zip`.
  */
  function DefaultName(source: Path, millis: int, today: Date): (r: string)
    requires ValidDate(today)
    ensures StartsWith(r, FileNameString(source) + "_") && EndsWith(r, Extension)
    ensures |r| > |FileNameString(source)| + |Marker| + |Extension| + 10
  {
    NameShape(FileNameString(source), IntToString(millis), FormatDate(today));
    FileNameString(source) + "_" + IntToString(millis) + Marker + FormatDate(today) + Extension
  }

  /** A name built as the default is: where its head and its extension sit. */
  lemma NameShape(base: string, m: string, dt: string)
    ensures StartsWith(base + "_" + m + Marker + dt + Extension, base + "_")
    ensures EndsWith(base + "_" + m + Marker + dt + Extension, Extension)
  {
    var r := base + "_" + m + Marker + dt + Extension;
    assert r[..|base| + 1] == base + "_";
    assert r[|r| - |Extension|..] == Extension;
  }

  /** Recovers the clock reading and the date from a default name with a four-digit year. */
  function DecodeDefaultName(base: string, name: string): Option<(int, Date)> {
    var head := |base| + 1;
    var tail := 10 + |Extension|;
    if |name| < head + 1 + |Marker| + tail || name[..head] != base + "_"
      || name[|name| - |Extension|..] != Extension
    then None
    else
      var mid := name[head..|name| - |Extension|];
      var millisText := mid[..|mid| - 10 - |Marker|];
      if mid[|mid| - 10 - |Marker|..|mid| - 10] != Marker then None
      else
        match (ParseLong(millisText), ParseDate(mid[|mid| - 10..]))
        case (Some(m), Some(d)) => Some((m, d))
        case _ => None
  }

  // ---------------------------------------------------------------------------
  // Choosing the folders and the archive

  /**
    What the program asks of its surroundings: the working directory
    (`user.dir`), the file system's `isDirectory` and `exists`, the clock in
    milliseconds and today's date.
  */
  datatype Environment = Environment(
    cwd: Path,
    isDirectory: Path -> bool,
    fileExists: Path -> bool,
    millis: int,
    today: Date)

  predicate ValidEnvironment(env: Environment) {
    env.cwd.absolute && ValidPath(env.cwd) && ValidDate(env.today)
  }

  datatype Setup = Setup(source: Path, destination: Path, archive: Path)

  datatype SetupError =
    /** A file with the requested archive name already exists in the destination. */
    | NameConflict(name: string, destination: Path)

  /** The one value of a single-valued switch (`iterator().next()`). */
  function TheValue(vs: set<string>): (v: string)
    requires |vs| == 1
    ensures vs == {v}
  {
    var v :| v in vs;
    assert vs == {v} by {
      assert |vs - {v}| == 0;
    }
    v
  }

  /** The folder for `-srcDir` or `-dstDir`: the named one when it is a directory, else `user.dir`. */
  function ChosenFolder(cmd: Command, s: Switch, env: Environment): (r: Path)
    requires WellFormed(cmd) && s in {SrcDir, DstDir}
    requires ValidEnvironment(env)
    ensures ValidPath(r)
    ensures r == env.cwd || env.isDirectory(r)
    ensures forall v | s in cmd && cmd[s] == {v} && env.isDirectory(Parse(v)) :: r == Parse(v)
    ensures forall v | s in cmd && cmd[s] == {v} && !env.isDirectory(Parse(v)) :: r == env.cwd
    ensures (s !in cmd || cmd[s] == {}) ==> r == env.cwd
  {
    if s !in cmd || cmd[s] == {} then env.cwd
    else
      assert |cmd[s]| == 1 by {
        assert !IsMultiValued(s);
      }
      var v := TheValue(cmd[s]);
      if !env.isDirectory(Parse(v)) then env.cwd else Parse(v)
  }

  /** A non-blank `-zipFile` value, if there is one. */
  function RequestedName(cmd: Command): (r: Option<string>)
    requires WellFormed(cmd)
    ensures r.Some? ==> ZipFile in cmd && cmd[ZipFile] == {r.value} && !IsBlank(r.value) && IsName(r.value)
    ensures r.None? ==> forall v | ZipFile in cmd && v in cmd[ZipFile] :: IsBlank(v)
  {
    if ZipFile !in cmd || cmd[ZipFile] == {} then None
    else
      var v := TheValue(cmd[ZipFile]);
      if IsBlank(v) then None
      else
        assert BareName(v);
        Some(v)
  }

  /** `setDirectories` */
  function SetDirectories(cmd: Command, env: Environment): (r: Result<Setup, SetupError>)
    requires WellFormed(cmd) && ValidEnvironment(env)
    ensures r.Err? <==>
      RequestedName(cmd).Some? && env.fileExists(Resolve(ChosenFolder(cmd, DstDir, env), Parse(RequestedName(cmd).value)))
    ensures r.Err? ==> r.error.name == RequestedName(cmd).value
    ensures r.Ok? ==>
      && r.value.source == ChosenFolder(cmd, SrcDir, env)
      && r.value.destination == ChosenFolder(cmd, DstDir, env)
      && r.value.archive.absolute == r.value.destination.absolute
      && |r.value.archive.names| == |r.value.destination.names| + 1
      && r.value.archive.names[..|r.value.destination.names|] == r.value.destination.names
      && FileName(r.value.archive) == Some(
           if RequestedName(cmd).Some? then RequestedName(cmd).value
           else DefaultName(r.value.source, env.millis, env.today))
  {
    var source := ChosenFolder(cmd, SrcDir, env);
    var destination := ChosenFolder(cmd, DstDir, env);
    match RequestedName(cmd)
    case Some(name) =>
      FileNameOfResolve(destination, name);
      if env.fileExists(Resolve(destination, Parse(name))) then Err(NameConflict(name, destination))
      else Ok(Setup(source, destination, Resolve(destination, Parse(name))))
    case None =>
      var name := DefaultName(source, env.millis, env.today);
      DefaultNameIsName(source, env.millis, env.today);
      FileNameOfResolve(destination, name);
      Ok(Setup(source, destination, Resolve(destination, Parse(name))))
  }

  // ---------------------------------------------------------------------------
  // Lemmas

  /** The default name is a single file name: it holds no separator. */
  lemma DefaultNameIsName(source: Path, millis: int, today: Date)
    requires ValidPath(source) && ValidDate(today)
    ensures IsName(DefaultName(source, millis, today))
  {
    var b := FileNameString(source);
    assert !ContainsChar(b, FileSeparator) by {
      if source.names != [] {
        assert b == source.names[|source.names| - 1];
      }
    }
    var m := IntToString(millis);
    assert !ContainsChar(m, FileSeparator) by {
      DigitsNoSeparator(NatToString(if millis < 0 then -millis else millis));
      if millis < 0 {
        NoSeparatorConcat("-", NatToString(-millis));
      }
    }
    var d := FormatDate(today);
    assert !ContainsChar(d, FileSeparator) by {
      DateNoSeparator(today);
    }
    NameNoSeparator(b, m, d);
  }

  /** A name built as the default is holds no separator when its parts hold none. */
  lemma NameNoSeparator(b: string, m: string, d: string)
    requires !ContainsChar(b, FileSeparator) && !ContainsChar(m, FileSeparator) && !ContainsChar(d, FileSeparator)
    ensures !ContainsChar(b + "_" + m + Marker + d + Extension, FileSeparator)
  {
    NoSeparatorConcat(b, "_");
    NoSeparatorConcat(b + "_", m);
    NoSeparatorConcat(b + "_" + m, Marker);
    NoSeparatorConcat(b + "_" + m + Marker, d);
    NoSeparatorConcat(b + "_" + m + Marker + d, Extension);
  }

  lemma NoSeparatorConcat(a: string, b: string)
    requires !ContainsChar(a, FileSeparator) && !ContainsChar(b, FileSeparator)
    ensures !ContainsChar(a + b, FileSeparator)
  {
    forall i | 0 <= i < |a + b| ensures (a + b)[i] != FileSeparator {
      if i < |a| {
        assert (a + b)[i] == a[i];
      } else {
        assert (a + b)[i] == b[i - |a|];
      }
    }
  }

  lemma DigitsNoSeparator(s: string)
    requires AllDigits(s)
    ensures !ContainsChar(s, FileSeparator)
  {
  }

  lemma PaddedDigits(s: string, w: nat)
    requires AllDigits(s)
    ensures AllDigits(ZeroPad(s, w))
  {
    var r := ZeroPad(s, w);
    if |s| < w {
      forall i | 0 <= i < |r| ensures '0' <= r[i] <= '9' {
        if i >= w - |s| {
          assert r[i] == s[i - (w - |s|)];
        }
      }
    }
  }

  lemma DateNoSeparator(d: Date)
    requires ValidDate(d)
    ensures !ContainsChar(FormatDate(d), FileSeparator)
  {
    var dd := ZeroPad(NatToString(d.day), 2);
    var mm := ZeroPad(NatToString(d.month), 2);
    var n := YearOfEra(d.year);
    var yy := YearText(n);
    PaddedDigits(NatToString(d.day), 2);
    PaddedDigits(NatToString(d.month), 2);
    PaddedDigits(NatToString(n), 4);
    DigitsNoSeparator(dd);
    DigitsNoSeparator(mm);
    assert !ContainsChar(yy, FileSeparator) by {
      if n > 9999 {
        DigitsNoSeparator(NatToString(n));
        NoSeparatorConcat("+", NatToString(n));
      } else {
        DigitsNoSeparator(yy);
      }
    }
    NoSeparatorConcat(dd, "-");
    NoSeparatorConcat(dd + "-", mm);
    NoSeparatorConcat(dd + "-" + mm, "-");
    NoSeparatorConcat(dd + "-" + mm + "-", yy);
  }

  function Pow10(k: nat): (r: nat)
    ensures r >= 1
  {
    if k == 0 then 1 else 10 * Pow10(k - 1)
  }

  /** A number below `10^k` has at most `k` digits. */
  lemma {:induction false} NatToStringLength(n: nat, k: nat)
    requires k >= 1 && n < Pow10(k)
    ensures |NatToString(n)| <= k
    decreases k
  {
    if n >= 10 {
      NatToStringLength(n / 10, k - 1);
    }
  }

  /** A number of at least `10^k` has more than `k` digits. */
  lemma {:induction false} NatToStringLengthAbove(n: nat, k: nat)
    requires n >= Pow10(k)
    ensures |NatToString(n)| > k
    decreases k
  {
    if k > 0 {
      NatToStringLengthAbove(n / 10, k - 1);
    }
  }

  lemma {:induction false} ZerosValue(z: string)
    requires forall i :: 0 <= i < |z| ==> z[i] == '0'
    ensures AllDigits(z) && DigitsValue(z) == 0
    decreases |z|
  {
    if z != [] {
      ZerosValue(z[..|z| - 1]);
    }
  }

  /** Leading zeros do not change a decimal value. */
  lemma {:induction false} LeadingZerosValue(z: string, s: string)
    requires forall i :: 0 <= i < |z| ==> z[i] == '0'
    requires AllDigits(s)
    ensures AllDigits(z + s) && DigitsValue(z + s) == DigitsValue(s)
    decreases |s|
  {
    ZerosValue(z);
    if s == [] {
      assert z + s == z;
    } else {
      LeadingZerosValue(z, s[..|s| - 1]);
      assert (z + s)[..|z + s| - 1] == z + s[..|s| - 1];
    }
  }

  lemma PaddedValue(n: nat, w: nat)
    ensures AllDigits(ZeroPad(NatToString(n), w))
    ensures DigitsValue(ZeroPad(NatToString(n), w)) == n
  {
    var s := NatToString(n);
    NatToStringValue(n);
    if |s| < w {
      LeadingZerosValue(seq(w - |s|, _ => '0'), s);
    }
  }

  /** The three fields of a `dd-MM-yyyy` text read back by position. */
  lemma ParseDateFields(dd: string, mm: string, yy: string)
    requires |dd| == 2 && |mm| == 2 && |yy| == 4
    requires AllDigits(dd) && AllDigits(mm) && AllDigits(yy)
    ensures ParseDate(dd + "-" + mm + "-" + yy) ==
      Some(Date(DigitsValue(yy), DigitsValue(mm), DigitsValue(dd)))
  {
    var t := dd + "-" + mm + "-" + yy;
    assert |t| == 10 && t[2] == '-' && t[5] == '-';
    assert t[..2] == dd;
    assert t[3..5] == mm;
    assert t[6..] == yy;
  }

  /** A date with a four-digit year reads back as itself. */
  lemma DateRoundTrip(d: Date)
    requires ValidDate(d) && 1 <= d.year <= 9999
    ensures ParseDate(FormatDate(d)) == Some(d)
  {
    NatToStringLength(d.day, 2);
    NatToStringLength(d.month, 2);
    NatToStringLength(d.year, 4);
    PaddedValue(d.day, 2);
    PaddedValue(d.month, 2);
    PaddedValue(d.year, 4);
    ParseDateFields(ZeroPad(NatToString(d.day), 2), ZeroPad(NatToString(d.month), 2),
      ZeroPad(NatToString(d.year), 4));
  }

  /** `Long.toString` reads back as the same number. */
  lemma LongRoundTrip(m: int)
    ensures ParseLong(IntToString(m)) == Some(m)
  {
    var digits := NatToString(if m < 0 then -m else m);
    NatToStringValue(if m < 0 then -m else m);
    if m < 0 {
      assert IntToString(m) == "-" + digits;
      assert ("-" + digits)[1..] == digits;
    } else {
      assert digits[0] != '-';
    }
  }

  /** Decoding a name built from a base, a number text and a ten-character date text. */
  lemma DecodeShape(base: string, m: string, dt: string)
    requires |dt| == 10 && ParseLong(m).Some? && ParseDate(dt).Some?
    ensures DecodeDefaultName(base, base + "_" + m + Marker + dt + Extension)
      == Some((ParseLong(m).value, ParseDate(dt).value))
  {
    var name := base + "_" + m + Marker + dt + Extension;
    var mid := m + Marker + dt;
    assert name == (base + "_") + mid + Extension;
    assert name[..|base| + 1] == base + "_";
    assert name[|name| - |Extension|..] == Extension;
    assert name[|base| + 1..|name| - |Extension|] == mid;
    assert mid[..|mid| - 10 - |Marker|] == m;
    assert mid[|mid| - 10 - |Marker|..|mid| - 10] == Marker;
    assert mid[|mid| - 10..] == dt;
  }

  /** A date with a four-digit year is written in ten characters. */
  lemma FormatDateLength(d: Date)
    requires ValidDate(d) && 1 <= d.year <= 9999
    ensures |FormatDate(d)| == 10
  {
    TwoDigits(d.day);
    TwoDigits(d.month);
    NatToStringLength(d.year, 4);
    assert |YearText(YearOfEra(d.year))| == 4;
  }

  /**
    The default name reads back: from the source folder's name, the clock
    reading and the date are recovered (for dates with four-digit years).
  */
  lemma DefaultNameRoundTrip(source: Path, millis: int, today: Date)
    requires ValidDate(today) && 1 <= today.year <= 9999
    ensures DecodeDefaultName(FileNameString(source), DefaultName(source, millis, today))
      == Some((millis, today))
  {
    LongRoundTrip(millis);
    DateRoundTrip(today);
    FormatDateLength(today);
    DecodeShape(FileNameString(source), IntToString(millis), FormatDate(today));
  }
}
