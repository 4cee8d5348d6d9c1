/** The pure part of the PyInstaller build script: how the build id, the
    product version and the runtime version are worked out, how the archive
    directory is named, and which PyInstaller command line is built.
    Process runs, the wall clock and file reads are parameters. */
module BuildVersion {
  import opened Wrappers
  import opened Text
  import opened FileNames
  import opened Search

  /** What `resolve_product_version` returns when no version line is found. */
  const DefaultProductVersion := "0.0.0"

  /** Stands in for the short commit id when `git rev-parse` yields nothing. */
  const NoGit := "nogit"

  /** The message of the `RuntimeError` raised for an old PyInstaller. */
  const ContentsDirectoryRequired := "PyInstaller --contents-directory is required"

  // ---------------------------------------------------------------------
  // resolve_build_version

  /** The build id. `describe` is what `git describe --tags --dirty --always`
      printed (empty when git failed), `shortSha` what `git rev-parse --short
      HEAD` printed (empty when git failed), `today` the date as `YYYYMMDD`. */
  function ResolveBuildVersion(describe: string, shortSha: string, today: string): (r: string)
    ensures describe != "" ==> r == describe
    ensures describe == "" ==> StartsWith(r, today + "+")
    ensures describe == "" && shortSha != "" ==> r[|today| + 1..] == shortSha
    ensures describe == "" && shortSha == "" ==> r[|today| + 1..] == NoGit
    ensures r != ""
  {
    if describe != "" then describe
    else
      var sha := if shortSha != "" then shortSha else NoGit;
      today + "+" + sha
  }

  /** Splits `s` at its first `sep`, if it has one. */
  function SplitAtFirst(s: string, sep: char): (r: Option<(string, string)>)
    ensures r.None? <==> sep !in s
    ensures r.Some? ==> s == r.value.0 + [sep] + r.value.1 && sep !in r.value.0
  {
    if s == [] then None
    else if s[0] == sep then
      assert s == [] + [sep] + s[1..];
      Some(([], s[1..]))
    else
      match SplitAtFirst(s[1..], sep)
      case None => None
      case Some((a, b)) =>
        assert s == [s[0]] + s[1..];
        Some(([s[0]] + a, b))
  }

  /** The position of the first `sep` in `s`. */
  function IndexOf(s: string, sep: char): (i: nat)
    requires sep in s
    ensures i < |s| && s[i] == sep && sep !in s[..i]
  {
    if s[0] == sep then 0
    else
      assert sep in s[1..];
      var i := IndexOf(s[1..], sep) + 1;
      assert s[..i] == [s[0]] + s[1..][..i - 1];
      i
  }

  /** A string splits at most one way at the first occurrence of a separator. */
  lemma SplitUnique(a: string, b: string, c: string, d: string, sep: char)
    requires a + [sep] + b == c + [sep] + d
    requires sep !in a && sep !in c
    ensures a == c && b == d
  {
    var s := a + [sep] + b;
    FirstSeparator(a, b, sep);
    FirstSeparator(c, d, sep);
    assert a == s[..|a|] && c == s[..|c|];
    assert b == s[|a| + 1..] && d == s[|c| + 1..];
  }

  lemma FirstSeparator(a: string, b: string, sep: char)
    requires sep !in a
    ensures IndexOf(a + [sep] + b, sep) == |a|
  {
    var s := a + [sep] + b;
    var i := IndexOf(s, sep);
    assert forall k :: 0 <= k < |a| ==> s[k] == a[k];
    assert s[|a|] == sep;
  }

  /** When git describes nothing, the build id splits back at its first `+`
      into the date and the short commit id (or `nogit`). */
  lemma FallbackBuildVersionSplits(shortSha: string, today: string)
    requires '+' !in today
    ensures SplitAtFirst(ResolveBuildVersion("", shortSha, today), '+')
         == Some((today, if shortSha == "" then NoGit else shortSha))
  {
    var r := ResolveBuildVersion("", shortSha, today);
    var sha := if shortSha == "" then NoGit else shortSha;
    assert r == today + ['+'] + sha;
    var parts := SplitAtFirst(r, '+');
    assert parts.Some?;
    var (a, b) := parts.value;
    SplitUnique(a, b, today, sha, '+');
  }

  /** A describe output is used verbatim. */
  lemma DescribeOutputPreferred()
    ensures ResolveBuildVersion("v1.2.3-4-gabc123-dirty", "", "20260210") == "v1.2.3-4-gabc123-dirty"
  {
  }

  // ---------------------------------------------------------------------
  // VERSION_RE and resolve_product_version

  /** `VERSION_RE.match(line)` and its `version` group:
      `^__version__\s*=\s*['"](?P<version>[^'"]+)['"]`. The match is anchored
      at the start only; anything may follow the closing quote, and the two
      quotes need not be the same character. The pattern is read left to
      right by the stages below; no stage can profit from backtracking, since
      `=` and the quotes are neither whitespace nor part of the version. */
  function MatchVersionLine(line: string): (r: Option<string>)
    ensures r.Some? ==> |r.value| > 0 && All(r.value, NotQuote)
  {
    if StartsWith(line, "__version__") then MatchAssignment(line[11..]) else None
  }

  /** `\s*=\s*` and what follows. */
  function MatchAssignment(s: string): (r: Option<string>)
    ensures r.Some? ==> |r.value| > 0 && All(r.value, NotQuote)
  {
    var a := DropWhile(s, Whitespace);
    if a != [] && a[0] == '=' then MatchQuoted(DropWhile(a[1..], Whitespace)) else None
  }

  /** `['"](?P<version>[^'"]+)['"]`. */
  function MatchQuoted(s: string): (r: Option<string>)
    ensures r.Some? ==> |r.value| > 0 && All(r.value, NotQuote)
  {
    if s != [] && IsQuote(s[0]) then MatchValue(s[1..]) else None
  }

  /** `(?P<version>[^'"]+)['"]`: the longest quote-free prefix, which must be
      non-empty and followed by a quote. */
  function MatchValue(s: string): (r: Option<string>)
    ensures r.Some? ==> |r.value| > 0 && All(r.value, NotQuote)
  {
    var tail := DropWhile(s, NotQuote);
    if tail != [] && |tail| < |s| then Some(s[..|s| - |tail|]) else None
  }

  /** A line of the shape the pattern describes, assembled from its parts:
      `__version__`, spaces, `=`, spaces, a quote, the version, a quote, and
      anything at all. */
  function VersionLine(ws1: string, ws2: string, open: char, v: string, close: char, rest: string): string {
    "__version__" + Assignment(ws1, ws2, open, v, close, rest)
  }

  /** The part of such a line after `__version__`. */
  function Assignment(ws1: string, ws2: string, open: char, v: string, close: char, rest: string): string {
    ws1 + ("=" + (ws2 + ([open] + (v + ([close] + rest)))))
  }

  predicate LineParts(ws1: string, ws2: string, open: char, v: string, close: char) {
    && All(ws1, Whitespace) && All(ws2, Whitespace)
    && IsQuote(open) && IsQuote(close)
    && |v| > 0 && All(v, NotQuote)
  }

  lemma MatchValueComplete(v: string, close: char, rest: string)
    requires |v| > 0 && All(v, NotQuote) && IsQuote(close)
    ensures MatchValue(v + ([close] + rest)) == Some(v)
  {
    DropWhileStopsAfterRun(v, [close] + rest, NotQuote);
  }

  lemma MatchAssignmentComplete(ws1: string, ws2: string, open: char, v: string, close: char, rest: string)
    requires LineParts(ws1, ws2, open, v, close)
    ensures MatchAssignment(Assignment(ws1, ws2, open, v, close, rest)) == Some(v)
  {
    var quoted := [open] + (v + ([close] + rest));
    var afterEq := ws2 + quoted;
    DropWhileStopsAfterRun(ws1, "=" + afterEq, Whitespace);
    assert ("=" + afterEq)[1..] == afterEq;
    DropWhileStopsAfterRun(ws2, quoted, Whitespace);
    assert quoted[1..] == v + ([close] + rest);
    MatchValueComplete(v, close, rest);
  }

  /** Every line of the pattern's shape matches, capturing its version. */
  lemma MatchVersionLineComplete(ws1: string, ws2: string, open: char, v: string, close: char, rest: string)
    requires LineParts(ws1, ws2, open, v, close)
    ensures MatchVersionLine(VersionLine(ws1, ws2, open, v, close, rest)) == Some(v)
  {
    var tail := Assignment(ws1, ws2, open, v, close, rest);
    assert VersionLine(ws1, ws2, open, v, close, rest)[11..] == tail;
    MatchAssignmentComplete(ws1, ws2, open, v, close, rest);
  }

  lemma MatchValueSound(s: string)
    requires MatchValue(s).Some?
    ensures var v := MatchValue(s).value;
      |v| < |s| && IsQuote(s[|v|]) && s == v + ([s[|v|]] + s[|v| + 1..])
  {
    var v := MatchValue(s).value;
    assert s == v + s[|v|..];
    assert s[|v|..] == [s[|v|]] + s[|v| + 1..];
  }

  lemma MatchQuotedSound(b: string) returns (open: char, close: char, rest: string)
    requires MatchQuoted(b).Some?
    ensures IsQuote(open) && IsQuote(close)
    ensures b == [open] + (MatchQuoted(b).value + ([close] + rest))
  {
    var s3 := b[1..];
    MatchValueSound(s3);
    var v := MatchValue(s3).value;
    open, close, rest := b[0], s3[|v|], s3[|v| + 1..];
    assert b == [b[0]] + s3;
  }

  lemma MatchAssignmentSound(s: string) returns (ws1: string, ws2: string, open: char, close: char, rest: string)
    requires MatchAssignment(s).Some?
    ensures LineParts(ws1, ws2, open, MatchAssignment(s).value, close)
    ensures s == Assignment(ws1, ws2, open, MatchAssignment(s).value, close, rest)
  {
    var v := MatchAssignment(s).value;
    var a, b;
    ws1, a := SplitLeadingSpace(s);
    assert a != [] && a[0] == '=';
    HeadTail(a);
    ws2, b := SplitLeadingSpace(a[1..]);
    assert MatchQuoted(b) == Some(v);
    open, close, rest := MatchQuotedSound(b);
  }

  /** Splits off the leading whitespace that `\s*` consumes. */
  lemma SplitLeadingSpace(s: string) returns (ws: string, t: string)
    ensures t == DropWhile(s, Whitespace)
    ensures s == ws + t && All(ws, Whitespace)
  {
    t := DropWhile(s, Whitespace);
    ws := s[..|s| - |t|];
  }

  /** Every line that matches has the pattern's shape around the captured version. */
  lemma MatchVersionLineSound(line: string)
    requires MatchVersionLine(line).Some?
    ensures var v := MatchVersionLine(line).value;
      exists ws1, ws2, open, close, rest ::
        LineParts(ws1, ws2, open, v, close) && line == VersionLine(ws1, ws2, open, v, close, rest)
  {
    var v := MatchVersionLine(line).value;
    var s1 := line[11..];
    assert MatchAssignment(s1) == Some(v);
    var ws1, ws2, open, close, rest := MatchAssignmentSound(s1);
    SplitAt(line, 11);
    assert line == VersionLine(ws1, ws2, open, v, close, rest);
  }

  /** The version a line of `__init__.py` declares, if any (matched after stripping). */
  function LineVersion(line: string): (r: Option<string>)
    ensures r.Some? ==> |r.value| > 0 && All(r.value, NotQuote)
  {
    MatchVersionLine(Strip(line))
  }

  /** The product version. `initLines` are the lines of `src/libra/__init__.py`,
      or `None` when reading it raised `OSError`. */
  function ResolveProductVersion(initLines: Option<seq<string>>): (r: string)
    ensures |r| > 0 && All(r, NotQuote)
    ensures initLines.None? ==> r == DefaultProductVersion
    ensures initLines.Some? ==>
      forall i :: IsFirstHit(initLines.value, LineVersion, i) ==> r == LineVersion(initLines.value[i]).value
    ensures initLines.Some? && (forall i :: 0 <= i < |initLines.value| ==> LineVersion(initLines.value[i]).None?) ==>
      r == DefaultProductVersion
  {
    match initLines
    case None => DefaultProductVersion
    case Some(lines) =>
      var found := FirstSome(lines, LineVersion);
      found.GetOr(DefaultProductVersion)
  }

  /** Lines before the first declaration are passed over; lines after it are
      never looked at. */
  lemma FirstDeclarationWins(before: seq<string>, line: string, after: seq<string>)
    requires forall i :: 0 <= i < |before| ==> LineVersion(before[i]).None?
    requires LineVersion(line).Some?
    ensures ResolveProductVersion(Some(before + ([line] + after))) == LineVersion(line).value
  {
    FirstSomeAfterMisses(before, line, after, LineVersion);
  }

  /** A declaration such as `  __version__ = '0.1.0'  ` (surrounding spaces,
      single quotes, spaces around `=`) yields its version. */
  lemma SpacedDeclarationYieldsVersion(pad: string, ws1: string, ws2: string, open: char, v: string, close: char)
    requires All(pad, Whitespace) && LineParts(ws1, ws2, open, v, close)
    ensures LineVersion(pad + VersionLine(ws1, ws2, open, v, close, []) + pad) == Some(v)
  {
    var line := VersionLine(ws1, ws2, open, v, close, []);
    assert line[|line| - 1] == close;
    StripPadded(pad, line, pad);
    MatchVersionLineComplete(ws1, ws2, open, v, close, []);
  }

  // ---------------------------------------------------------------------
  // compose_runtime_version

  /** The runtime version: the build id with its leading `v`s removed when it
      already begins with the product version, otherwise the product version
      with the sanitized build id appended after a `+`. */
  function ComposeRuntimeVersion(productVersion: string, buildId: string): (r: string)
    ensures StartsWith(r, productVersion)
    ensures StartsWith(LStripChar(buildId, 'v'), productVersion) ==> r == LStripChar(buildId, 'v')
    ensures !StartsWith(LStripChar(buildId, 'v'), productVersion) ==>
      r == productVersion + "+" + Sanitize(buildId)
  {
    var normalized := LStripChar(buildId, 'v');
    if StartsWith(normalized, productVersion) then normalized
    else productVersion + "+" + Sanitize(buildId)
  }

  /** What follows the product version is either part of the build id or a
      `+` and a file-name-safe rendering of the build id. */
  lemma ComposeRuntimeVersionSuffix(productVersion: string, buildId: string)
    ensures var r := ComposeRuntimeVersion(productVersion, buildId);
      var suffix := r[|productVersion|..];
      || (StartsWith(suffix, "+") && IsSafe(suffix[1..]))
      || (exists k :: 0 <= k <= |buildId| && buildId[k..] == suffix)
  {
    var r := ComposeRuntimeVersion(productVersion, buildId);
    var normalized := LStripChar(buildId, 'v');
    if StartsWith(normalized, productVersion) {
      var k := |buildId| - |normalized| + |productVersion|;
      assert buildId[k..] == r[|productVersion|..];
    } else {
      assert r[|productVersion|..][1..] == Sanitize(buildId);
    }
  }

  /** Composing again with the runtime version as the build id changes
      nothing, unless the product version itself begins with `v`. */
  lemma ComposeRuntimeVersionStable(productVersion: string, buildId: string)
    requires productVersion == [] || productVersion[0] != 'v'
    ensures var r := ComposeRuntimeVersion(productVersion, buildId);
      ComposeRuntimeVersion(productVersion, r) == r
  {
    var r := ComposeRuntimeVersion(productVersion, buildId);
    if productVersion == [] {
      var once := LStripChar(buildId, 'v');
      assert r == once;
      assert LStripChar(r, 'v') == r by {
        DropWhileStopsAfterRun([], r, Only('v'));
        assert [] + r == r;
      }
    } else {
      assert r[0] == productVersion[0];
      assert LStripChar(r, 'v') == r by {
        DropWhileStopsAfterRun([], r, Only('v'));
        assert [] + r == r;
      }
    }
  }

  /** A describe output made of `v`s, the product version and a suffix, as
      `v1.2.3-4-gabc123-dirty` for product version `1.2.3`, is taken over
      without its leading `v`s. */
  lemma ComposeTaggedBuild(vs: string, productVersion: string, suffix: string)
    requires forall k :: 0 <= k < |vs| ==> vs[k] == 'v'
    requires productVersion != [] && productVersion[0] != 'v'
    ensures ComposeRuntimeVersion(productVersion, vs + productVersion + suffix) == productVersion + suffix
  {
    assert vs + productVersion + suffix == vs + (productVersion + suffix);
    LStripCharAfterRun(vs, productVersion + suffix, 'v');
  }

  /** A date-based build id `<date>+<sha>`, as `20260210+abc123` for product
      version `0.1.0`, is appended after a `+` with its own `+` turned into `-`. */
  lemma ComposeDatedBuild(productVersion: string, date: string, sha: string)
    requires IsSafe(date) && IsSafe(sha) && sha != []
    requires date == [] || date[0] != 'v'
    requires |productVersion| <= |date| && !StartsWith(date, productVersion)
    ensures ComposeRuntimeVersion(productVersion, ResolveBuildVersion("", sha, date))
         == productVersion + "+" + date + "-" + sha
  {
    var buildId := ResolveBuildVersion("", sha, date);
    assert buildId == date + "+" + sha;
    assert buildId == [] + buildId;
    LStripCharAfterRun([], buildId, 'v');
    assert LStripChar(buildId, 'v') == buildId;
    assert buildId[..|productVersion|] == date[..|productVersion|];
    assert !StartsWith(buildId, productVersion);
    SanitizeOneRun(date, "+", sha, buildId);
    var r := ComposeRuntimeVersion(productVersion, buildId);
    assert r == (productVersion + "+") + (date + "-" + sha);
    Concat3(productVersion + "+", date + "-", sha);
    Concat3(productVersion + "+", date, "-");
  }

  // ---------------------------------------------------------------------
  // write_version_file (content only)

  /** The text written to `VERSION.txt`. */
  function VersionFileText(version: string): (text: string)
    ensures |text| == |version| + 1 && text[..|version|] == version
    ensures text[|version|] == '\n'
  {
    version + "\n"
  }

  // ---------------------------------------------------------------------
  // prepare_archive_tree (names only)

  /** A path as its sequence of components. */
  type Path = seq<string>

  /** `Path.parent`; the parent of the empty path `.` is itself. */
  function Parent(p: Path): Path {
    if p == [] then [] else p[..|p| - 1]
  }

  /** `Path.name`; the empty path has an empty name. */
  function Name(p: Path): string {
    if p == [] then "" else p[|p| - 1]
  }

  /** The name of the directory the archive is built from. */
  function PackageDirName(productVersion: string): (name: string)
    ensures StartsWith(name, "Libra-")
    ensures IsSafe(name)
    ensures Sanitize(name) == name
    ensures name == "Libra-" + Rendered(Pieces(productVersion))
    ensures IsSafe(productVersion) ==> name == "Libra-" + productVersion
  {
    var name := "Libra-" + Sanitize(productVersion);
    assert IsSafe("Libra-");
    AllConcat("Libra-", Sanitize(productVersion), FileNameChar);
    StartsWithConcat("Libra-", Sanitize(productVersion));
    SanitizeRendersPieces(Pieces(productVersion));
    name
  }

  /** The directories `prepare_archive_tree` lays out next to the build output. */
  datatype ArchiveTree = ArchiveTree(packageRoot: Path, packageDir: Path, bundledDist: Path)

  function PrepareArchiveTree(distDir: Path, productVersion: string): (t: ArchiveTree)
    ensures Parent(t.packageRoot) == Parent(distDir) && Name(t.packageRoot) == "_package"
    ensures Parent(t.packageDir) == t.packageRoot && Name(t.packageDir) == PackageDirName(productVersion)
    ensures Parent(t.bundledDist) == t.packageDir && Name(t.bundledDist) == Name(distDir)
  {
    var root := Parent(distDir) + ["_package"];
    var pkg := root + [PackageDirName(productVersion)];
    ArchiveTree(root, pkg, pkg + [Name(distDir)])
  }

  /** Wherever the build output lies, the packaged directory of a version
      `<tag>+<meta>` with safe parts, as `v1.0.0+abc`, is `Libra-<tag>-<meta>`. */
  lemma PackageDirNameOfTaggedVersion(distDir: Path, tag: string, meta: string)
    requires IsSafe(tag) && IsSafe(meta) && meta != []
    ensures Name(PrepareArchiveTree(distDir, tag + "+" + meta).packageDir) == "Libra-" + tag + "-" + meta
  {
    TaggedPackageDirName(tag, meta);
    var t := PrepareArchiveTree(distDir, tag + "+" + meta);
    assert Name(t.packageDir) == PackageDirName(tag + "+" + meta);
  }

  /** The directory name of a version `<tag>+<meta>` with safe parts. */
  lemma TaggedPackageDirName(tag: string, meta: string)
    requires IsSafe(tag) && IsSafe(meta) && meta != []
    ensures PackageDirName(tag + "+" + meta) == "Libra-" + tag + "-" + meta
  {
    SanitizeOneRun(tag, "+", meta, tag + "+" + meta);
    assert "Libra-" + (tag + "-" + meta) == "Libra-" + tag + "-" + meta;
  }

  // ---------------------------------------------------------------------
  // build_pyinstaller_command

  /** `flag` occurs in `cmd` immediately followed by `value`. */
  predicate HasOption(cmd: seq<string>, flag: string, value: string) {
    exists i :: 0 <= i < |cmd| - 1 && cmd[i] == flag && cmd[i + 1] == value
  }

  /** The PyInstaller command line. `exe` is the running interpreter, `srcDir`
      the string form of `repo_root / "src"`, `entry` the string form of the
      entry script, and `supportsContentsDirectory` whether the installed
      PyInstaller's help text mentions `--contents-directory`. */
  function BuildPyInstallerCommand(exe: string, srcDir: string, entry: string, addData: string,
                                   supportsContentsDirectory: bool): (r: Result<seq<string>, string>)
    ensures !supportsContentsDirectory <==> r == Failure(ContentsDirectoryRequired)
    ensures r.Success? ==>
      && |r.value| == 15
      && r.value[..6] == [exe, "-m", "PyInstaller", "--noconfirm", "--clean", "--onedir"]
      && HasOption(r.value, "--contents-directory", "_internal")
      && HasOption(r.value, "--name", "Libra")
      && HasOption(r.value, "--paths", srcDir)
      && HasOption(r.value, "--add-data", addData)
      && r.value[|r.value| - 1] == entry
  {
    var cmd := [exe, "-m", "PyInstaller", "--noconfirm", "--clean", "--onedir"];
    if !supportsContentsDirectory then Failure(ContentsDirectoryRequired)
    else
      var full := cmd + ["--contents-directory", "_internal"]
                      + ["--name", "Libra", "--paths", srcDir, "--add-data", addData, entry];
      assert full[6] == "--contents-directory" && full[7] == "_internal";
      assert full[8] == "--name" && full[9] == "Libra";
      assert full[10] == "--paths" && full[11] == srcDir;
      assert full[12] == "--add-data" && full[13] == addData;
      Success(full)
  }
}
