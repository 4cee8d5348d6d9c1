/** Revision tokens and the bulk-selection rules of the history-clearing
    dialog. A token `rev<major>.<minor>.<patch>_<date>` names one historical
    file; the dialog offers to check every older patch of the latest minor
    line, or every older minor line of the latest major version. */
module Revisions {
  import opened Wrappers
  import opened Text

  /** A `(major, minor, patch)` triple as the predicates receive it. */
  datatype Version = Version(major: nat, minor: nat, patch: nat)

  /** Tuple order, as Python compares `(major, minor, patch)`. */
  predicate Older(a: Version, b: Version) {
    || a.major < b.major
    || (a.major == b.major && a.minor < b.minor)
    || (a.major == b.major && a.minor == b.minor && a.patch < b.patch)
  }

  /** `should_select_patch`: same major and minor line, lower patch. */
  predicate ShouldSelectPatch(latest: Version, candidate: Version) {
    candidate.major == latest.major && candidate.minor == latest.minor && candidate.patch < latest.patch
  }

  /** `should_select_minor`: same major, lower minor, any patch. */
  predicate ShouldSelectMinor(latest: Version, candidate: Version) {
    candidate.major == latest.major && candidate.minor < latest.minor
  }

  /** Patch selection picks exactly the strictly older releases of the
      latest minor line. */
  lemma PatchSelectsOlderInMinorLine(latest: Version, candidate: Version)
    ensures ShouldSelectPatch(latest, candidate)
        <==> Older(candidate, latest) && candidate.major == latest.major && candidate.minor == latest.minor
  {
  }

  /** Minor selection picks exactly the strictly older releases of the latest
      major version that lie on another minor line. */
  lemma MinorSelectsOlderLinesInMajor(latest: Version, candidate: Version)
    ensures ShouldSelectMinor(latest, candidate)
        <==> Older(candidate, latest) && candidate.major == latest.major && candidate.minor != latest.minor
  {
  }

  /** The two selections never overlap, and between them they cover every
      strictly older release of the same major version. */
  lemma SelectionsPartitionOlderSameMajor(latest: Version, candidate: Version)
    ensures !(ShouldSelectPatch(latest, candidate) && ShouldSelectMinor(latest, candidate))
    ensures ShouldSelectPatch(latest, candidate) || ShouldSelectMinor(latest, candidate)
        <==> Older(candidate, latest) && candidate.major == latest.major
  {
  }

  /** The latest release itself, and anything from another major version,
      is never selected. */
  lemma NeverLatestNorOtherMajor(latest: Version, candidate: Version)
    ensures !ShouldSelectPatch(latest, latest) && !ShouldSelectMinor(latest, latest)
    ensures candidate.major != latest.major ==>
      !ShouldSelectPatch(latest, candidate) && !ShouldSelectMinor(latest, candidate)
  {
  }

  /** The predicate cases the dialog's tests pin down. */
  lemma PredicateExamples()
    ensures ShouldSelectPatch(Version(1, 2, 3), Version(1, 2, 2))
    ensures ShouldSelectPatch(Version(1, 2, 3), Version(1, 2, 0))
    ensures !ShouldSelectPatch(Version(1, 2, 3), Version(1, 2, 3))
    ensures !ShouldSelectPatch(Version(1, 2, 3), Version(1, 1, 9))
    ensures ShouldSelectMinor(Version(2, 1, 0), Version(2, 0, 5))
    ensures !ShouldSelectMinor(Version(2, 1, 0), Version(2, 1, 0))
    ensures !ShouldSelectMinor(Version(2, 1, 0), Version(1, 9, 9))
  {
  }

  // ---------------------------------------------------------------------
  // Revision tokens

  /** A parsed `rev<major>.<minor>.<patch>_<date>`. */
  datatype RevToken = RevToken(version: Version, date: string)

  /** A non-empty run of digits followed by the separator `sep`: the run's
      value and what follows the separator. */
  function NumberThen(s: string, sep: char): (r: Option<(nat, string)>)
    requires !IsDigit(sep)
  {
    var n := SpanLength(s, Digit);
    if n == 0 || n == |s| || s[n] != sep then None
    else
      SpanLengthBounds(s, Digit);
      Some((DecimalValue(s[..n]), s[n + 1..]))
  }

  /** A run of digits, its separator, and the rest of the token. */
  function Segment(digits: string, sep: char, rest: string): string {
    digits + ([sep] + rest)
  }

  /** The rendering of one number followed by its separator and the rest. */
  function Field(n: nat, sep: char, rest: string): string {
    Segment(NatToDecimal(n), sep, rest)
  }

  lemma NumberThenField(n: nat, sep: char, rest: string)
    requires !IsDigit(sep)
    ensures NumberThen(Field(n, sep, rest), sep) == Some((n, rest))
  {
    var ds := NatToDecimal(n);
    var s := Field(n, sep, rest);
    SpanLengthAfterRun(ds, [sep] + rest, Digit);
    assert s[..|ds|] == ds;
    assert s[|ds|] == sep;
    assert s[|ds| + 1..] == rest;
  }

  /** Reads a revision token; `None` when it does not have the shape
      `rev<digits>.<digits>.<digits>_<digits>`. */
  function ParseRev(token: string): (r: Option<RevToken>)
    ensures r.Some? ==> r.value.date != [] && All(r.value.date, Digit)
  {
    if !StartsWith(token, "rev") then None
    else match NumberThen(token[3..], '.')
      case None => None
      case Some((major, a)) =>
        match NumberThen(a, '.')
        case None => None
        case Some((minor, b)) =>
          match NumberThen(b, '_')
          case None => None
          case Some((patch, date)) =>
            if date != [] && All(date, Digit) then Some(RevToken(Version(major, minor, patch), date))
            else None
  }

  /** The token for a version and date, numbers written without leading zeros. */
  function FormatRev(t: RevToken): string {
    "rev" + Field(t.version.major, '.', Field(t.version.minor, '.', Field(t.version.patch, '_', t.date)))
  }

  /** Formatting then parsing gives back the token. */
  lemma ParseFormatRev(t: RevToken)
    requires t.date != [] && All(t.date, Digit)
    ensures ParseRev(FormatRev(t)) == Some(t)
  {
    var v := t.version;
    var c := Field(v.patch, '_', t.date);
    var b := Field(v.minor, '.', c);
    var a := Field(v.major, '.', b);
    var s := FormatRev(t);
    assert s[3..] == a;
    NumberThenField(v.major, '.', b);
    NumberThenField(v.minor, '.', c);
    NumberThenField(v.patch, '_', t.date);
  }

  /** What `NumberThen` accepted: a digit run, the separator, the rest. */
  lemma NumberThenSound(s: string, sep: char) returns (digits: string)
    requires !IsDigit(sep) && NumberThen(s, sep).Some?
    ensures digits != [] && All(digits, Digit)
    ensures DecimalValue(digits) == NumberThen(s, sep).value.0
    ensures s == Segment(digits, sep, NumberThen(s, sep).value.1)
  {
    var n := SpanLength(s, Digit);
    SpanLengthBounds(s, Digit);
    digits := s[..n];
    assert s == digits + ([sep] + s[n + 1..]);
  }

  /** Every accepted token is `rev`, three digit runs separated by `.`,
      `.` and `_`, and the date; when no run has a superfluous leading zero
      the token is exactly the rendering of what was parsed. */
  lemma ParseRevSound(token: string) returns (major: string, minor: string, patch: string)
    requires ParseRev(token).Some?
    ensures var t := ParseRev(token).value;
      && IsDigits(major, t.version.major) && IsDigits(minor, t.version.minor) && IsDigits(patch, t.version.patch)
      && StartsWith(token, "rev")
      && token[3..] == Segment(major, '.', Segment(minor, '.', Segment(patch, '_', t.date)))
    ensures var t := ParseRev(token).value;
      IsCanonicalDecimal(major) && IsCanonicalDecimal(minor) && IsCanonicalDecimal(patch) ==>
      FormatRev(t) == token
  {
    var t := ParseRev(token).value;
    var s := token[3..];
    var a := NumberThen(s, '.').value.1;
    var b := NumberThen(a, '.').value.1;
    major := NumberThenSound(s, '.');
    minor := NumberThenSound(a, '.');
    patch := NumberThenSound(b, '_');
    if IsCanonicalDecimal(major) && IsCanonicalDecimal(minor) && IsCanonicalDecimal(patch) {
      assert Field(t.version.patch, '_', t.date) == b by { FieldOfDigits(patch, t.version.patch, '_', t.date); }
      assert Field(t.version.minor, '.', b) == a by { FieldOfDigits(minor, t.version.minor, '.', b); }
      assert Field(t.version.major, '.', a) == s by { FieldOfDigits(major, t.version.major, '.', a); }
      StartsWithJoin(token, "rev");
    }
  }

  /** A canonical digit run is the rendering of its value. */
  lemma FieldOfDigits(digits: string, n: nat, sep: char, rest: string)
    requires IsDigits(digits, n) && IsCanonicalDecimal(digits)
    ensures Field(n, sep, rest) == Segment(digits, sep, rest)
  {
    CanonicalDecimalRoundTrip(digits);
  }

  /** `digits` is a non-empty run of decimal digits whose value is `n`. */
  predicate IsDigits(digits: string, n: nat) {
    digits != [] && All(digits, Digit) && DecimalValue(digits) == n
  }

  // ---------------------------------------------------------------------
  // Bulk selection in the history-clearing dialog

  /** One history row: the revision token and the file it names. */
  datatype HistoryItem = HistoryItem(rev: string, file: string)

  /** The dialog's two bulk-selection buttons. */
  datatype Bulk = Patches | Minors

  /** Every row carries a well-formed revision token. */
  predicate WellFormedHistory(items: seq<HistoryItem>) {
    forall i :: 0 <= i < |items| ==> ParseRev(items[i].rev).Some?
  }

  /** Whether `mode` checks a row whose revision is `candidate`. */
  predicate Checks(mode: Bulk, latest: Version, candidate: Version) {
    match mode
    case Patches => ShouldSelectPatch(latest, candidate)
    case Minors => ShouldSelectMinor(latest, candidate)
  }

  /** The version each row's token encodes. */
  function RowVersions(items: seq<HistoryItem>): (r: seq<Version>)
    requires WellFormedHistory(items)
    ensures |r| == |items|
    ensures forall i :: 0 <= i < |items| ==> ParseRev(items[i].rev).value.version == r[i]
  {
    seq(|items|, i requires 0 <= i < |items| => ParseRev(items[i].rev).value.version)
  }

  /** The revisions of the rows whose versions `mode` checks against
      `latest`, in row order. */
  function CheckedRevs(mode: Bulk, latest: Version, revs: seq<string>, versions: seq<Version>): (r: seq<string>)
    requires |revs| == |versions|
    ensures |r| <= |revs|
    ensures forall i :: 0 <= i < |revs| && Checks(mode, latest, versions[i]) ==> revs[i] in r
    ensures forall x :: x in r ==> exists i :: 0 <= i < |revs| && revs[i] == x && Checks(mode, latest, versions[i])
  {
    if revs == [] then []
    else
      var rest := CheckedRevs(mode, latest, revs[1..], versions[1..]);
      assert forall i :: 1 <= i < |revs| ==> revs[i] == revs[1..][i - 1] && versions[i] == versions[1..][i - 1];
      if Checks(mode, latest, versions[0]) then [revs[0]] + rest else rest
  }

  /** The revision column of the history rows. */
  function Revs(items: seq<HistoryItem>): (r: seq<string>)
    ensures |r| == |items| && forall i :: 0 <= i < |items| ==> r[i] == items[i].rev
  {
    seq(|items|, i requires 0 <= i < |items| => items[i].rev)
  }

  /** `select_patch_versions` / `select_minor_versions`: the revisions of
      the rows left checked, in row order. A row is checked exactly when the
      mode's predicate holds between the latest revision and the row's. */
  function SelectVersions(mode: Bulk, items: seq<HistoryItem>, latestRev: string): (r: seq<string>)
    requires ParseRev(latestRev).Some? && WellFormedHistory(items)
    ensures |r| <= |items|
    ensures forall i :: 0 <= i < |items| ==>
      Checks(mode, ParseRev(latestRev).value.version, ParseRev(items[i].rev).value.version) ==> items[i].rev in r
    ensures forall x :: x in r ==> exists i :: (0 <= i < |items| && items[i].rev == x &&
      Checks(mode, ParseRev(latestRev).value.version, ParseRev(items[i].rev).value.version))
  {
    var latest := ParseRev(latestRev).value.version;
    CheckedRowsSound(mode, items, latest);
    CheckedRowsComplete(mode, items, latest);
    CheckedRevs(mode, latest, Revs(items), RowVersions(items))
  }

  lemma CheckedRowsSound(mode: Bulk, items: seq<HistoryItem>, latest: Version)
    requires WellFormedHistory(items)
    ensures var r := CheckedRevs(mode, latest, Revs(items), RowVersions(items));
      forall x :: x in r ==> exists i :: (0 <= i < |items| && items[i].rev == x &&
        Checks(mode, latest, ParseRev(items[i].rev).value.version))
  {
  }

  lemma CheckedRowsComplete(mode: Bulk, items: seq<HistoryItem>, latest: Version)
    requires WellFormedHistory(items)
    ensures var r := CheckedRevs(mode, latest, Revs(items), RowVersions(items));
      forall i :: 0 <= i < |items| ==>
        Checks(mode, latest, ParseRev(items[i].rev).value.version) ==> items[i].rev in r
  {
  }

  /** Only strictly older revisions of the latest major version are ever
      checked, and never the latest revision itself. */
  lemma CheckedAreOlder(mode: Bulk, items: seq<HistoryItem>, latestRev: string, x: string)
    requires ParseRev(latestRev).Some? && WellFormedHistory(items)
    requires x in SelectVersions(mode, items, latestRev)
    ensures ParseRev(x).Some?
    ensures var latest := ParseRev(latestRev).value.version;
      var v := ParseRev(x).value.version;
      Older(v, latest) && v.major == latest.major
  {
  }

  /** No revision is checked by both buttons. */
  lemma PatchAndMinorDisjoint(items: seq<HistoryItem>, latestRev: string, x: string)
    requires ParseRev(latestRev).Some? && WellFormedHistory(items)
    ensures !(x in SelectVersions(Patches, items, latestRev) && x in SelectVersions(Minors, items, latestRev))
  {
  }

  /** A date field as the tokens carry it: a non-empty run of digits. */
  predicate IsDate(d: string) {
    d != [] && All(d, Digit)
  }

  /** The history row for a version and date. */
  function HistoryRow(major: nat, minor: nat, patch: nat, date: string, file: string): HistoryItem {
    HistoryItem(FormatRev(RevToken(Version(major, minor, patch), date)), file)
  }

  lemma RowParses(major: nat, minor: nat, patch: nat, date: string, file: string)
    requires IsDate(date)
    ensures ParseRev(HistoryRow(major, minor, patch, date, file).rev) == Some(RevToken(Version(major, minor, patch), date))
  {
    ParseFormatRev(RevToken(Version(major, minor, patch), date));
  }

  /** Selection over four well-formed rows, in terms of their versions. */
  lemma SelectFourRows(mode: Bulk, items: seq<HistoryItem>, latestRev: string, latest: Version, vs: seq<Version>)
    requires ParseRev(latestRev).Some? && ParseRev(latestRev).value.version == latest
    requires WellFormedHistory(items) && RowVersions(items) == vs && |vs| == 4
    ensures SelectVersions(mode, items, latestRev)
         == CheckedRevs(mode, latest, [items[0].rev, items[1].rev, items[2].rev, items[3].rev], vs)
  {
    RevsOfFour(items);
  }

  /** The revision column of four rows. */
  lemma RevsOfFour(items: seq<HistoryItem>)
    requires |items| == 4
    ensures Revs(items) == [items[0].rev, items[1].rev, items[2].rev, items[3].rev]
  {
  }

  /** Patch selection against a latest revision `1.2.3`, over rows whose
      tokens carry `1.2.1`, `1.2.2`, `1.1.9` and `2.0.0` (dates and file
      names do not matter), checks exactly the first two rows. */
  lemma SelectPatchVersionsExample(items: seq<HistoryItem>, latestRev: string)
    requires ParseRev(latestRev).Some? && ParseRev(latestRev).value.version == Version(1, 2, 3)
    requires WellFormedHistory(items)
    requires RowVersions(items) == [Version(1, 2, 1), Version(1, 2, 2), Version(1, 1, 9), Version(2, 0, 0)]
    ensures SelectVersions(Patches, items, latestRev) == [items[0].rev, items[1].rev]
  {
    var revs := [items[0].rev, items[1].rev, items[2].rev, items[3].rev];
    SelectFourRows(Patches, items, latestRev, Version(1, 2, 3), RowVersions(items));
    PatchRowsChecked(revs);
  }

  /** Minor selection against a latest revision `1.2.3`, over rows whose
      tokens carry `1.2.1`, `1.1.9`, `1.0.0` and `2.0.0`, checks exactly the
      second and third rows. */
  lemma SelectMinorVersionsExample(items: seq<HistoryItem>, latestRev: string)
    requires ParseRev(latestRev).Some? && ParseRev(latestRev).value.version == Version(1, 2, 3)
    requires WellFormedHistory(items)
    requires RowVersions(items) == [Version(1, 2, 1), Version(1, 1, 9), Version(1, 0, 0), Version(2, 0, 0)]
    ensures SelectVersions(Minors, items, latestRev) == [items[1].rev, items[2].rev]
  {
    var revs := [items[0].rev, items[1].rev, items[2].rev, items[3].rev];
    SelectFourRows(Minors, items, latestRev, Version(1, 2, 3), RowVersions(items));
    MinorRowsChecked(revs);
  }

  /** The patch scenario's versions, with any revision strings. */
  lemma PatchRowsChecked(revs: seq<string>)
    requires |revs| == 4
    ensures CheckedRevs(Patches, Version(1, 2, 3), revs,
                        [Version(1, 2, 1), Version(1, 2, 2), Version(1, 1, 9), Version(2, 0, 0)])
         == [revs[0], revs[1]]
  {
    var vs := [Version(1, 2, 1), Version(1, 2, 2), Version(1, 1, 9), Version(2, 0, 0)];
    CheckedFour(Patches, Version(1, 2, 3), revs, vs);
    assert Checks(Patches, Version(1, 2, 3), vs[0]) && Checks(Patches, Version(1, 2, 3), vs[1]);
    assert !Checks(Patches, Version(1, 2, 3), vs[2]) && !Checks(Patches, Version(1, 2, 3), vs[3]);
  }

  /** The minor scenario's versions, with any revision strings. */
  lemma MinorRowsChecked(revs: seq<string>)
    requires |revs| == 4
    ensures CheckedRevs(Minors, Version(1, 2, 3), revs,
                        [Version(1, 2, 1), Version(1, 1, 9), Version(1, 0, 0), Version(2, 0, 0)])
         == [revs[1], revs[2]]
  {
    var vs := [Version(1, 2, 1), Version(1, 1, 9), Version(1, 0, 0), Version(2, 0, 0)];
    CheckedFour(Minors, Version(1, 2, 3), revs, vs);
    assert !Checks(Minors, Version(1, 2, 3), vs[0]) && !Checks(Minors, Version(1, 2, 3), vs[3]);
    assert Checks(Minors, Version(1, 2, 3), vs[1]) && Checks(Minors, Version(1, 2, 3), vs[2]);
  }

  /** Selection over four rows, one row at a time. */
  lemma CheckedFour(mode: Bulk, latest: Version, revs: seq<string>, vs: seq<Version>)
    requires |revs| == 4 && |vs| == 4
    ensures CheckedRevs(mode, latest, revs, vs)
         == (if Checks(mode, latest, vs[0]) then [revs[0]] else [])
          + ((if Checks(mode, latest, vs[1]) then [revs[1]] else [])
          + ((if Checks(mode, latest, vs[2]) then [revs[2]] else [])
          + (if Checks(mode, latest, vs[3]) then [revs[3]] else [])))
  {
    var c3 := if Checks(mode, latest, vs[3]) then [revs[3]] else [];
    var c2 := if Checks(mode, latest, vs[2]) then [revs[2]] else [];
    var c1 := if Checks(mode, latest, vs[1]) then [revs[1]] else [];
    var c0 := if Checks(mode, latest, vs[0]) then [revs[0]] else [];
    assert revs[3..][1..] == [] && vs[3..][1..] == [];
    assert CheckedRevs(mode, latest, revs[3..], vs[3..]) == c3;
    assert revs[2..][1..] == revs[3..] && vs[2..][1..] == vs[3..];
    assert CheckedRevs(mode, latest, revs[2..], vs[2..]) == c2 + c3;
    assert revs[1..][1..] == revs[2..] && vs[1..][1..] == vs[2..];
    assert CheckedRevs(mode, latest, revs[1..], vs[1..]) == c1 + (c2 + c3);
    assert CheckedRevs(mode, latest, revs, vs) == c0 + (c1 + (c2 + c3));
  }

  // The literal tokens of the selection tests are rows built by `HistoryRow`;
  // each is checked on its own, since evaluating several at once is costly.

  lemma Token121()
    ensures HistoryRow(1, 2, 1, "20240101", "").rev == "rev1.2.1_20240101"
  {
  }

  lemma Token122()
    ensures HistoryRow(1, 2, 2, "20240102", "").rev == "rev1.2.2_20240102"
  {
  }

  lemma Token119()
    ensures HistoryRow(1, 1, 9, "20231231", "").rev == "rev1.1.9_20231231"
  {
  }

  lemma Token100()
    ensures HistoryRow(1, 0, 0, "20231010", "").rev == "rev1.0.0_20231010"
  {
  }

  lemma Token200()
    ensures HistoryRow(2, 0, 0, "20240201", "").rev == "rev2.0.0_20240201"
  {
  }

  lemma Token123()
    ensures HistoryRow(1, 2, 3, "20240210", "").rev == "rev1.2.3_20240210"
  {
  }

  /** The patch scenario over rows built from the tests' versions and any
      dates: with the tests' dates (see the `Token` lemmas) these are the
      tokens `rev1.2.1_20240101`, `rev1.2.2_20240102`, `rev1.1.9_20231231`,
      `rev2.0.0_20240201` against `rev1.2.3_20240210`. */
  lemma SelectPatchVersionsOfRows(d0: string, d1: string, d2: string, d3: string, dl: string,
                                  f0: string, f1: string, f2: string, f3: string)
    requires IsDate(d0) && IsDate(d1) && IsDate(d2) && IsDate(d3) && IsDate(dl)
    ensures var items := [HistoryRow(1, 2, 1, d0, f0), HistoryRow(1, 2, 2, d1, f1),
                          HistoryRow(1, 1, 9, d2, f2), HistoryRow(2, 0, 0, d3, f3)];
      && WellFormedHistory(items) && ParseRev(HistoryRow(1, 2, 3, dl, "").rev).Some?
      && SelectVersions(Patches, items, HistoryRow(1, 2, 3, dl, "").rev) == [items[0].rev, items[1].rev]
  {
    var items := [HistoryRow(1, 2, 1, d0, f0), HistoryRow(1, 2, 2, d1, f1),
                  HistoryRow(1, 1, 9, d2, f2), HistoryRow(2, 0, 0, d3, f3)];
    RowsParse(items, [Version(1, 2, 1), Version(1, 2, 2), Version(1, 1, 9), Version(2, 0, 0)], [d0, d1, d2, d3], [f0, f1, f2, f3]);
    RowParses(1, 2, 3, dl, "");
    SelectPatchVersionsExample(items, HistoryRow(1, 2, 3, dl, "").rev);
  }

  /** The minor scenario over rows built from the tests' versions and any
      dates: with the tests' dates these are `rev1.2.1_20240101`,
      `rev1.1.9_20231231`, `rev1.0.0_20231010`, `rev2.0.0_20240201`. */
  lemma SelectMinorVersionsOfRows(d0: string, d1: string, d2: string, d3: string, dl: string,
                                  f0: string, f1: string, f2: string, f3: string)
    requires IsDate(d0) && IsDate(d1) && IsDate(d2) && IsDate(d3) && IsDate(dl)
    ensures var items := [HistoryRow(1, 2, 1, d0, f0), HistoryRow(1, 1, 9, d1, f1),
                          HistoryRow(1, 0, 0, d2, f2), HistoryRow(2, 0, 0, d3, f3)];
      && WellFormedHistory(items) && ParseRev(HistoryRow(1, 2, 3, dl, "").rev).Some?
      && SelectVersions(Minors, items, HistoryRow(1, 2, 3, dl, "").rev) == [items[1].rev, items[2].rev]
  {
    var items := [HistoryRow(1, 2, 1, d0, f0), HistoryRow(1, 1, 9, d1, f1),
                  HistoryRow(1, 0, 0, d2, f2), HistoryRow(2, 0, 0, d3, f3)];
    RowsParse(items, [Version(1, 2, 1), Version(1, 1, 9), Version(1, 0, 0), Version(2, 0, 0)], [d0, d1, d2, d3], [f0, f1, f2, f3]);
    RowParses(1, 2, 3, dl, "");
    SelectMinorVersionsExample(items, HistoryRow(1, 2, 3, dl, "").rev);
  }

  /** Rows built from versions and dates are well formed and carry those
      versions. */
  lemma RowsParse(items: seq<HistoryItem>, vs: seq<Version>, dates: seq<string>, files: seq<string>)
    requires |items| == |vs| == |dates| == |files|
    requires forall i :: 0 <= i < |items| ==> IsDate(dates[i])
    requires forall i :: 0 <= i < |items| ==>
      items[i] == HistoryRow(vs[i].major, vs[i].minor, vs[i].patch, dates[i], files[i])
    ensures WellFormedHistory(items) && RowVersions(items) == vs
  {
    forall i | 0 <= i < |items|
      ensures ParseRev(items[i].rev).Some? && ParseRev(items[i].rev).value.version == vs[i]
    {
      RowParses(vs[i].major, vs[i].minor, vs[i].patch, dates[i], files[i]);
    }
  }
}
