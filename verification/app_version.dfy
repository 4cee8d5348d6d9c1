/** How the running application works out its version: the first
    `VERSION.txt` candidate with non-blank contents, else the package's
    `__version__`. Which paths are candidates, and reading them, are left to
    the caller: each candidate arrives as its text or `None`. */
module AppVersion {
  import opened Wrappers
  import opened Text
  import opened Search
  import BuildVersion

  /** `_read_version_file`. `contents` is the file's text, or `None` when the
      file does not exist or reading it raised `OSError`. */
  function ReadVersionFile(contents: Option<string>): (r: Option<string>)
    ensures r.Some? ==> r.value != [] && IsStripped(r.value)
    ensures contents.None? ==> r.None?
    ensures contents.Some? ==> (r.None? <==> All(contents.value, Whitespace))
  {
    match contents
    case None => None
    case Some(text) =>
      var value := Strip(text);
      StripEmpty(text);
      if value == [] then None else Some(value)
  }

  /** A version surrounded by whitespace reads back as the bare version. */
  lemma ReadVersionFilePadded(front: string, version: string, back: string)
    requires All(front, Whitespace) && All(back, Whitespace)
    requires version != [] && IsStripped(version)
    ensures ReadVersionFile(Some(front + version + back)) == Some(version)
  {
    StripPadded(front, version, back);
  }

  /** `resolve_app_version`. */
  function ResolveAppVersion(candidates: seq<Option<string>>, packageVersion: string): (r: string)
    ensures (forall i :: 0 <= i < |candidates| ==> ReadVersionFile(candidates[i]).None?) ==> r == packageVersion
    ensures forall i :: IsFirstHit(candidates, ReadVersionFile, i) ==> r == ReadVersionFile(candidates[i]).value
    ensures r == packageVersion || (r != [] && IsStripped(r))
  {
    FirstSome(candidates, ReadVersionFile).GetOr(packageVersion)
  }

  /** With no candidates at all the package version is reported. */
  lemma NoCandidatesFallsBack(packageVersion: string)
    ensures ResolveAppVersion([], packageVersion) == packageVersion
  {
  }

  /** Missing, unreadable and blank candidates are skipped; the first
      candidate with text is used, and later ones are never consulted. */
  lemma SkipsBlankCandidates(skipped: seq<Option<string>>, text: string, later: seq<Option<string>>, packageVersion: string)
    requires forall i :: 0 <= i < |skipped| ==> skipped[i].None? || All(skipped[i].value, Whitespace)
    requires !All(text, Whitespace)
    ensures ResolveAppVersion(skipped + ([Some(text)] + later), packageVersion) == Strip(text)
  {
    FirstSomeAfterMisses(skipped, Some(text), later, ReadVersionFile);
  }

  /** What the build writes to `VERSION.txt` reads back as the same version
      exactly when that version is non-empty and has no surrounding whitespace. */
  lemma VersionFileRoundTrip(version: string)
    ensures ReadVersionFile(Some(BuildVersion.VersionFileText(version))) == Some(version)
        <==> version != [] && IsStripped(version)
  {
    var text := BuildVersion.VersionFileText(version);
    assert All("\n", Whitespace);
    if version != [] && IsStripped(version) {
      assert text == [] + version + "\n";
      ReadVersionFilePadded([], version, "\n");
    }
  }

  /** A frozen build whose first candidate holds the stamped runtime version
      reports that version, as with `20260210+abc123`. */
  lemma StampedVersionReported(version: string, later: seq<Option<string>>, packageVersion: string)
    requires version != [] && IsStripped(version)
    ensures ResolveAppVersion([Some(BuildVersion.VersionFileText(version))] + later, packageVersion) == version
  {
    VersionFileRoundTrip(version);
    var cs := [Some(BuildVersion.VersionFileText(version))] + later;
    assert [] + cs == cs;
    FirstSomeAfterMisses([], Some(BuildVersion.VersionFileText(version)), later, ReadVersionFile);
  }
}
