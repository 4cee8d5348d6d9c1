# Libra version handling, history selection and folder scan in Dafny

Libra is a desktop tool that tracks revisions of the documents in a folder.
This project models the pure logic at its core and proves properties of it:

- **Build versioning** (`scripts/build_pyinstaller.py`).
  - The build id is the `git describe` output, or `<YYYYMMDD>+<short sha>` (`nogit` when there is no commit id).
  - The product version is the first `__version__ = "..."` line of `src/libra/__init__.py`, else `0.0.0`.
  - The runtime version merges the product version with the build id.
  - `sanitize_for_filename` turns each run of characters outside `[A-Za-z0-9._-]` into one `-`.
  - The packaged directory is named `Libra-<sanitized product version>`.
  - The PyInstaller command line is built, or the build fails when PyInstaller lacks `--contents-directory`.
- **Application version** (`src/libra/core/version.py`). The app reports the stripped text of the first `VERSION.txt` candidate that has any, else the package `__version__`.
- **History bulk selection**. The history-clearing dialog offers two bulk selections:
  - every older patch of the latest minor line;
  - every older minor line of the latest major version.

  Rows carry revision tokens `rev<major>.<minor>.<patch>_<date>`. The model includes a parser and a formatter for these tokens.
- **Folder scan**. The document metadata of a folder is reconciled against the folder listing:
  - records without a current file are dropped, and dropping one requests a save;
  - every other record is kept and shown, flagged missing when its file is not listed.

Processes, the clock and the filesystem do not appear in the model. Their results are parameters:

- the git outputs;
- today's date;
- the lines of `__init__.py`, or `None` when reading failed;
- the contents of each `VERSION.txt` candidate, or `None`;
- whether PyInstaller supports `--contents-directory`;
- the folder listing.

Files:

| file | module | contents |
|---|---|---|
| `wrappers.dfy` | `Wrappers` | `Option` and `Result` |
| `text.dfy` | `Text` | Python's whitespace class, `str.strip()`, `str.lstrip(c)`, decimal digits |
| `file_names.dfy` | `FileNames` | `sanitize_for_filename` |
| `search.dfy` | `Search` | first-match selection over a sequence |
| `build_version.dfy` | `BuildVersion` | the build script's version, naming and command logic |
| `app_version.dfy` | `AppVersion` | `_read_version_file` and `resolve_app_version` |
| `revisions.dfy` | `Revisions` | the selection predicates, revision tokens, bulk selection |
| `folder_scan.dfy` | `FolderScan` | `scan_folder` |

Details of `VERSION_RE` and `resolve_product_version` that the model keeps:

- `VERSION_RE` is anchored only at the start of the stripped line. Anything may follow the closing quote.
- The opening and closing quotes of `VERSION_RE` may be different characters.
- `resolve_product_version` also falls back to `0.0.0` when the file reads but no line matches.

## Model

| member | source | states |
|---|---|---|
| Text.Strip | src/libra/core/version.py:13 | `str.strip()` leaves no whitespace at either end of its result |
| Text.StripPadded | src/libra/core/version.py:13 | stripping any whitespace padding off an already stripped text gives that text back |
| Text.StripSound | src/libra/core/version.py:13 | conversely, the input is always the result padded with whitespace on both sides, so only end whitespace is removed |
| Text.StripEmpty | src/libra/core/version.py:13-14 | the stripped text is empty exactly when the input is all whitespace |
| Text.StripIdempotent | scripts/build_pyinstaller.py:49 | stripping twice is stripping once |
| Text.LStripChar | scripts/build_pyinstaller.py:62 | `lstrip("v")` removes only `v`s, the result is a suffix of the input, and the result does not start with `v` |
| Text.LStripCharAfterRun | scripts/build_pyinstaller.py:62 | `lstrip("v")` of a run of `v`s followed by text not starting with `v` gives exactly that text |
| Text.NatToDecimal | tests/test_history_clear_dialog.py:46-51 | a version number is written as canonical decimal digits (no superfluous leading zero) that read back as the number |
| Text.CanonicalDecimalRoundTrip | tests/test_history_clear_dialog.py:46-51 | canonical digits are the rendering of their own value, so writing and reading numbers are inverse |
| FileNames.Sanitize | scripts/build_pyinstaller.py:57-58 | the result contains only `[A-Za-z0-9._-]`, is no longer than the input, and equals the input when the input is already safe |
| FileNames.SanitizeIdempotent | scripts/build_pyinstaller.py:57-58 | sanitizing twice is sanitizing once |
| FileNames.SanitizeSafePrefix | scripts/build_pyinstaller.py:58 | allowed characters are copied through unchanged |
| FileNames.SanitizeRun | scripts/build_pyinstaller.py:58 | a maximal run of disallowed characters becomes exactly one `-` |
| FileNames.Pieces | scripts/build_pyinstaller.py:58 | every string splits into allowed characters and maximal disallowed runs, no two runs adjacent |
| FileNames.SanitizeRendersPieces | scripts/build_pyinstaller.py:58 | sanitizing is rendering that split: each allowed character is kept and each maximal run becomes one `-` |
| FileNames.SanitizeLength | scripts/build_pyinstaller.py:58 | the output has one character per piece of the split |
| Search.FirstSome | scripts/build_pyinstaller.py:48-51 | first-match loop: no value exactly when no element yields one, otherwise the value yielded at the first hit |
| Search.FirstSomeAfterMisses | src/libra/core/version.py:20-23 | misses before a hit are skipped and elements after the hit are never consulted |
| BuildVersion.ResolveBuildVersion | scripts/build_pyinstaller.py:35-42 | a non-empty describe output is returned verbatim; otherwise `<today>+<sha>`, with `nogit` when the sha is empty; never empty |
| BuildVersion.FallbackBuildVersionSplits | scripts/build_pyinstaller.py:40-42 | the fallback id splits back at its first `+` into the date and the sha (or `nogit`) |
| BuildVersion.DescribeOutputPreferred | tests/test_build_pyinstaller.py:14-16 | `v1.2.3-4-gabc123-dirty` from describe is the build id |
| BuildVersion.MatchVersionLine | scripts/build_pyinstaller.py:19 | a captured version is non-empty and contains no quote character |
| BuildVersion.MatchAssignment | scripts/build_pyinstaller.py:19 | the `\s*=\s*` stage captures only non-empty quote-free text |
| BuildVersion.MatchQuoted | scripts/build_pyinstaller.py:19 | the quoted stage captures only non-empty quote-free text |
| BuildVersion.MatchValue | scripts/build_pyinstaller.py:19 | the group `[^'"]+` followed by a quote captures only non-empty quote-free text |
| BuildVersion.MatchValueComplete | scripts/build_pyinstaller.py:19 | a quote-free value followed by a quote is captured in full |
| BuildVersion.MatchAssignmentComplete | scripts/build_pyinstaller.py:19 | any spaces, `=`, spaces, quote, value, quote, rest is matched with that value |
| BuildVersion.MatchVersionLineComplete | scripts/build_pyinstaller.py:19 | every line of the pattern's shape matches and captures its version |
| BuildVersion.MatchValueSound | scripts/build_pyinstaller.py:19 | a captured value is followed by a quote in the input |
| BuildVersion.MatchQuotedSound | scripts/build_pyinstaller.py:19 | a quoted match is quote, value, quote, rest |
| BuildVersion.MatchAssignmentSound | scripts/build_pyinstaller.py:19 | a match after `__version__` is spaces, `=`, spaces, quote, value, quote, rest |
| BuildVersion.SplitLeadingSpace | scripts/build_pyinstaller.py:19 | the `\s*` stage consumes exactly a leading whitespace run |
| BuildVersion.MatchVersionLineSound | scripts/build_pyinstaller.py:19 | every matching line has the pattern's shape around the captured version |
| BuildVersion.LineVersion | scripts/build_pyinstaller.py:48-49 | the version of a line is matched on its stripped text and is non-empty and quote-free |
| BuildVersion.ResolveProductVersion | scripts/build_pyinstaller.py:45-54 | the value of the first matching line; `0.0.0` when reading fails or no line matches; always non-empty and quote-free |
| BuildVersion.FirstDeclarationWins | scripts/build_pyinstaller.py:48-51 | lines before the first declaration are skipped and later lines never matter |
| BuildVersion.SpacedDeclarationYieldsVersion | scripts/build_pyinstaller.py:49 | a declaration with surrounding whitespace and spaces around `=` yields its version |
| BuildVersion.ComposeRuntimeVersion | scripts/build_pyinstaller.py:61-65 | the result starts with the product version; it is the `v`-stripped build id when that starts with the product version, else product version, `+`, sanitized unstripped id |
| BuildVersion.ComposeRuntimeVersionSuffix | scripts/build_pyinstaller.py:61-65 | after the product version comes either a suffix of the build id or `+` and file-name-safe text |
| BuildVersion.ComposeRuntimeVersionStable | scripts/build_pyinstaller.py:61-65 | composing again with the runtime version as the build id changes nothing when the product version does not start with `v` |
| BuildVersion.ComposeTaggedBuild | scripts/build_pyinstaller.py:62-64 | a tag build id `v…v<product version><suffix>` becomes `<product version><suffix>` |
| BuildVersion.ComposeDatedBuild | scripts/build_pyinstaller.py:65 | a fallback id `<date>+<sha>` becomes `<product version>+<date>-<sha>` |
| BuildVersion.VersionFileText | scripts/build_pyinstaller.py:68-71 | `VERSION.txt` holds the version followed by one newline |
| BuildVersion.PackageDirName | scripts/build_pyinstaller.py:74-77 | the directory name is `Libra-` followed by the product version rendered piece by piece (each allowed character kept, each maximal disallowed run as one `-`), so it is `Libra-` plus the version itself when that is already safe; the name is file-name safe and unchanged by sanitizing |
| BuildVersion.PrepareArchiveTree | scripts/build_pyinstaller.py:74-78 | `_package` sits beside the build output; the package directory is inside it; the bundled copy keeps the output's name |
| BuildVersion.PackageDirNameOfTaggedVersion | tests/test_build_pyinstaller.py:19-27 | for `<tag>+<meta>` with safe parts (as `v1.0.0+abc`) the package directory is `Libra-<tag>-<meta>` |
| BuildVersion.TaggedPackageDirName | scripts/build_pyinstaller.py:75-77 | a version `<tag>+<meta>` with safe parts names the directory `Libra-<tag>-<meta>` |
| FileNames.SanitizeOneRun | scripts/build_pyinstaller.py:58 | safe text, one disallowed run, safe text sanitizes to the two texts joined by one `-` |
| BuildVersion.BuildPyInstallerCommand | scripts/build_pyinstaller.py:114-142 | fails with `PyInstaller --contents-directory is required` exactly when unsupported; otherwise 15 arguments with the fixed head, `--contents-directory _internal`, `--name Libra`, `--paths`, `--add-data`, and the entry last |
| AppVersion.ReadVersionFile | src/libra/core/version.py:9-16 | missing or unreadable gives no value; a value is non-empty and stripped; no value exactly when the text is all whitespace |
| AppVersion.ReadVersionFilePadded | src/libra/core/version.py:13-14 | a version surrounded by whitespace reads back as the bare version |
| AppVersion.ResolveAppVersion | src/libra/core/version.py:19-24 | the first candidate with a value wins; with none, the package version; a file value is non-empty and stripped |
| AppVersion.NoCandidatesFallsBack | tests/test_version_resolution.py:18-22 | no candidates gives the package version |
| AppVersion.SkipsBlankCandidates | src/libra/core/version.py:20-23 | missing, unreadable and blank candidates are skipped and the first with text decides |
| AppVersion.VersionFileRoundTrip | scripts/build_pyinstaller.py:70 | the app reads back exactly the version the build wrote, if and only if that version is non-empty and stripped |
| AppVersion.StampedVersionReported | tests/test_version_resolution.py:8-15 | a stamped file like `20260210+abc123\n` first in line reports `20260210+abc123` |
| Revisions.PatchSelectsOlderInMinorLine | tests/test_history_clear_dialog.py:31-36 | patch selection holds exactly for strictly older versions of the same major and minor |
| Revisions.MinorSelectsOlderLinesInMajor | tests/test_history_clear_dialog.py:38-42 | minor selection holds exactly for strictly older versions of the same major on another minor line |
| Revisions.SelectionsPartitionOlderSameMajor | tests/test_history_clear_dialog.py:31-42 | the two selections are disjoint and together cover every older version of the same major |
| Revisions.NeverLatestNorOtherMajor | tests/test_history_clear_dialog.py:31-42 | the latest version and other majors are never selected |
| Revisions.PredicateExamples | tests/test_history_clear_dialog.py:31-42 | the seven asserted predicate cases |
| Revisions.ParseRev | tests/test_history_clear_dialog.py:44-51 | an accepted token's date is a non-empty digit run |
| Revisions.ParseFormatRev | tests/test_history_clear_dialog.py:44-51 | parsing a formatted token gives back its version and date |
| Revisions.ParseRevSound | tests/test_history_clear_dialog.py:44-51 | an accepted token is `rev`, three digit runs joined by `.`, `.`, `_`, and the date; without leading zeros it is the formatting of its parse |
| Revisions.RowParses | tests/test_history_clear_dialog.py:20-21 | a row built from a version and a date carries a token that parses to them |
| Revisions.RowsParse | tests/test_history_clear_dialog.py:20-21 | rows built from versions and dates are all well formed and carry exactly those versions |
| Revisions.CheckedRevs | tests/test_history_clear_dialog.py:54-59 | the checked revisions are exactly those of rows whose versions the mode selects |
| Revisions.SelectVersions | tests/test_history_clear_dialog.py:44-80 | `select_patch_versions` / `select_minor_versions` check exactly the rows whose parsed version the predicate selects against the latest |
| Revisions.CheckedAreOlder | tests/test_history_clear_dialog.py:31-42 | every checked revision is strictly older than the latest and of the same major |
| Revisions.PatchAndMinorDisjoint | tests/test_history_clear_dialog.py:31-42 | no revision is checked by both buttons |
| Revisions.SelectPatchVersionsExample | tests/test_history_clear_dialog.py:44-61 | against 1.2.3, rows 1.2.1, 1.2.2, 1.1.9, 2.0.0 check exactly 1.2.1 and 1.2.2 |
| Revisions.SelectMinorVersionsExample | tests/test_history_clear_dialog.py:63-80 | against 1.2.3, rows 1.2.1, 1.1.9, 1.0.0, 2.0.0 check exactly 1.1.9 and 1.0.0 |
| Revisions.SelectPatchVersionsOfRows | tests/test_history_clear_dialog.py:44-61 | rows `rev1.2.1_…`, `rev1.2.2_…`, `rev1.1.9_…`, `rev2.0.0_…` with any dates, against `rev1.2.3_…`, check exactly the first two |
| Revisions.SelectMinorVersionsOfRows | tests/test_history_clear_dialog.py:63-80 | rows `rev1.2.1_…`, `rev1.1.9_…`, `rev1.0.0_…`, `rev2.0.0_…` with any dates, against `rev1.2.3_…`, check exactly the second and third |
| Revisions.Token121 | tests/test_history_clear_dialog.py:46 | the row for 1.2.1 dated `20240101` carries the token `rev1.2.1_20240101` |
| Revisions.Token122 | tests/test_history_clear_dialog.py:47 | the row for 1.2.2 dated `20240102` carries `rev1.2.2_20240102` |
| Revisions.Token119 | tests/test_history_clear_dialog.py:48 | the row for 1.1.9 dated `20231231` carries `rev1.1.9_20231231` |
| Revisions.Token200 | tests/test_history_clear_dialog.py:49 | the row for 2.0.0 dated `20240201` carries `rev2.0.0_20240201` |
| Revisions.Token100 | tests/test_history_clear_dialog.py:67 | the row for 1.0.0 dated `20231010` carries `rev1.0.0_20231010` |
| Revisions.Token123 | tests/test_history_clear_dialog.py:51 | the row for 1.2.3 dated `20240210` carries the latest token `rev1.2.3_20240210` |
| FolderScan.Prune | tests/test_missing_file_highlight.py:46-75 | keeps exactly the records with a current file; nothing is shorter unless such a record was dropped |
| FolderScan.RowsFor | tests/test_missing_file_highlight.py:39-41 | one row per record, naming its current file, missing exactly when the listing lacks it |
| FolderScan.ScanFolder | tests/test_missing_file_highlight.py:11-75 | kept records are exactly the active ones, unchanged; rows name their current file and are missing exactly when unlisted; a save is requested exactly when a record was dropped |
| FolderScan.Lookup | tests/test_missing_file_highlight.py:38 | the mapping has a record under a name exactly when some entry carries that name |
| FolderScan.PruneUnique | tests/test_missing_file_highlight.py:38 | the scanned mapping still has at most one record per name, like the dict it models |
| FolderScan.PruneRestricts | tests/test_missing_file_highlight.py:38 | with unique names, looking a name up in the scanned mapping gives the original record if it has a current file, and nothing otherwise |
| FolderScan.ScanIdempotent | tests/test_missing_file_highlight.py:42-43 | rescanning a scan's result against the same listing changes nothing and requests no save |
| FolderScan.MissingFileStaysTracked | tests/test_missing_file_highlight.py:11-43 | the missing-file scenario keeps the document, yields one missing row, and requests no save |
| FolderScan.EmptyCurrentFileDropped | tests/test_missing_file_highlight.py:46-75 | the empty-current-file scenario drops the document, yields no rows, and requests a save |

## Left out

- `run_git` and `supports_contents_directory_option` run processes. Their outputs are parameters of `ResolveBuildVersion` and `BuildPyInstallerCommand`.
- `main` is left out: its `subprocess.call`, its printing and its exit codes are process control.
- The two `print` calls on the error path of `build_pyinstaller_command` are console output. Only the raised error and its message are modelled, as the `Failure` of `BuildPyInstallerCommand`.
- `dt.datetime.now()` is the wall clock. The `YYYYMMDD` date is a parameter.
- `write_version_file` performs file I/O. Only the written text is modelled, as `VersionFileText`.
- `prepare_archive_tree`'s `rmtree`, `mkdir` and `copytree`, and `create_archive` / `make_archive`, are filesystem effects. Only the path names are modelled.
- File reading in `resolve_product_version` and `_read_version_file` is I/O. The model takes the lines (after `splitlines`) or the text, and `None` for `OSError`. A decoding error, which is not an `OSError` and would propagate, is not modelled.
- Paths are sequences of components. `srcDir` and `entry` arrive as the strings `str(path)` would give.
- `src/libra/core/paths.py`, which supplies `version_file_candidates()`, reads the environment and the platform. The candidate list is a parameter of `ResolveAppVersion`.
- `libra/main.py` (the predicates and `HistoryClearDialog`) and `libra/app.py` (`scan_folder`) are not part of this model. Their general rules here are modelling choices that agree with every assert of the tests. These parts go beyond what the tests fix:
  - `ShouldSelectPatch` and `ShouldSelectMinor` are defined on every triple, and the tests pin seven.
  - In `ScanFolder`, a listed file gives `missing == false`.
  - In `ScanFolder`, a save is requested exactly when some record is dropped, in any mapping.
  - `ScanFolder` keeps rows in the mapping's insertion order.
  - `ScanIdempotent` proves that rescanning changes nothing.
- The dialog's Qt table, its check boxes, `MainWindow` and the missing-folder styling are user interface.
- `load_meta`, `save_meta` and `safe_list_files` are persistence and listing I/O. The metadata and the listing are parameters, and the save is the returned `saveNeeded` flag.
- Revisions.SelectVersions: requires every token to be well formed, because the source's handling of malformed tokens is not shown.
- Revisions.SelectVersions: assumes the dialog starts with nothing checked. It returns the checked revisions in row order; the tests compare them sorted.
- Revisions.ParseRev: accepts any non-empty digit run as the date, because the tests show only eight-digit dates.
- Revisions.SelectPatchVersionsExample: is stated for any rows whose tokens parse to the tests' versions. `SelectPatchVersionsOfRows` instantiates it with rows built by `HistoryRow`, and the `Token` lemmas show that those rows carry the tests' literal tokens for the tests' dates. Running the parser on the literal strings themselves is too costly for the verifier.
- Revisions.SelectMinorVersionsExample: is stated the same way as the patch example, and `SelectMinorVersionsOfRows` instantiates it.
- FolderScan.ScanFolder: files in the listing that no record tracks are ignored, because the tests fix nothing about them.
- FolderScan.ScanFolder: fields beyond `filename` and `missing` in a display row are not modelled.
- FolderScan.ScanFolder: the order of rows follows the mapping's insertion order; the tests fix only single-row results.
- `Libra.py` and `src/pyinstaller_entry.py` are entry-point shims.
