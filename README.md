# RFTX TUNING release scripts in Dafny

This project models the release tooling of the RFTX TUNING application. It
has two scripts.

- `bump_version.py` handles version management. It parses and formats
  `major.minor.patch` versions and applies the major/minor/patch bump rule.
  It rewrites the version in the three registry files (`pyproject.toml`,
  `build.py`, `rftx_gui.py`), each by its own substitution rule, and counts
  the files that changed. For a keyword bump it adds an entry to
  `CHANGELOG.md`. Its `main` decides between a keyword and an explicit
  version and asks for confirmation.
- `build.py` handles building and packaging. It builds the PyInstaller
  argument list and picks the per-platform executable name, archive name and
  archive format. It cleans `build/` and `dist/`, stages and archives the
  executable in `releases/`, writes the `checksums.txt` manifest, and runs
  its `main` stages in order: clean, compile, package, checksum.

Each module follows the program's structure:

| file | module | models |
|---|---|---|
| text.dfy | `Results`, `Text` | `Option`/`Result`; the `str` and `re` notions the scripts use: `\d`, `\s`, `lower`, `capitalize`, `strip`, `split('\n')`, `'\n'.join`, `in` |
| versions.dfy | `Versions` | `parse_version`, `format_version`, `bump_version` |
| rewrite.dfy | `Rewrite` | the three rewrite rules of `update_file`, each a hand-written scanner, and `re.sub` over a scanner |
| version_store.dfy | `VersionStore` | the class `Project` (files as a path-to-content map, plus the log of writes), with `update_file`, `update_all_files` and `get_current_version` |
| changelog.dfy | `Changelog` | `create_changelog_entry`: the entry, the header scan loop and the line insertion |
| bump_cli.dfy | `BumpCli` | `main` of `bump_version.py` |
| build_config.dfy | `BuildConfig` | the configuration constants, `get_platform_specific_args`, and the naming branches of `package_release` |
| manifest.dfy | `Manifest` | the layout of `checksums.txt` and the writing loop of `create_checksums` |
| release.dfy | `Release` | the class `Workspace` (the directory as a path set, plus archive members and written texts), with `clean_build_dirs`, `package_release`, `create_checksums` and `main` of `build.py` |

Imperative code is modelled with methods that are proved against
specification functions:

- `Project.UpdateFile` and `Project.UpdateAllFiles` against `Store`, `Propagate` and `Writes`;
- `Changelog.HeaderEnd` against `InsertionIndex`;
- `CreateChangelogEntry` against `ChangelogAfter`;
- `BumpCli.Run` against `Bumped`;
- `Manifest.WriteManifest` against `ManifestText`;
- the `Workspace` methods against `Cleaned`, `Packaged`, `Members`, `ChecksumText` and `BuildRun`.

The lemmas state the properties of those functions.

Four behaviours of the code that a reader may not expect are kept as written:

- An unrecognised platform is not rejected. It packages exactly as Linux does (`build.py:209-212`, `249-256`) and gets no platform-specific PyInstaller options.
- An option whose file is missing is not omitted. Only its `None` value is dropped, so the flag (`--icon`) stays in the list (`build.py:65-80`).
- If a changelog has no `## [` line, the entry goes at index 0, before any preamble (`bump_version.py:131-140`).
- A declined confirmation exits with status 0 (`bump_version.py:209-211`).

The comment at `bump_version.py:129` says the entry goes after the first header. The code at line 138 inserts it at that header's index, so it goes before the header. The model follows the code, and `Changelog.NewestFirst` proves that the new entry's header becomes the first `## [` line.

## Model

| member | source | states |
|---|---|---|
| Text.NatToString | bump_version.py:26-28 | `str(int)`: a non-empty digit string, without a leading zero unless the number is 0 |
| Text.ValueOfNatToString | bump_version.py:24-28 | `int(str(n)) == n` |
| Text.NatToStringOfValue | bump_version.py:24-28 | a numeral without superfluous leading zeros is what `str(int(s))` writes back |
| Text.DigitRun | bump_version.py:21 | the greedy `\d*`: where it stops, the next character is not a digit |
| Text.DigitRunDigits | bump_version.py:21 | every character of the greedy `\d*` run is a digit |
| Text.SpaceRun | bump_version.py:73 | the greedy `\s*`: where it stops, the next character is not whitespace |
| Text.SpaceRunSpaces | bump_version.py:73 | every character of the greedy `\s*` run is whitespace |
| Text.NonQuoteRun | bump_version.py:73 | the greedy `[^"]*`: the run holds no `"`, and it stops only at a `"` or at the end |
| Text.Lower | bump_version.py:185 | `str.lower` keeps the length and lowers each character |
| Text.Strip | bump_version.py:208 | `strip()` removes only whitespace: the input is the result with whitespace before and after it, and the result neither starts nor ends with whitespace |
| Text.StripUnique | bump_version.py:208 | the strip is the only part of the input that has just whitespace around it and neither starts nor ends with whitespace |
| Text.Split | bump_version.py:130 | `split('\n')` gives at least one piece, and no piece holds a line feed |
| Text.JoinSplit | bump_version.py:130-142 | `'\n'.join(s.split('\n')) == s` |
| Text.SplitJoin | bump_version.py:130-142 | lines without line feeds survive a join followed by a split |
| Text.SplitAround | bump_version.py:130 | splitting `a + "\n" + b` splits each half |
| Text.ContainsLonger | bump_version.py:71-83 | a path does not contain a longer name |
| Text.ContainsFirstChar | bump_version.py:71-83 | a path does not contain a name whose first character it lacks |
| Text.DistinctCard | bump_version.py:98-107 | a list without repeats has as many elements as its set |
| Versions.VersionBounds | bump_version.py:21 | a found match splits the string as `digits.digits.digits` at the indices returned |
| Versions.ParseVersion | bump_version.py:19-24 | a failure is `ValueError` naming the input |
| Versions.FormatVersion | bump_version.py:26-28 | `f"{major}.{minor}.{patch}"`; ParseFormat, FormatParse and FormatVersionSplits state its properties |
| Versions.VersionBoundsExact | bump_version.py:21 | for a `digits.digits.digits` prefix whose third numeral is maximal, the greedy match ends exactly there |
| Versions.ParseVersionAccepts | bump_version.py:19-24 | every string that starts with `digits.digits.digits` parses to the values of its three numerals, whatever follows |
| Versions.ParseVersionRejects | bump_version.py:19-24 | parsing succeeds iff some prefix is `digits.digits.digits`; every other string raises |
| Versions.ParsePieces | bump_version.py:19-28 | three numerals joined by dots parse to their values |
| Versions.FormatVersionSplits | bump_version.py:26-28 | a formatted version has its three numerals between its two dots |
| Versions.ParseFormat | bump_version.py:19-28 | round trip: `parse_version(format_version(a, b, c)) == (a, b, c)` for all naturals |
| Versions.FormatParse | bump_version.py:19-28 | round trip: a canonical `M.m.p` string survives parsing and then formatting |
| Versions.ParseBumpKind | bump_version.py:47-57 | exactly `major`, `minor` and `patch` are recognised |
| Versions.Next | bump_version.py:47-55 | major gives (M+1, 0, 0), minor gives (M, m+1, 0) and patch gives (M, m, p+1); in every case the result lies strictly above the input in lexicographic order |
| Versions.NextIsLeast | bump_version.py:47-55 | the bump is the least version above the input that changes the bumped component or a higher one |
| Versions.BumpVersion | bump_version.py:43-59 | a malformed version raises first, naming itself; otherwise a bad bump type raises; it succeeds iff both are valid, and the result parses again |
| Versions.FormatSingleDigits | bump_version.py:26-28 | single-digit components format as `a.b.c` |
| Versions.ParseOneTwoThree | bump_version.py:19-24 | `"1.2.3"` parses to (1, 2, 3) |
| Versions.PatchExample | bump_version.py:54-55 | the patch bump of `1.2.3` is `1.2.4` |
| Versions.MinorExample | bump_version.py:51-53 | the minor bump of `1.2.3` is `1.3.0` |
| Versions.MajorExample | bump_version.py:47-50 | the major bump of `1.2.3` is `2.0.0` |
| Versions.PrefixQuirk | bump_version.py:21 | `"1.2.3"` followed by any tail that does not start with a digit parses to (1, 2, 3) |
| Versions.PrefixQuirkExamples | bump_version.py:21 | `"1.2.3abc"` and `"1.2.3.4"` both parse to (1, 2, 3) |
| Rewrite.StrategyFor | bump_version.py:71-89 | the rule is chosen by path substring, tested in the order pyproject.toml, build.py, rftx_gui.py; any other path gets none |
| Rewrite.AssignmentPrefix | bump_version.py:73 | the matched `key\s*=\s*"` is longer than the key and lies inside the text; AssignmentPrefixShape and AssignmentPrefixFinds give its shape and its completeness |
| Rewrite.AssignmentPrefixShape | bump_version.py:73 | what is matched is exactly the key, whitespace, `=`, whitespace and `"` |
| Rewrite.AssignmentPrefixFinds | bump_version.py:73 | wherever the text starts with `key\s*=\s*"`, the scanner matches it, with exactly that length |
| Rewrite.TagMatch | bump_version.py:85 | a tag match starts at the start and is replaced as a whole; TagMatchFinds and TagMatchIff give the converse |
| Rewrite.QuotedMatch | bump_version.py:73-80 | a quoted match replaces a non-empty middle group and keeps exactly one closing character; QuotedMatchFinds and QuotedMatchIff give the converse |
| Rewrite.QuotedHit | bump_version.py:72-82 | a quoted match is the opener, then a non-empty quote-free token, then the closing quote |
| Rewrite.TagHit | bump_version.py:84-88 | a tag match is `v<digits>.<digits>` at the very start |
| Rewrite.QuotedMatchShape | bump_version.py:72-82 | a quoted match is an occurrence of `key\s*=\s*"[^"]+"` at the start, its opener, token and closing quote at the positions returned |
| Rewrite.QuotedMatchFinds | bump_version.py:72-82 | an occurrence of `(key\s*=\s*")([^"]+)(")` at the start of the text is the match found, with its group boundaries |
| Rewrite.QuotedMatchIff | bump_version.py:72-82 | the quoted scanner matches at the start of a text iff the regular expression occurs there |
| Rewrite.TagMatchFinds | bump_version.py:84-88 | a `v<digits>.<digits>` at the start whose last digit run cannot go on is the match found, replaced whole |
| Rewrite.TagMatchIff | bump_version.py:84-88 | the tag scanner matches at the start of a text iff some prefix of it is `v<digits>.<digits>` |
| Rewrite.Pattern | bump_version.py:72-88 | the scanner of each rule, tried at the start of a text; QuotedPattern and TagPattern state what it matches |
| Rewrite.Substitute | bump_version.py:72-88 | `re.sub` over a scanner: the gaps woven with the replacement; Decompose and SubstituteReplacesTokens state its properties |
| Rewrite.Rewritten | bump_version.py:70-88 | the substitution under the rule of a path; QuotedUnchangedIff, EveryTagScanned and EveryAssignmentScanned state what it rewrites |
| Rewrite.Decompose | bump_version.py:72-88 | the text is its gaps woven with the matched tokens; the decomposition loses nothing |
| Rewrite.SubstituteReplacesTokens | bump_version.py:72-88 | `re.sub` replaces every match, left to right and without overlap, and keeps all text outside the matches |
| Rewrite.NoMatchNoChange | bump_version.py:72-88 | a text without a match is left as it is |
| Rewrite.UnchangedWhenCurrent | bump_version.py:72-90 | a text whose every match already equals the replacement is left as it is |
| Rewrite.FirstToken | bump_version.py:36-41 | `re.search`: the scan yields no token iff the pattern matches at no position; otherwise the first token and the first gap come from the leftmost match |
| Rewrite.EveryMatchScanned | bump_version.py:72-88 | `re.sub` leaves no match out: wherever the pattern matches, the scan takes that match or has consumed the position inside an earlier one |
| Rewrite.MatchedIsToken | bump_version.py:72-88 | a match the scan takes is one of the replaced tokens |
| Rewrite.QuotedPattern | bump_version.py:72-82 | every match of the two quoted rules has the shape `(key\s*=\s*")([^"]+)(")` and replaces only the middle group; EveryAssignmentScanned gives the converse |
| Rewrite.QuotedTokens | bump_version.py:73-80 | every token a quoted rule replaces is non-empty and quote-free |
| Rewrite.QuotedOpeners | bump_version.py:73-80 | the text before every replaced token ends with `key\s*=\s*"`, so each match keeps its prefix |
| Rewrite.QuotedClosers | bump_version.py:73-80 | the text after every replaced token starts with the closing quote, which is kept |
| Rewrite.TagPattern | bump_version.py:84-88 | every match of the GUI rule is `v<digits>.<digits>` replaced whole; EveryTagScanned gives the converse |
| Rewrite.TagShape | bump_version.py:84-88 | every token the GUI rule replaces is `v<digits>.<digits>`; a trailing `.N` is outside the token and therefore kept |
| Rewrite.EveryTagScanned | bump_version.py:84-88 | every `v<digits>.<digits>` of a text is taken by the GUI rule's scan or lies inside a match it took |
| Rewrite.EveryAssignmentScanned | bump_version.py:72-82 | every occurrence of `key\s*=\s*"[^"]+"` is taken by a quoted rule's scan or lies inside a match it took |
| Rewrite.QuotedUnchangedIff | bump_version.py:72-90 | for a quoted rule, the text is unchanged iff every token already equals the new version |
| VersionStore.Store | bump_version.py:61-96 | update_file keeps the set of files, changes no other file, and stores the rewritten content of its own file |
| VersionStore.RewriteFor | bump_version.py:70-89 | the content under the rule chosen for the path, unchanged when no rule applies; PyprojectRule, BuildScriptRule and GuiRule pick the rules |
| VersionStore.Changes | bump_version.py:90 | the test `content != original_content`; WritesAreChanged ties the writes to it |
| VersionStore.Propagate | bump_version.py:98-107 | update_file over the registry in order; PropagateKeys, PropagateOutside and PropagateAt state its properties |
| VersionStore.Writes | bump_version.py:98-107 | the files update_all_files writes, in order; WritesBound and WritesAreChanged state its properties |
| VersionStore.Paths | bump_version.py:13-17 | the registry's paths, in order |
| VersionStore.WritesBound | bump_version.py:98-107 | no more writes than registry entries |
| VersionStore.PropagateKeys | bump_version.py:98-107 | updating the registry creates and deletes no file |
| VersionStore.PropagateOutside | bump_version.py:98-107 | a file outside the registry is untouched |
| VersionStore.PropagateAt | bump_version.py:98-107 | with distinct paths, each existing registry file ends up rewritten once by its own rule |
| VersionStore.WritesAreChanged | bump_version.py:98-107 | with distinct paths, the files written are exactly those whose rule changes them, each once, so the count is the number of changed files |
| VersionStore.CurrentVersion | bump_version.py:30-41 | a missing pyproject.toml is `FileNotFoundError`; a scan of `version = "..."` that yields nothing is `ValueError`; CurrentVersionFound and CurrentVersionFirst tie this to the regular expression |
| VersionStore.CurrentVersionShape | bump_version.py:36-41 | the version read is a non-empty quote-free piece right after a `version\s*=\s*"` and right before a quote; CurrentVersionFirst adds that it is the leftmost one |
| VersionStore.PyprojectPatternAt | bump_version.py:37 | the pyproject.toml rule is the quoted scanner for `version`, and matches at a position iff `version\s*=\s*"[^"]+"` occurs there |
| VersionStore.CurrentVersionFound | bump_version.py:36-41 | a version is found iff `version\s*=\s*"[^"]+"` occurs somewhere in pyproject.toml; otherwise `ValueError` |
| VersionStore.CurrentVersionFirst | bump_version.py:36-41 | `re.search` semantics: the version is the group of the leftmost occurrence, and the pattern occurs nowhere before it |
| VersionStore.RegistryPaths | bump_version.py:13-17 | the registry names three different files, in insertion order |
| VersionStore.PyprojectRule | bump_version.py:71-76 | pyproject.toml gets the `version = "..."` rule |
| VersionStore.BuildScriptRule | bump_version.py:77-82 | build.py gets the `VERSION = "..."` rule |
| VersionStore.GuiRule | bump_version.py:83-88 | rftx_gui.py gets the tag rule |
| VersionStore.RegistryCount | bump_version.py:98-107 | update_all_files counts between 0 and 3, namely the number of registry files that changed |
| VersionStore.Project.UpdateFile | bump_version.py:61-96 | a missing file gives False and no write; otherwise it returns True and writes exactly when the rewritten content differs; `pattern` and `old_version` play no part |
| VersionStore.Project.UpdateAllFiles | bump_version.py:98-107 | runs update_file on each entry in registry order; the files, the write log and the count agree with `Propagate` and `Writes` |
| Changelog.InsertionIndex | bump_version.py:130-140 | the index of the first line starting with `## [`, with no header before it, or 0 when there is none |
| Changelog.Insert | bump_version.py:138-140 | `list.insert` adds one element |
| Changelog.InsertExactlyOne | bump_version.py:137-140 | the entry sits at the index, and removing it gives the original lines in their order |
| Changelog.EntryLines | bump_version.py:117-124 | the entry's lines; EntrySplits shows the entry text reads back as them |
| Changelog.EntryText | bump_version.py:117-124 | the f-string entry, its lines joined by line feeds; EntrySplits states its lines |
| Changelog.Prepended | bump_version.py:126-142 | the existing changelog with the entry inserted at the insertion index; PrependedText, PrependedLines and NewestFirst state its properties |
| Changelog.FreshDocument | bump_version.py:143-154 | the new CHANGELOG.md; FreshLayout states how it reads back |
| Changelog.ChangelogAfter | bump_version.py:109-156 | the prepended document when CHANGELOG.md exists, the fresh one otherwise; CreateChangelogEntry writes it |
| Changelog.PrependedText | bump_version.py:126-142 | the new text is the old text before the first header, then the entry, a line feed, and the old text from that header on |
| Changelog.EntrySplits | bump_version.py:117-124 | read back line by line, the entry is a blank line, `## [{version}] - {today}`, a blank line, `### {Kind}`, the two bullets, and two empty lines |
| Changelog.PrependedLines | bump_version.py:130-142 | read back line by line, the new document is the old lines with the entry's lines inserted at the index |
| Changelog.NewestFirst | bump_version.py:117-142 | after the bump, the old lines surround the entry's lines, and the entry's header becomes the first `## [` line |
| Changelog.FreshLayout | bump_version.py:143-154 | a new CHANGELOG.md reads back as the seven preamble lines, the entry's eight lines and an empty rest; its first `## [` line is the entry's header, so the next bump's entry goes above it |
| Changelog.CapitalizedPatch | bump_version.py:120 | `"patch".capitalize() == "Patch"` |
| Changelog.CapitalizedMinor | bump_version.py:120 | `"minor".capitalize() == "Minor"` |
| Changelog.CapitalizedMajor | bump_version.py:120 | `"major".capitalize() == "Major"` |
| Changelog.HeaderEnd | bump_version.py:130-135 | the scan with `break` returns the insertion index: the first header, or 0 |
| Changelog.CreateChangelogEntry | bump_version.py:109-156 | CHANGELOG.md is written once, with the entry prepended or as a fresh document |
| BumpCli.Decide | bump_version.py:185-203 | a keyword bumps the current version, which must parse; any other argument must parse itself and is taken as typed, with kind "manual"; each error names the string that failed |
| BumpCli.PlanOf | bump_version.py:164-203 | the plan (new version and kind) main reaches before the prompt, or none when it exits with status 1 first; Decide and ExitStatus state its cases |
| BumpCli.Confirms | bump_version.py:208-211 | the stripped, lowercased answer is `y`; ConfirmsIff states which answers those are |
| BumpCli.ConfirmsIff | bump_version.py:208-211 | an answer consents iff it is one `y` or `Y` with only whitespace around it |
| BumpCli.ConfirmsAnswers | bump_version.py:208-211 | `" y\n"` and `"Y"` consent |
| BumpCli.RefusesAnswers | bump_version.py:208-211 | `"yes"` and the empty answer do not consent |
| BumpCli.Bumped | bump_version.py:158-230 | the exit status, files and writes of main; ExitStatus, ChangelogOnlyForKeywords, NewVersionOfRun and ChangelogKeepsHistory state its properties |
| BumpCli.ExitStatus | bump_version.py:165-211 | exit status 1 exactly when the argument, the current version or the new version is missing or unusable; then nothing is written; a declined prompt also writes nothing |
| BumpCli.ChangelogNotRegistered | bump_version.py:13-17 | CHANGELOG.md is not a registry file |
| BumpCli.ChangelogOnlyForKeywords | bump_version.py:215-219 | a confirmed run writes the changed registry files first, and writes CHANGELOG.md iff the lowercased argument is a bump keyword |
| BumpCli.NewVersionOfRun | bump_version.py:185-203 | a keyword run records the bump of the current version; a manual run records the lowercased argument, which parses |
| BumpCli.ChangelogOverUpdate | bump_version.py:215-219 | the changelog is written over the updated files, and the update leaves it alone |
| BumpCli.ChangelogKeepsHistory | bump_version.py:215-219 | a keyword run keeps the existing changelog's lines, and the new header becomes the first release header |
| BumpCli.Run | bump_version.py:158-230 | main's exit status, final files and write log are those of `Bumped` |
| BuildConfig.PlatformOf | build.py:21-24 | the platform is Windows, macOS or Linux exactly for the lowercased names `windows`, `darwin` and `linux`; anything else is kept as unknown |
| BuildConfig.DataArgs | build.py:55-58 | the two `--add-data` options with the path separator; ArgsLayout places them |
| BuildConfig.RawPlatformArgs | build.py:60-77 | the platform options with `None` for a missing file; PlatformPart states what survives the filter |
| BuildConfig.PyInstallerArgs | build.py:44-95 | the whole argument list; ArgsLayout, IconFlagAlwaysPresent, MacOptionPairs and UnknownPlatformArgs state its properties |
| BuildConfig.FilterNone | build.py:80 | the filter never lengthens the list |
| BuildConfig.FilterNoneAppend | build.py:80 | the filter commutes with concatenation, so order is preserved |
| BuildConfig.FilterNoneMembers | build.py:80 | a string survives the filter iff it was present; only `None` is removed |
| BuildConfig.FilterNoneAllPresent | build.py:80 | a list without `None` passes the filter unchanged |
| BuildConfig.PlatformPart | build.py:61-80 | the platform part for each platform, with `--icon` always present and its value present iff the file exists; it is empty iff the platform is unknown |
| BuildConfig.ArgsLayout | build.py:93 | the list is common + data + filtered platform part + hidden imports + `main.py`, in that order; its last element is `main.py` |
| BuildConfig.IconFlagAlwaysPresent | build.py:63-80 | on the three known platforms `--icon` follows the data options; when the icon is missing, the next flag comes right after it |
| BuildConfig.MacOptionPairs | build.py:68-73 | on macOS the list contains `--osx-bundle-identifier com.rftx.tuning` and `--target-arch universal2`, whichever files exist |
| BuildConfig.UnknownPlatformArgs | build.py:60-80 | an unknown platform gets no platform options at all |
| BuildConfig.WindowsArchive | build.py:201-204 | Windows: `RFTX_Tuning-v0.0.1-Windows-x64.zip` |
| BuildConfig.MacArchive | build.py:205-208 | macOS: `RFTX_Tuning-v0.0.1-macOS-Universal.tar.gz` |
| BuildConfig.LinuxArchive | build.py:209-212 | Linux: `RFTX_Tuning-v0.0.1-Linux-x64.tar.gz` |
| BuildConfig.UnknownPackagesAsLinux | build.py:209-212 | an unknown platform gets Linux's executable name, archive name and gzipped tar |
| BuildConfig.ExeNames | build.py:201-211 | `RFTX_Tuning.exe`, `RFTX_Tuning.app` and `RFTX_Tuning` |
| BuildConfig.ExeName | build.py:201-211 | the executable name per platform; ExeNames states the three names |
| BuildConfig.ArchiveBase | build.py:204-212 | the archive base name per platform; WindowsArchive, MacArchive and LinuxArchive state them |
| BuildConfig.FormatOf | build.py:239-256 | ZIP on Windows, a gzipped tar elsewhere; UnknownPackagesAsLinux covers unknown platforms |
| BuildConfig.ArchiveName | build.py:241-250 | the archive file name; ArchiveNameShape states its shape |
| BuildConfig.ArchiveNameShape | build.py:239-256 | the archive name is the base name followed by the format's extension, and has no `/` |
| Manifest.Rule | build.py:283 | `"=" * n` has n characters, all `=` |
| Manifest.Matching | build.py:286 | a glob keeps exactly the names with that ending |
| Manifest.MatchingAppend | build.py:286 | the glob keeps the listing's order: over a concatenated listing it is the first part's glob followed by the second's |
| Manifest.MatchingSingle | build.py:286 | a single name is kept exactly when it has the ending, so with MatchingAppend the glob is the order-preserving filter of the listing |
| Manifest.Archives | build.py:286 | the `*.zip` listing followed by the `*.tar.gz` listing; ArchivesExactly and ArchivesOnce state its properties |
| Manifest.Listed | build.py:287-288 | the archives whose name is not checksums.txt; ChecksumFileNeverListed shows none is dropped |
| Manifest.EntryLine | build.py:290 | `{digest}  {name}`; ManifestLines and ManifestHasEntry place it |
| Manifest.ManifestText | build.py:281-290 | the text written to checksums.txt; ManifestLayout states its lines |
| Manifest.ManifestLines | build.py:287-290 | one `{digest}  {name}` line per archive, in order |
| Manifest.SplitTerminated | build.py:281-290 | lines each written with a line feed read back as themselves plus an empty rest |
| Manifest.ChecksumFileNeverListed | build.py:286-288 | the globs never pick `checksums.txt`, so the name test skips nothing |
| Manifest.ArchivesExactly | build.py:286 | exactly the `.zip` and `.tar.gz` entries are listed, and no ZIP follows a gzipped tar |
| Manifest.ArchivesOnce | build.py:286 | with a repeat-free listing, every archive is listed exactly once |
| Manifest.ManifestLayout | build.py:281-290 | the manifest is the title, the sixty `=`, a blank line, then one entry line per archive in glob order |
| Manifest.ManifestHasEntry | build.py:281-290 | every archive of the listing has its entry line after the three header lines |
| Manifest.WriteManifest | build.py:275-293 | the loop writes exactly the manifest text |
| Release.RemoveIfExistsFacts | build.py:36-37 | a conditional removal never adds anything, leaves d absent, keeps everything outside d, and removes all below d when d existed |
| Release.Cleaned | build.py:31-42 | the directory after clean_build_dirs; CleanedFacts and CleanedTree state its properties |
| Release.CleanedFacts | build.py:31-42 | after cleaning, build and dist are absent and releases exists; everything else is kept; an absent directory is no error |
| Release.CleanedTree | build.py:31-42 | in a proper tree nothing below build or dist survives cleaning |
| Release.ArchiveOutsideStaging | build.py:239-259 | the archive and releases itself lie outside the staging directory |
| Release.StagedAdds | build.py:219-234 | staging only adds paths inside releases, and creates releases and the staging directory |
| Release.Staged | build.py:219-234 | the directory after the staging directory is filled; StagedAdds, ExeStaged and ExtraStaged state its properties |
| Release.Members | build.py:242-256 | the paths `make_archive` records; ArchiveContents states them |
| Release.Packaged | build.py:219-259 | the directory after package_release; PackagedArchive and PackagedKeepsOutside state its properties |
| Release.PackagedArchive | build.py:219-259 | after packaging the archive and releases exist, and nothing at or below the staging directory is left |
| Release.PackagedKeepsOutside | build.py:219-259 | packaging changes nothing outside releases |
| Release.ArchiveContents | build.py:224-256 | the archive holds the base directory and the executable under it, and holds README.md and LICENSE.txt iff the project has them |
| Release.ExtraStaged | build.py:231-234 | README.md and LICENSE.txt enter the staging directory iff they exist at the top |
| Release.ExeStaged | build.py:224-228 | the executable's copy is in the staging directory |
| Release.Compiled | build.py:180-192 | the directory after pyinstaller ran on the spec file, successfully or not |
| Release.ChecksumText | build.py:275-293 | the manifest written over the releases listing that includes checksums.txt; ManifestListsArchive states what it lists |
| Release.BuildRun | build.py:295-315 | the run of main; StagesInOrder, FailedRun and SuccessfulRun state its outcomes |
| Release.StagesInOrder | build.py:295-321 | stages run in order and stop at the first failure; exit 0 iff all four ran, iff the installer (when needed) and the compiler succeed and the executable exists |
| Release.FailedRun | build.py:187-192 | a failed run writes no archive and no manifest and never reaches the checksum stage; a failed install changes nothing; a failed compile stops after cleaning and compiling and leaves what pyinstaller left |
| Release.SuccessfulRun | build.py:310-315 | success leaves the archive, checksums.txt and releases in place, removes the staging directory, keeps everything outside releases, and records the archive and the manifest |
| Release.ChecksumNotStaged | build.py:279 | checksums.txt is not below the staging directory |
| Release.ArchiveIsEntry | build.py:286 | the archive is an entry of releases whose name the globs pick |
| Release.ManifestListsArchive | build.py:275-293 | when the listing of releases/ that the run takes holds every entry and no name or digest holds a line feed, a successful run's manifest starts with the three header lines and lists the release's archive |
| Release.Workspace.CleanBuildDirs | build.py:31-42 | the loop leaves `Cleaned` and touches neither archives nor texts |
| Release.Workspace.PackageRelease | build.py:196-262 | a missing executable aborts before anything is created; otherwise the result is `Packaged`, with the archive's members recorded |
| Release.Workspace.CreateChecksums | build.py:275-293 | checksums.txt is created, holding the manifest of the releases listing that includes it |
| Release.Workspace.Pipeline | build.py:295-321 | the exit status, stages, paths, archives and texts are those of `BuildRun` |

## Left out

- Console output (`print`), the `input()` prompt and `datetime.now()` are not modelled. The typed answer and today's date are parameters of `BumpCli.Run` and `Bumped`.
- `sys.exit` ends a run with a status, and that status is the result. An uncaught exception also ends a run with status 1. The usage branch calls `get_current_version()` while it prints, which may raise. Either way the status is 1.
- SHA-256 hashing and the chunked reads of `calculate_checksum` are not modelled. The digest is an uninterpreted function parameter.
- External processes are reduced to return codes. `subprocess.run` for pip and PyInstaller, and the `import PyInstaller` test, become the inputs `installed`, `pipStatus` and `compileStatus`. What PyInstaller leaves in the directory, whether it succeeds or fails, is the input set `compiled`.
- `create_spec_file` is reduced to the spec file's path. Its text template is a large constant with no behaviour to state.
- `get_platform_specific_args` is modelled, but `build_executable` never calls it (it passes the spec file), so the pipeline does not use it.
- A file's content in `VersionStore` and `Changelog` is the text as `read_text` returns it. The locale decoding, its errors and the newline translation of `read_text` and `write_text` are not modelled, so a CRLF file that is rewritten (written back with LF endings) is not told apart from an LF file.
- Real filesystem I/O is not modelled. The directory is a set of relative paths; files and directories are not told apart and file contents are not kept. A copy adds the target path. `copytree` re-roots the paths below the source. `make_archive` records the paths below the staging directory, relative to releases/. `rmtree` removes a path and everything below it, including stale content. Of written files, only the texts the scripts compose (the manifest) are kept.
- The order in which the system lists a directory for `glob` is a parameter. Glob's case and hidden-file rules are not modelled.
- `os.pathsep` is a parameter of the argument list. `os.path.exists` for the icon and version files is a predicate parameter.
- `\d` accepts only ASCII digits, and `str.lower` and `str.capitalize` act only on ASCII letters. Python's full Unicode tables are not modelled.
- `re.sub` replacement templates are not modelled. The new version is inserted literally, as if it held no backslash escapes.
- The `.spec` file's contents, `main.py` and the GUI are not part of this model.
- Concurrency and partial failure are not modelled: an exception midway through a write, for example, is not.
