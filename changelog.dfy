/**
 * create_changelog_entry of the version-bump script: the entry text, the
 * search for the first `## [` line, the insertion of the entry as one new
 * element of the line list, and the fresh document written when there is
 * no CHANGELOG.md yet. The date is a parameter.
 */
module Changelog {
  import opened Results
  import opened Text
  import opened VersionStore

  const ChangelogPath := "CHANGELOG.md"

  /** The header of an entry: `## [{version}] - {today}`. */
  function HeaderLine(version: string, today: string): string {
    "## [" + version + "] - " + today
  }

  /** The kind line of an entry: `### {bump_type.capitalize()}`. */
  function KindLine(bumpType: string): string {
    "### " + Capitalize(bumpType)
  }

  /**
   * The lines of an entry: a blank line, the header, a blank line, the kind
   * line, the two bullets, and the blank line and empty rest that the
   * entry's closing line feeds leave.
   */
  function EntryLines(version: string, bumpType: string, today: string): seq<string> {
    ["", HeaderLine(version, today), "", KindLine(bumpType),
     "- Version bump to " + version, "- See git log for detailed changes", "", ""]
  }

  /** The entry text: its lines joined by line feeds. */
  function EntryText(version: string, bumpType: string, today: string): string {
    Join(EntryLines(version, bumpType, today))
  }

  /** The preamble's three sentences, each on a line of its own. */
  const NoticeLine: string := "All notable changes to " + "RFTX TUNING will be documented " + "in this file."
  const FormatLine: string := "The format is based on " + "[Keep a Changelog]" + "(https://keepachangelog.com/" + "en/1.0.0/),"
  const SemverLine: string := "and this project adheres to " + "[Semantic Versioning]" + "(https://semver.org/" + "spec/v2.0.0.html)."

  /** The lines a new CHANGELOG.md starts with. */
  const PreambleLines: seq<string> := ["# Changelog", "", NoticeLine, "", FormatLine, SemverLine, ""]

  /** The fixed text a new CHANGELOG.md starts with: its lines, each ended by a line feed. */
  const Preamble: string := Join(PreambleLines) + "\n"

  /** A new CHANGELOG.md: the preamble, the entry and a final line feed. */
  function FreshDocument(entry: string): string {
    Preamble + entry + "\n"
  }

  predicate IsHeader(line: string) {
    StartsWith(line, "## [")
  }

  /** Where the entry goes: the index of the first `## [` line, or 0 when there is none. */
  function InsertionIndex(lines: seq<string>): (k: nat)
    ensures k <= |lines|
    ensures (exists i :: 0 <= i < |lines| && IsHeader(lines[i]))
            ==> k < |lines| && IsHeader(lines[k]) && forall i :: 0 <= i < k ==> !IsHeader(lines[i])
    ensures (forall i :: 0 <= i < |lines| ==> !IsHeader(lines[i])) ==> k == 0
  {
    if lines == [] then 0
    else if IsHeader(lines[0]) then 0
    else if forall i :: 1 <= i < |lines| ==> !IsHeader(lines[i]) then 0
    else
      var k := InsertionIndex(lines[1..]);
      assert exists i :: 0 <= i < |lines[1..]| && IsHeader(lines[1..][i]) by {
        var i :| 1 <= i < |lines| && IsHeader(lines[i]);
        assert lines[1..][i - 1] == lines[i];
      }
      forall i | 0 <= i < k + 1 ensures !IsHeader(lines[i]) {
        if i > 0 {
          assert lines[i] == lines[1..][i - 1];
        }
      }
      k + 1
  }

  /** `lines.insert(k, x)`. */
  function Insert(lines: seq<string>, k: nat, x: string): (r: seq<string>)
    requires k <= |lines|
    ensures |r| == |lines| + 1
  {
    lines[..k] + [x] + lines[k..]
  }

  /** The inserted element sits at k, and removing it gives the original lines in their order. */
  lemma InsertExactlyOne(lines: seq<string>, k: nat, x: string)
    requires k <= |lines|
    ensures var r := Insert(lines, k, x);
      && r[k] == x
      && r[..k] + r[k + 1..] == lines
      && (forall i :: 0 <= i < k ==> r[i] == lines[i])
      && (forall i :: k <= i < |lines| ==> r[i + 1] == lines[i])
  {
    var r := Insert(lines, k, x);
    assert r[..k] == lines[..k];
    assert r[k + 1..] == lines[k..];
  }

  /** The existing document with the entry inserted. */
  function Prepended(content: string, entry: string): string {
    var lines := Split(content);
    Join(Insert(lines, InsertionIndex(lines), entry))
  }

  /** CHANGELOG.md after create_changelog_entry. */
  function ChangelogAfter(files: map<string, string>, version: string, bumpType: string, today: string): string {
    var entry := EntryText(version, bumpType, today);
    if ChangelogPath in files then Prepended(files[ChangelogPath], entry) else FreshDocument(entry)
  }

  /** Joining after an insertion before an existing line. */
  lemma JoinInsert(lines: seq<string>, k: nat, x: string)
    requires k < |lines|
    ensures Join(Insert(lines, k, x))
            == (if k == 0 then "" else Join(lines[..k]) + "\n") + x + "\n" + Join(lines[k..])
  {
    var r := Insert(lines, k, x);
    var tail := [x] + lines[k..];
    assert tail[1..] == lines[k..];
    if k == 0 {
      assert r == tail;
    } else {
      assert r == lines[..k] + tail;
      JoinAppend(lines[..k], tail);
    }
  }

  /**
   * In the text, the entry is placed right before the first `## [` line (or
   * at the very start): the text is what came before that line, the entry,
   * a line feed, and the rest of the old text from that line on.
   */
  lemma PrependedText(content: string, entry: string)
    ensures var lines := Split(content);
      var k := InsertionIndex(lines);
      && k < |lines|
      && Prepended(content, entry)
         == (if k == 0 then "" else Join(lines[..k]) + "\n") + entry + "\n" + Join(lines[k..])
  {
    var lines := Split(content);
    JoinInsert(lines, InsertionIndex(lines), entry);
  }

  /**
   * Read back line by line, an entry whose version, date and kind hold no
   * line feed is a blank line, the `## [{version}] - {today}` header, a blank
   * line, the `### {Kind}` line, the two bullets and two empty lines.
   */
  lemma EntrySplits(version: string, bumpType: string, today: string)
    requires '\n' !in version && '\n' !in bumpType && '\n' !in today
    ensures Split(EntryText(version, bumpType, today)) == EntryLines(version, bumpType, today)
  {
    var ls := EntryLines(version, bumpType, today);
    assert '\n' !in HeaderLine(version, today);
    assert '\n' !in Capitalize(bumpType) by {
      assert forall i :: 0 <= i < |bumpType| ==> bumpType[i] != '\n';
    }
    assert '\n' !in KindLine(bumpType);
    assert '\n' !in "- Version bump to " + version;
    SplitJoin(ls);
  }

  /** Splitting a text that may hold line feeds, joined before lines without any. */
  lemma SplitLeading(e: string, ys: seq<string>)
    requires |ys| >= 1
    requires forall i :: 0 <= i < |ys| ==> '\n' !in ys[i]
    ensures Split(Join([e] + ys)) == Split(e) + ys
  {
    var tail := [e] + ys;
    assert tail[1..] == ys;
    SplitJoin(ys);
    SplitAround(e, Join(ys));
  }

  /** Splitting two joined line lists, the first without line feeds. */
  lemma SplitAppended(xs: seq<string>, tail: seq<string>)
    requires |xs| >= 1 && |tail| >= 1
    requires forall i :: 0 <= i < |xs| ==> '\n' !in xs[i]
    ensures Split(Join(xs + tail)) == xs + Split(Join(tail))
  {
    JoinAppend(xs, tail);
    SplitJoin(xs);
    SplitAround(Join(xs), Join(tail));
  }

  /** Splitting lines joined around one inserted text that may hold line feeds. */
  lemma SplitInserted(xs: seq<string>, e: string, ys: seq<string>)
    requires |ys| >= 1
    requires forall i :: 0 <= i < |xs| ==> '\n' !in xs[i]
    requires forall i :: 0 <= i < |ys| ==> '\n' !in ys[i]
    ensures Split(Join(xs + [e] + ys)) == xs + Split(e) + ys
  {
    var tail := [e] + ys;
    SplitLeading(e, ys);
    Regroup(xs, [e], ys);
    Regroup(xs, Split(e), ys);
    if xs == [] {
      assert xs + tail == tail;
      assert xs + Split(e) == Split(e);
    } else {
      SplitAppended(xs, tail);
    }
  }

  /** Read back line by line, the lines are the old ones with the entry's lines inserted where the entry went. */
  lemma PrependedLines(content: string, entry: string)
    ensures var lines := Split(content);
      var k := InsertionIndex(lines);
      Split(Prepended(content, entry)) == lines[..k] + Split(entry) + lines[k..]
  {
    var lines := Split(content);
    var k := InsertionIndex(lines);
    PrependedText(content, entry);
    assert forall i :: 0 <= i < |lines[..k]| ==> lines[..k][i] == lines[i];
    assert forall i :: 0 <= i < |lines[k..]| ==> lines[k..][i] == lines[k + i];
    SplitInserted(lines[..k], entry, lines[k..]);
  }

  /** The first header of lines spliced in after header-free lines, when the second spliced line is a header. */
  lemma FirstHeaderSpliced(xs: seq<string>, el: seq<string>, ys: seq<string>)
    requires forall i :: 0 <= i < |xs| ==> !IsHeader(xs[i])
    requires |el| >= 2 && !IsHeader(el[0]) && IsHeader(el[1])
    ensures InsertionIndex(xs + el + ys) == |xs| + 1
  {
    var after := xs + el + ys;
    var k := |xs|;
    assert after[k + 1] == el[1];
    forall i | 0 <= i < k + 1 ensures !IsHeader(after[i]) {
      if i < k {
        assert after[i] == xs[i];
      } else {
        assert after[i] == el[0];
      }
    }
  }

  /**
   * After the bump, the new entry's header is the first `## [` line of an
   * existing changelog (so the next bump's entry goes above it), and the
   * old document's lines surround the entry's lines in their order.
   */
  lemma NewestFirst(content: string, version: string, bumpType: string, today: string)
    requires '\n' !in version && '\n' !in bumpType && '\n' !in today
    ensures var lines := Split(content);
      var k := InsertionIndex(lines);
      var after := Split(Prepended(content, EntryText(version, bumpType, today)));
      && after == lines[..k] + EntryLines(version, bumpType, today) + lines[k..]
      && InsertionIndex(after) == k + 1
      && after[k + 1] == HeaderLine(version, today)
  {
    var lines := Split(content);
    var k := InsertionIndex(lines);
    var el := EntryLines(version, bumpType, today);
    PrependedLines(content, EntryText(version, bumpType, today));
    EntrySplits(version, bumpType, today);
    assert IsHeader(el[1]);
    FirstHeaderSpliced(lines[..k], el, lines[k..]);
  }

  /** No line of the preamble holds a line feed or starts with `## [`. */
  lemma PreambleLinesPlain()
    ensures forall i :: 0 <= i < |PreambleLines| ==> '\n' !in PreambleLines[i] && !IsHeader(PreambleLines[i])
  {
    NoticePlain();
    FormatPlain();
    SemverPlain();
    assert "# Changelog"[1] == ' ';
  }

  lemma NoticePlain()
    ensures '\n' !in NoticeLine && NoticeLine[1] == 'l'
  {
  }

  lemma FormatPlain()
    ensures '\n' !in FormatLine && FormatLine[1] == 'h'
  {
  }

  lemma SemverPlain()
    ensures '\n' !in SemverLine && SemverLine[1] == 'n'
  {
  }

  /**
   * A new CHANGELOG.md reads back as the preamble's seven lines, the
   * entry's eight lines and the empty rest after the final line feed; its
   * first `## [` line is the entry's header, so the next bump's entry goes
   * above it.
   */
  lemma FreshLayout(version: string, bumpType: string, today: string)
    requires '\n' !in version && '\n' !in bumpType && '\n' !in today
    ensures var lines := Split(FreshDocument(EntryText(version, bumpType, today)));
      && lines == PreambleLines + EntryLines(version, bumpType, today) + [""]
      && InsertionIndex(lines) == |PreambleLines| + 1
      && lines[|PreambleLines| + 1] == HeaderLine(version, today)
  {
    var entry := EntryText(version, bumpType, today);
    var el := EntryLines(version, bumpType, today);
    PreambleLinesPlain();
    FreshLines(entry);
    EntrySplits(version, bumpType, today);
    assert IsHeader(el[1]);
    FirstHeaderSpliced(PreambleLines, el, [""]);
  }

  /** A new CHANGELOG.md reads back as the preamble's lines, the entry's lines and the empty rest. */
  lemma FreshLines(entry: string)
    requires forall i :: 0 <= i < |PreambleLines| ==> '\n' !in PreambleLines[i]
    ensures Split(FreshDocument(entry)) == PreambleLines + Split(entry) + [""]
  {
    assert FreshDocument(entry) == Join(PreambleLines) + "\n" + (entry + "\n" + "");
    SplitJoin(PreambleLines);
    SplitAround(Join(PreambleLines), entry + "\n" + "");
    SplitAround(entry, "");
  }

  /** bump_type.capitalize() on the three bump types. */
  lemma CapitalizedPatch()
    ensures Capitalize("patch") == "Patch"
  {
    assert Lower("atch") == "atch";
  }

  lemma CapitalizedMinor()
    ensures Capitalize("minor") == "Minor"
  {
    assert Lower("inor") == "inor";
  }

  lemma CapitalizedMajor()
    ensures Capitalize("major") == "Major"
  {
    assert Lower("ajor") == "ajor";
  }

  /**
   * The header scan of create_changelog_entry: the first index whose line
   * starts with `## [`, left at 0 when the loop finds none.
   */
  method HeaderEnd(lines: seq<string>) returns (headerEnd: nat)
    ensures headerEnd == InsertionIndex(lines)
  {
    headerEnd := 0;
    var i := 0;
    while i < |lines|
      invariant 0 <= i <= |lines|
      invariant forall j :: 0 <= j < i ==> !IsHeader(lines[j])
      invariant headerEnd == 0
    {
      if IsHeader(lines[i]) {
        headerEnd := i;
        break;
      }
      i := i + 1;
    }
  }

  /**
   * create_changelog_entry: prepend to an existing CHANGELOG.md by line-list
   * insertion, or write a fresh one. The file is written in both cases.
   */
  method CreateChangelogEntry(project: Project, version: string, bumpType: string, today: string)
    modifies project
    ensures project.files == old(project.files)[ChangelogPath := ChangelogAfter(old(project.files), version, bumpType, today)]
    ensures project.written == old(project.written) + [ChangelogPath]
  {
    var entry := EntryText(version, bumpType, today);
    if ChangelogPath in project.files {
      var content := project.files[ChangelogPath];
      var lines := Split(content);
      var headerEnd := HeaderEnd(lines);
      if headerEnd > 0 {
        lines := Insert(lines, headerEnd, entry);
      } else {
        lines := Insert(lines, 0, entry);
      }
      project.files := project.files[ChangelogPath := Join(lines)];
    } else {
      project.files := project.files[ChangelogPath := FreshDocument(entry)];
    }
    project.written := project.written + [ChangelogPath];
  }
}
