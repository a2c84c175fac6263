/**
 * The checksum manifest of create_checksums: a title, a rule of sixty `=`
 * and a blank line, then `{digest}  {name}` for every `*.zip` entry of the
 * release directory followed by every `*.tar.gz` entry. The SHA-256 digest
 * is a parameter; the directory listing is given in the order the system
 * enumerates it.
 */
module Manifest {
  import opened Text
  import opened BuildConfig

  const Title := "RFTX TUNING v" + AppVersion + " - SHA256 Checksums"
  const ChecksumName := "checksums.txt"

  /** `"=" * n`. */
  function Rule(n: nat): (r: string)
    ensures |r| == n && forall i :: 0 <= i < n ==> r[i] == '='
  {
    if n == 0 then "" else Rule(n - 1) + "="
  }

  /** A name the two globs pick up. */
  predicate IsArchiveName(name: string) {
    EndsWith(name, ".zip") || EndsWith(name, ".tar.gz")
  }

  /** `glob("*" + ext)` over a listing: the names with that ending, in listing order. */
  function Matching(names: seq<string>, ext: string): (r: seq<string>)
    ensures forall x :: x in r <==> x in names && EndsWith(x, ext)
    ensures |r| <= |names|
  {
    if names == [] then []
    else
      var rest := Matching(names[..|names| - 1], ext);
      var last := names[|names| - 1];
      assert names == names[..|names| - 1] + [last];
      if EndsWith(last, ext) then rest + [last] else rest
  }

  /**
   * The glob keeps the listing's order: over a concatenated listing it is
   * the glob of the first part followed by the glob of the second.
   */
  lemma {:induction false} MatchingAppend(a: seq<string>, b: seq<string>, ext: string)
    ensures Matching(a + b, ext) == Matching(a, ext) + Matching(b, ext)
    decreases |b|
  {
    if b == [] {
      assert a + b == a;
    } else {
      var init := b[..|b| - 1];
      assert (a + b)[..|a + b| - 1] == a + init;
      assert (a + b)[|a + b| - 1] == b[|b| - 1];
      MatchingAppend(a, init, ext);
    }
  }

  /** A one-name listing is kept exactly when the name has the ending. */
  lemma MatchingSingle(x: string, ext: string)
    ensures Matching([x], ext) == if EndsWith(x, ext) then [x] else []
  {
    assert [x][..0] == [];
  }

  /** `list(glob("*.zip")) + list(glob("*.tar.gz"))`. */
  function Archives(names: seq<string>): seq<string> {
    Matching(names, ".zip") + Matching(names, ".tar.gz")
  }

  /** The archives the loop writes a line for: all but one named checksums.txt. */
  function Listed(archives: seq<string>): (r: seq<string>)
    ensures |r| <= |archives|
  {
    if archives == [] then []
    else
      var rest := Listed(archives[..|archives| - 1]);
      var last := archives[|archives| - 1];
      if last != ChecksumName then rest + [last] else rest
  }

  function EntryLine(digest: string -> string, name: string): string {
    digest(name) + "  " + name
  }

  /** One entry line per archive, in order. */
  function ManifestLines(digest: string -> string, archives: seq<string>): (r: seq<string>)
    ensures |r| == |archives| && forall i :: 0 <= i < |archives| ==> r[i] == EntryLine(digest, archives[i])
  {
    if archives == [] then []
    else ManifestLines(digest, archives[..|archives| - 1]) + [EntryLine(digest, archives[|archives| - 1])]
  }

  /** Lines each followed by a line feed, as a run of `f.write(line + "\n")`. */
  function Terminated(lines: seq<string>): string {
    if lines == [] then "" else lines[0] + "\n" + Terminated(lines[1..])
  }

  /** The whole text of checksums.txt for a listing of the release directory. */
  function ManifestText(names: seq<string>, digest: string -> string): string {
    Terminated([Title, Rule(60), ""] + ManifestLines(digest, Listed(Archives(names))))
  }

  lemma {:induction false} TerminatedAppend(xs: seq<string>, ys: seq<string>)
    ensures Terminated(xs + ys) == Terminated(xs) + Terminated(ys)
  {
    if xs == [] {
      assert xs + ys == ys;
    } else {
      assert (xs + ys)[0] == xs[0];
      assert (xs + ys)[1..] == xs[1..] + ys;
      TerminatedAppend(xs[1..], ys);
    }
  }

  lemma TerminatedOne(line: string)
    ensures Terminated([line]) == line + "\n"
  {
    assert [line][1..] == [];
  }

  /** The first two writes: the title line, and the rule followed by a blank line. */
  lemma HeaderText()
    ensures Terminated([Title, Rule(60), ""]) == Title + "\n" + Rule(60) + "\n\n"
  {
    var ls := [Title, Rule(60), ""];
    assert ls[1..] == [Rule(60), ""];
    assert ls[1..][1..] == [""];
    TerminatedOne("");
  }

  /** A listing's lines read back: the header's three lines, the entry lines, and the empty rest after the last line feed. */
  lemma {:induction false} SplitTerminated(lines: seq<string>)
    requires forall i :: 0 <= i < |lines| ==> '\n' !in lines[i]
    ensures Split(Terminated(lines)) == lines + [""]
  {
    if lines != [] {
      SplitTerminated(lines[1..]);
      SplitLine(lines[0]);
      SplitAround(lines[0], Terminated(lines[1..]));
      assert lines == [lines[0]] + lines[1..];
    }
  }

  /** No name ends with both extensions. */
  lemma OneExtension(name: string)
    ensures !(EndsWith(name, ".zip") && EndsWith(name, ".tar.gz"))
  {
    if EndsWith(name, ".zip") {
      OneLastChar(name, ".tar.gz");
    }
  }

  lemma NotArchive()
    ensures !IsArchiveName(ChecksumName)
  {
    OneLastChar(ChecksumName, ".zip");
    OneLastChar(ChecksumName, ".tar.gz");
  }

  lemma OneLastChar(name: string, ext: string)
    requires |name| >= 1 && |ext| >= 1 && name[|name| - 1] != ext[|ext| - 1]
    ensures !EndsWith(name, ext)
  {
    if |ext| <= |name| {
      var tail := name[|name| - |ext|..];
      assert tail[|ext| - 1] == name[|name| - 1];
    }
  }

  /** A listing without checksums.txt is written in full. */
  lemma {:induction false} ListedAll(archives: seq<string>)
    requires ChecksumName !in archives
    ensures Listed(archives) == archives
  {
    if archives != [] {
      var init := archives[..|archives| - 1];
      assert ChecksumName !in init by {
        assert forall i :: 0 <= i < |init| ==> init[i] == archives[i];
      }
      ListedAll(init);
      assert init + [archives[|archives| - 1]] == archives;
    }
  }

  /** The `!= "checksums.txt"` test never skips anything: the globs never pick that name. */
  lemma ChecksumFileNeverListed(names: seq<string>)
    ensures Listed(Archives(names)) == Archives(names)
  {
    NotArchive();
    ListedAll(Archives(names));
  }

  /** Exactly the archive names of the listing are listed, each ZIP before every gzipped tar. */
  lemma ArchivesExactly(names: seq<string>)
    ensures forall x :: x in Archives(names) <==> x in names && IsArchiveName(x)
    ensures forall i, j :: 0 <= i < j < |Archives(names)| && EndsWith(Archives(names)[i], ".tar.gz")
                           ==> !EndsWith(Archives(names)[j], ".zip")
  {
    var zips, tars := Matching(names, ".zip"), Matching(names, ".tar.gz");
    var a := Archives(names);
    forall i, j | 0 <= i < j < |a| && EndsWith(a[i], ".tar.gz") ensures !EndsWith(a[j], ".zip") {
      if i < |zips| {
        assert a[i] in zips;
        OneExtension(a[i]);
      } else {
        assert a[j] == tars[j - |zips|] && a[j] in tars;
        OneExtension(a[j]);
      }
    }
  }

  /** A listing without repeats gives a glob result without repeats. */
  lemma {:induction false} MatchingDistinct(names: seq<string>, ext: string)
    requires Distinct(names)
    ensures Distinct(Matching(names, ext))
  {
    if names != [] {
      var init := names[..|names| - 1];
      var last := names[|names| - 1];
      assert Distinct(init);
      MatchingDistinct(init, ext);
      assert last !in init;
    }
  }

  /** Every archive of a listing without repeats is listed exactly once. */
  lemma ArchivesOnce(names: seq<string>)
    requires Distinct(names)
    ensures Distinct(Archives(names))
  {
    var zips, tars := Matching(names, ".zip"), Matching(names, ".tar.gz");
    MatchingDistinct(names, ".zip");
    MatchingDistinct(names, ".tar.gz");
    var a := Archives(names);
    forall i, j | 0 <= i < j < |a| ensures a[i] != a[j] {
      if i < |zips| && j >= |zips| {
        assert a[i] in zips && a[j] in tars;
        OneExtension(a[i]);
      } else if i >= |zips| {
        assert a[i] == tars[i - |zips|] && a[j] == tars[j - |zips|];
      }
    }
  }

  /**
   * Read back line by line, the manifest is the title, the rule of sixty
   * `=`, a blank line, one `{digest}  {name}` line per archive in glob
   * order, and the empty rest after the final line feed.
   */
  lemma ManifestLayout(names: seq<string>, digest: string -> string)
    requires forall i :: 0 <= i < |names| ==> '\n' !in names[i] && '\n' !in digest(names[i])
    ensures Split(ManifestText(names, digest)) == [Title, Rule(60), ""] + ManifestLines(digest, Archives(names)) + [""]
  {
    ChecksumFileNeverListed(names);
    var ls := [Title, Rule(60), ""] + ManifestLines(digest, Archives(names));
    HeaderAndEntriesPlain(names, digest, ls);
    SplitTerminated(ls);
  }

  /** No line of the manifest, header or entry, holds a line feed. */
  lemma HeaderAndEntriesPlain(names: seq<string>, digest: string -> string, ls: seq<string>)
    requires forall i :: 0 <= i < |names| ==> '\n' !in names[i] && '\n' !in digest(names[i])
    requires ls == [Title, Rule(60), ""] + ManifestLines(digest, Archives(names))
    ensures forall i :: 0 <= i < |ls| ==> '\n' !in ls[i]
  {
    var a := Archives(names);
    ArchivesExactly(names);
    TitleLine();
    forall i | 0 <= i < |ls| ensures '\n' !in ls[i] {
      if i >= 3 {
        EntryLineSingle(names, digest, a[i - 3]);
      }
    }
  }

  /** Every archive of the listing has its `{digest}  {name}` line after the three header lines. */
  lemma ManifestHasEntry(names: seq<string>, digest: string -> string, x: string)
    requires forall i :: 0 <= i < |names| ==> '\n' !in names[i] && '\n' !in digest(names[i])
    requires x in names && IsArchiveName(x)
    ensures var lines := Split(ManifestText(names, digest));
      && |lines| >= 4 && lines[..3] == [Title, Rule(60), ""]
      && EntryLine(digest, x) in lines
  {
    ArchivesExactly(names);
    ManifestLayout(names, digest);
    var a := Archives(names);
    var k :| 0 <= k < |a| && a[k] == x;
    var lines := [Title, Rule(60), ""] + ManifestLines(digest, a) + [""];
    assert lines[3 + k] == EntryLine(digest, x);
  }

  lemma TitleLine()
    ensures '\n' !in Title && '\n' !in Rule(60)
  {
  }

  lemma EntryLineSingle(names: seq<string>, digest: string -> string, x: string)
    requires forall i :: 0 <= i < |names| ==> '\n' !in names[i] && '\n' !in digest(names[i])
    requires x in names
    ensures '\n' !in EntryLine(digest, x)
  {
    var k :| 0 <= k < |names| && names[k] == x;
  }

  /** The header lines and the entry lines of a prefix of the archives. */
  function Written(digest: string -> string, archives: seq<string>): seq<string> {
    [Title, Rule(60), ""] + ManifestLines(digest, Listed(archives))
  }

  /** One more archive adds its line, unless it is named checksums.txt. */
  lemma WrittenStep(digest: string -> string, archives: seq<string>, i: nat)
    requires i < |archives|
    ensures Terminated(Written(digest, archives[..i + 1]))
            == Terminated(Written(digest, archives[..i]))
               + (if archives[i] != ChecksumName then EntryLine(digest, archives[i]) + "\n" else "")
  {
    assert archives[..i + 1][..i] == archives[..i];
    if archives[i] != ChecksumName {
      var line := EntryLine(digest, archives[i]);
      assert Written(digest, archives[..i + 1]) == Written(digest, archives[..i]) + [line];
      TerminatedAppend(Written(digest, archives[..i]), [line]);
      TerminatedOne(line);
    }
  }

  /** create_checksums' text, written piece by piece as the script writes it. */
  method WriteManifest(names: seq<string>, digest: string -> string) returns (text: string)
    ensures text == ManifestText(names, digest)
  {
    text := Title + "\n";
    text := text + Rule(60) + "\n\n";
    HeaderText();
    var archives := Matching(names, ".zip") + Matching(names, ".tar.gz");
    var i := 0;
    assert Written(digest, archives[..0]) == [Title, Rule(60), ""];
    while i < |archives|
      invariant 0 <= i <= |archives|
      invariant text == Terminated(Written(digest, archives[..i]))
    {
      WrittenStep(digest, archives, i);
      if archives[i] != ChecksumName {
        text := text + digest(archives[i]) + "  " + archives[i] + "\n";
      }
      i := i + 1;
    }
    assert archives[..i] == archives;
  }
}
