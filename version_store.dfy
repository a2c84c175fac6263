/**
 * The files the version-bump script edits, as a map from path to content,
 * and its two editing operations: update_file (one file, one rule) and
 * update_all_files (the registry, counting the files that changed). The
 * current version is read from pyproject.toml with the same quoted pattern.
 */
module VersionStore {
  import opened Results
  import opened Text
  import opened Rewrite

  /** One VERSION_FILES item: a path and its pattern text (which update_file never consults). */
  datatype Entry = Entry(path: string, pattern: string)

  /** VERSION_FILES in its insertion order, which is the order update_all_files visits it. */
  const VersionFiles: seq<Entry> := [
    Entry("pyproject.toml", "version\\s*=\\s*\"([^\"]+)\""),
    Entry("build.py", "VERSION\\s*=\\s*\"([^\"]+)\""),
    Entry("rftx_gui.py", "v\\d+\\.\\d+")
  ]

  /** update_file's new content: the rule its path selects, or the content as it is when none applies. */
  function RewriteFor(path: string, content: string, newVersion: string): string {
    match StrategyFor(path)
    case None => content
    case Some(st) => Rewritten(st, content, newVersion)
  }

  /** update_file reports a change: the file exists and rewriting alters it. */
  predicate Changes(files: map<string, string>, path: string, newVersion: string) {
    path in files && RewriteFor(path, files[path], newVersion) != files[path]
  }

  /** The files after update_file: the rewritten content is stored only when it differs. */
  function Store(files: map<string, string>, path: string, newVersion: string): (r: map<string, string>)
    ensures r.Keys == files.Keys
    ensures forall p :: p in files && p != path ==> r[p] == files[p]
    ensures path in files ==> r[path] == RewriteFor(path, files[path], newVersion)
  {
    if Changes(files, path, newVersion) then files[path := RewriteFor(path, files[path], newVersion)] else files
  }

  /** The files after update_file has run on each entry in turn. */
  function Propagate(files: map<string, string>, entries: seq<Entry>, newVersion: string): map<string, string> {
    if entries == [] then files
    else
      var prefix := entries[..|entries| - 1];
      Store(Propagate(files, prefix, newVersion), entries[|entries| - 1].path, newVersion)
  }

  /** The paths written, in order, when update_file runs on each entry in turn. */
  function Writes(files: map<string, string>, entries: seq<Entry>, newVersion: string): seq<string> {
    if entries == [] then []
    else
      var prefix := entries[..|entries| - 1];
      var last := entries[|entries| - 1].path;
      Writes(files, prefix, newVersion)
      + (if Changes(Propagate(files, prefix, newVersion), last, newVersion) then [last] else [])
  }

  /** The paths of the entries. */
  function Paths(entries: seq<Entry>): (r: seq<string>)
    ensures |r| == |entries| && forall i :: 0 <= i < |entries| ==> r[i] == entries[i].path
  {
    if entries == [] then [] else Paths(entries[..|entries| - 1]) + [entries[|entries| - 1].path]
  }

  /** The registry's paths whose file update_file would change when run on the original files. */
  function ChangedPaths(files: map<string, string>, entries: seq<Entry>, newVersion: string): set<string> {
    Select(Paths(entries), p => Changes(files, p, newVersion))
  }

  /** The elements of xs that satisfy keep. */
  function Select(xs: seq<string>, keep: string -> bool): set<string> {
    set x | x in xs && keep(x)
  }

  lemma SelectSnoc(xs: seq<string>, x: string, keep: string -> bool)
    ensures Select(xs + [x], keep) == Select(xs, keep) + (if keep(x) then {x} else {})
  {
  }

  /** No more files are written than there are entries. */
  lemma {:induction false} WritesBound(files: map<string, string>, entries: seq<Entry>, newVersion: string)
    ensures |Writes(files, entries, newVersion)| <= |entries|
  {
    if entries != [] {
      WritesBound(files, entries[..|entries| - 1], newVersion);
    }
  }

  /** update_file never creates or deletes a file. */
  lemma {:induction false} PropagateKeys(files: map<string, string>, entries: seq<Entry>, newVersion: string)
    ensures Propagate(files, entries, newVersion).Keys == files.Keys
  {
    if entries != [] {
      PropagateKeys(files, entries[..|entries| - 1], newVersion);
    }
  }

  /** A file that no entry names keeps its content. */
  lemma {:induction false} PropagateOutside(files: map<string, string>, entries: seq<Entry>, newVersion: string, p: string)
    requires p in files && p !in Paths(entries)
    ensures p in Propagate(files, entries, newVersion) && Propagate(files, entries, newVersion)[p] == files[p]
  {
    if entries != [] {
      var prefix := entries[..|entries| - 1];
      assert Paths(entries) == Paths(prefix) + [entries[|entries| - 1].path];
      PropagateOutside(files, prefix, newVersion, p);
    }
  }

  /** With distinct paths, every named file that exists ends up rewritten by its own rule, once. */
  lemma {:induction false} PropagateAt(files: map<string, string>, entries: seq<Entry>, newVersion: string, k: nat)
    requires Distinct(Paths(entries)) && k < |entries| && entries[k].path in files
    ensures var p := entries[k].path;
      p in Propagate(files, entries, newVersion)
      && Propagate(files, entries, newVersion)[p] == RewriteFor(p, files[p], newVersion)
  {
    var prefix := entries[..|entries| - 1];
    var p := entries[k].path;
    assert Paths(entries) == Paths(prefix) + [entries[|entries| - 1].path];
    PropagateKeys(files, prefix, newVersion);
    if k == |entries| - 1 {
      assert p !in Paths(prefix) by {
        forall i | 0 <= i < |prefix| ensures Paths(prefix)[i] != p {
          assert Paths(entries)[i] == Paths(prefix)[i];
        }
      }
      PropagateOutside(files, prefix, newVersion, p);
    } else {
      assert Distinct(Paths(prefix)) by {
        forall i, j | 0 <= i < j < |prefix| ensures Paths(prefix)[i] != Paths(prefix)[j] {
          assert Paths(entries)[i] == Paths(prefix)[i] && Paths(entries)[j] == Paths(prefix)[j];
        }
      }
      assert prefix[k] == entries[k];
      PropagateAt(files, prefix, newVersion, k);
      assert Paths(entries)[k] != Paths(entries)[|entries| - 1];
    }
  }

  /** Distinct paths stay distinct without the last entry, and the last path is not among the others. */
  lemma DistinctPrefix(entries: seq<Entry>)
    requires entries != [] && Distinct(Paths(entries))
    ensures var prefix := entries[..|entries| - 1];
      Distinct(Paths(prefix)) && entries[|entries| - 1].path !in Paths(prefix)
  {
    var prefix := entries[..|entries| - 1];
    assert Paths(entries) == Paths(prefix) + [entries[|entries| - 1].path];
    assert forall i :: 0 <= i < |prefix| ==> Paths(entries)[i] == Paths(prefix)[i];
  }

  lemma ChangedPathsSnoc(files: map<string, string>, entries: seq<Entry>, newVersion: string)
    requires entries != []
    ensures var prefix, last := entries[..|entries| - 1], entries[|entries| - 1].path;
      ChangedPaths(files, entries, newVersion)
      == ChangedPaths(files, prefix, newVersion) + (if Changes(files, last, newVersion) then {last} else {})
  {
    var prefix, last := entries[..|entries| - 1], entries[|entries| - 1].path;
    assert Paths(entries) == Paths(prefix) + [last];
    SelectSnoc(Paths(prefix), last, p => Changes(files, p, newVersion));
  }

  /** The last entry sees its file as it was when no earlier entry names it. */
  lemma ChangesUntouched(files: map<string, string>, prefix: seq<Entry>, p: string, newVersion: string)
    requires p !in Paths(prefix)
    ensures Changes(Propagate(files, prefix, newVersion), p, newVersion) == Changes(files, p, newVersion)
  {
    PropagateKeys(files, prefix, newVersion);
    if p in files {
      PropagateOutside(files, prefix, newVersion, p);
    }
  }

  /**
   * With distinct paths, exactly the entries whose file the rule changes are
   * written, each once: the written paths are the changed ones, so their
   * number, the count update_all_files returns, is the number of changed files.
   */
  lemma {:induction false} WritesAreChanged(files: map<string, string>, entries: seq<Entry>, newVersion: string)
    requires Distinct(Paths(entries))
    ensures Distinct(Writes(files, entries, newVersion))
    ensures Elements(Writes(files, entries, newVersion)) == ChangedPaths(files, entries, newVersion)
    ensures |Writes(files, entries, newVersion)| == |ChangedPaths(files, entries, newVersion)|
  {
    var w := Writes(files, entries, newVersion);
    if entries == [] {
      assert ChangedPaths(files, entries, newVersion) == {};
      assert Elements(w) == {};
    } else {
      var prefix := entries[..|entries| - 1];
      var last := entries[|entries| - 1].path;
      DistinctPrefix(entries);
      WritesAreChanged(files, prefix, newVersion);
      var wp := Writes(files, prefix, newVersion);
      ChangesUntouched(files, prefix, last, newVersion);
      ChangedPathsSnoc(files, entries, newVersion);
      if Changes(files, last, newVersion) {
        assert w == wp + [last];
        ElementsSnoc(wp, last);
        DistinctSnoc(wp, last);
      } else {
        assert w == wp;
      }
    }
    DistinctCard(w);
  }

  /** One more entry: Propagate and Writes extend by the entry's update_file. */
  lemma Snoc(files: map<string, string>, entries: seq<Entry>, k: nat, newVersion: string)
    requires k < |entries|
    ensures var before := Propagate(files, entries[..k], newVersion);
      && Propagate(files, entries[..k + 1], newVersion) == Store(before, entries[k].path, newVersion)
      && Writes(files, entries[..k + 1], newVersion)
         == Writes(files, entries[..k], newVersion)
            + (if Changes(before, entries[k].path, newVersion) then [entries[k].path] else [])
  {
    assert entries[..k + 1][..k] == entries[..k];
  }

  /** The log of writes after one more update_file, whose outcome is `changed`. */
  lemma WritesStep(w0: seq<string>, files: map<string, string>, entries: seq<Entry>, k: nat, newVersion: string, changed: bool)
    requires k < |entries|
    requires changed == Changes(Propagate(files, entries[..k], newVersion), entries[k].path, newVersion)
    ensures Propagate(files, entries[..k + 1], newVersion) == Store(Propagate(files, entries[..k], newVersion), entries[k].path, newVersion)
    ensures w0 + Writes(files, entries[..k], newVersion) + (if changed then [entries[k].path] else [])
            == w0 + Writes(files, entries[..k + 1], newVersion)
  {
    Snoc(files, entries, k, newVersion);
    Regroup(w0, Writes(files, entries[..k], newVersion), if changed then [entries[k].path] else []);
  }

  /** Why get_current_version fails. */
  datatype LookupError =
    | NotFound     // the FileNotFoundError: pyproject.toml does not exist
    | NoVersion    // the ValueError: no `version = "..."` in it

  const PyprojectPath := "pyproject.toml"

  /** get_current_version: the token of the first `version\s*=\s*"..."` in pyproject.toml. */
  function CurrentVersion(files: map<string, string>): (r: Result<string, LookupError>)
    ensures r == Err(NotFound) <==> PyprojectPath !in files
    ensures r == Err(NoVersion) <==> PyprojectPath in files && Tokens(Pattern(PyprojectVersion), files[PyprojectPath]) == []
  {
    if PyprojectPath !in files then Err(NotFound)
    else
      var tokens := Tokens(Pattern(PyprojectVersion), files[PyprojectPath]);
      if tokens == [] then Err(NoVersion) else Ok(tokens[0])
  }

  /** A weave starts with its first gap. */
  lemma WeaveStart(gaps: seq<string>, tokens: seq<string>)
    requires |gaps| == |tokens| + 1
    ensures StartsWith(Weave(gaps, tokens), gaps[0])
  {
    if tokens != [] {
      var w := Weave(gaps, tokens);
      assert w == gaps[0] + (tokens[0] + Weave(gaps[1..], tokens[1..]));
      assert w[..|gaps[0]|] == gaps[0];
    }
  }

  /**
   * The version read is a non-empty, quote-free piece of pyproject.toml that
   * directly follows its `version = "` opener and is directly followed by the
   * closing quote.
   */
  lemma CurrentVersionShape(files: map<string, string>)
    requires CurrentVersion(files).Ok?
    ensures var v, content := CurrentVersion(files).value, files[PyprojectPath];
      && |v| > 0 && '"' !in v
      && exists pre, post :: content == pre + v + post
           && EndsWithAssignment(pre, "version") && |post| > 0 && post[0] == '"'
  {
    var m := Pattern(PyprojectVersion);
    var content := files[PyprojectPath];
    var tokens, gaps := Tokens(m, content), Gaps(m, content);
    QuotedPattern(PyprojectVersion);
    assert Key(PyprojectVersion) == "version";
    QuotedTokens(m, content);
    QuotedOpeners(m, "version", content);
    QuotedClosers(m, content);
    Decompose(m, content);
    var post := Weave(gaps[1..], tokens[1..]);
    assert content == gaps[0] + tokens[0] + post;
    WeaveStart(gaps[1..], tokens[1..]);
    assert |post| > 0 && post[0] == gaps[1][0];
  }

  /** pyproject.toml's pattern matches at position j of a text exactly when `version\s*=\s*"[^"]+"` occurs there. */
  lemma PyprojectPatternAt(content: string, j: nat)
    requires j < |content|
    ensures Pattern(PyprojectVersion)(content[j..]) == QuotedMatch(content[j..], "version")
    ensures Pattern(PyprojectVersion)(content[j..]).Some? <==> AssignmentAt(content, "version", j)
  {
    QuotedMatchIff(content[j..], "version");
  }

  /** Where pyproject.toml's pattern matches nowhere before q, `version\s*=\s*"[^"]+"` occurs nowhere before q. */
  lemma PyprojectNoneBefore(content: string, q: nat)
    requires q <= |content| && NoMatchBefore(Pattern(PyprojectVersion), content, q)
    ensures forall j :: 0 <= j < q ==> !AssignmentAt(content, "version", j)
  {
    forall j | 0 <= j < q ensures !AssignmentAt(content, "version", j) {
      PyprojectPatternAt(content, j);
    }
  }

  /**
   * get_current_version's `re.search` finds a version exactly when
   * `version\s*=\s*"([^"]+)"` occurs somewhere in pyproject.toml.
   */
  lemma CurrentVersionFound(files: map<string, string>)
    requires PyprojectPath in files
    ensures CurrentVersion(files).Ok? <==> exists j :: AssignmentAt(files[PyprojectPath], "version", j)
  {
    var content := files[PyprojectPath];
    if CurrentVersion(files).Ok? {
      var q, p, t := VersionHit(files);
      PyprojectPatternAt(content, q);
    } else {
      FirstToken(Pattern(PyprojectVersion), content);
      PyprojectNoneBefore(content, |content|);
      assert forall j :: |content| <= j ==> !AssignmentAt(content, "version", j);
    }
  }

  /**
   * The version get_current_version returns is the group of the leftmost
   * occurrence: the pattern occurs at q, nowhere before q, and the version is
   * the quote-free part after that occurrence's opener.
   */
  lemma CurrentVersionFirst(files: map<string, string>)
    requires CurrentVersion(files).Ok?
    ensures var content := files[PyprojectPath];
      exists q: nat, p: nat, t: nat ::
        LeftmostAssignment(content, "version", q, p, t) && CurrentVersion(files).value == content[q + p..q + p + t]
  {
    var q, p, t := VersionHit(files);
    HitLeftmost(files[PyprojectPath], q, p, t);
  }

  /** The first match of pyproject.toml's pattern is the leftmost occurrence of its regular expression. */
  lemma HitLeftmost(content: string, q: nat, p: nat, t: nat)
    requires q < |content| && Pattern(PyprojectVersion)(content[q..]).Some?
    requires Pattern(PyprojectVersion)(content[q..]).value.from == p
    requires Pattern(PyprojectVersion)(content[q..]).value.to == p + t
    requires NoMatchBefore(Pattern(PyprojectVersion), content, q)
    ensures LeftmostAssignment(content, "version", q, p, t)
  {
    PyprojectPatternAt(content, q);
    QuotedMatchShape(content[q..], "version");
    PyprojectNoneBefore(content, q);
  }

  /** The version read is the token of the leftmost match of the pattern: its position, opener length and length. */
  lemma VersionHit(files: map<string, string>) returns (q: nat, p: nat, t: nat)
    requires CurrentVersion(files).Ok?
    ensures var content := files[PyprojectPath];
      && q < |content| && Pattern(PyprojectVersion)(content[q..]).Some?
      && Pattern(PyprojectVersion)(content[q..]).value.from == p
      && Pattern(PyprojectVersion)(content[q..]).value.to == p + t
      && NoMatchBefore(Pattern(PyprojectVersion), content, q)
      && CurrentVersion(files).value == content[q + p..q + p + t]
  {
    q, p, t := FirstTokenHit(Pattern(PyprojectVersion), files[PyprojectPath]);
  }

  /** The registry names three different files. */
  lemma RegistryPaths()
    ensures Paths(VersionFiles) == ["pyproject.toml", "build.py", "rftx_gui.py"]
    ensures Distinct(Paths(VersionFiles))
  {
    assert VersionFiles[..2][..1] == [VersionFiles[0]];
  }

  /** pyproject.toml gets the `version = "..."` rule. */
  lemma PyprojectRule()
    ensures StrategyFor("pyproject.toml") == Some(PyprojectVersion)
  {
    assert StartsWith("pyproject.toml", "pyproject.toml");
  }

  /** build.py gets the `VERSION = "..."` rule. */
  lemma BuildScriptRule()
    ensures StrategyFor("build.py") == Some(BuildScriptVersion)
  {
    ContainsLonger("build.py", "pyproject.toml");
    assert StartsWith("build.py", "build.py");
  }

  /** rftx_gui.py gets the tag rule. */
  lemma GuiRule()
    ensures StrategyFor("rftx_gui.py") == Some(GuiFooterTag)
  {
    ContainsLonger("rftx_gui.py", "pyproject.toml");
    GuiPathNotBuildScript();
    GuiPathContainsItself();
  }

  lemma GuiPathNotBuildScript()
    ensures !Contains("rftx_gui.py", "build.py")
  {
    ContainsFirstChar("rftx_gui.py", "build.py");
  }

  lemma GuiPathContainsItself()
    ensures Contains("rftx_gui.py", "rftx_gui.py")
  {
    assert StartsWith("rftx_gui.py", "rftx_gui.py");
  }

  /** update_all_files returns between 0 and 3: the number of registry files its rules changed. */
  lemma RegistryCount(files: map<string, string>, newVersion: string)
    ensures |Writes(files, VersionFiles, newVersion)| == |ChangedPaths(files, VersionFiles, newVersion)| <= 3
  {
    RegistryPaths();
    WritesAreChanged(files, VersionFiles, newVersion);
    WritesBound(files, VersionFiles, newVersion);
  }

  /** The working directory as the bump script sees it. */
  class Project {
    var files: map<string, string>   // each existing file's text as read_text returns it
    var written: seq<string>   // every write_text, in order

    constructor(files0: map<string, string>)
      ensures files == files0 && written == []
    {
      files := files0;
      written := [];
    }

    /**
     * update_file: a missing file yields false and no write; otherwise the
     * path's rule rewrites the content, which is written back, and true
     * returned, only when it differs. `pattern` and `oldVersion` are unused.
     */
    method UpdateFile(path: string, pattern: string, oldVersion: string, newVersion: string) returns (changed: bool)
      modifies this
      ensures changed == Changes(old(files), path, newVersion)
      ensures files == Store(old(files), path, newVersion)
      ensures written == old(written) + (if changed then [path] else [])
      ensures path !in old(files) ==> !changed && files == old(files) && written == old(written)
    {
      if path !in files {
        return false;
      }
      var content := files[path];
      var original := content;
      match StrategyFor(path) {
        case Some(st) => content := Rewritten(st, content, newVersion);
        case None =>
      }
      if content != original {
        files := files[path := content];
        written := written + [path];
        changed := true;
      } else {
        changed := false;
      }
    }

    /** update_all_files: update_file on each registry entry in order, counting the changes. */
    method UpdateAllFiles(oldVersion: string, newVersion: string) returns (count: nat)
      modifies this
      ensures files == Propagate(old(files), VersionFiles, newVersion)
      ensures written == old(written) + Writes(old(files), VersionFiles, newVersion)
      ensures count == |Writes(old(files), VersionFiles, newVersion)|
      ensures count <= |VersionFiles|
    {
      var files0 := files;
      count := 0;
      var i := 0;
      while i < |VersionFiles|
        invariant 0 <= i <= |VersionFiles|
        invariant files == Propagate(files0, VersionFiles[..i], newVersion)
        invariant written == old(written) + Writes(files0, VersionFiles[..i], newVersion)
        invariant count == |Writes(files0, VersionFiles[..i], newVersion)|
      {
        var entry := VersionFiles[i];
        var changed := UpdateFile(entry.path, entry.pattern, oldVersion, newVersion);
        WritesStep(old(written), files0, VersionFiles, i, newVersion, changed);
        if changed {
          count := count + 1;
        }
        i := i + 1;
      }
      assert VersionFiles[..i] == VersionFiles;
      WritesBound(files0, VersionFiles, newVersion);
    }
  }
}
