/**
 * main of the version-bump script: read the current version, decide the new
 * one from the argument (a bump keyword or an explicit version), ask for
 * confirmation, update the registry files and, for a keyword bump, add a
 * changelog entry. The command line, the answer typed at the prompt and
 * today's date are parameters; the exit status is the result.
 */
module BumpCli {
  import opened Results
  import opened Text
  import opened Versions
  import opened VersionStore
  import opened Changelog

  const Keywords: set<string> := {"major", "minor", "patch"}

  /** The new version and the kind recorded for it: a bump keyword, or "manual". */
  datatype Plan = Plan(newVersion: string, bumpType: string)

  /**
   * The new version from the lowercased argument: a keyword bumps the
   * current version; anything else must itself parse as a version and is
   * taken as it is typed (lowercased), bump type "manual".
   */
  function Decide(current: string, arg: string): (r: Result<Plan, VersionError>)
    ensures arg in Keywords ==> (r.Ok? <==> ParseVersion(current).Ok?)
    ensures arg in Keywords && r.Ok? ==>
              r.value.bumpType == arg
              && ParseVersion(r.value.newVersion).Ok?
              && ParseVersion(r.value.newVersion).value == Next(ParseVersion(current).value, ParseBumpKind(arg).value)
    ensures arg !in Keywords ==> (r.Ok? <==> ParseVersion(arg).Ok?)
    ensures arg !in Keywords && r.Ok? ==> r.value == Plan(arg, "manual")
    ensures r.Err? && arg in Keywords ==> r.error == InvalidFormat(current)
    ensures r.Err? && arg !in Keywords ==> r.error == InvalidFormat(arg)
  {
    if arg in Keywords then
      match BumpVersion(current, arg)
      case Err(e) => Err(e)
      case Ok(v) => Ok(Plan(v, arg))
    else
      match ParseVersion(arg)
      case Err(e) => Err(e)
      case Ok(_) => Ok(Plan(arg, "manual"))
  }

  /** What a run leaves behind: the exit status, the files, and the paths written in order. */
  datatype Effect = Effect(code: int, files: map<string, string>, written: seq<string>)

  /** The answer at the prompt counts as consent only when it is "y" once stripped and lowercased. */
  predicate Confirms(response: string) {
    Lower(Strip(response)) == "y"
  }

  /** Consent is a single `y` or `Y` with nothing but whitespace around it. */
  lemma ConfirmsIff(response: string)
    ensures Confirms(response) <==>
      exists a, b, c :: response == a + [c] + b && AllSpace(a) && AllSpace(b) && (c == 'y' || c == 'Y')
  {
    if Confirms(response) {
      var a, b, c := ConfirmedAnswer(response);
    }
    if exists a, b, c :: response == a + [c] + b && AllSpace(a) && AllSpace(b) && (c == 'y' || c == 'Y') {
      var a, b, c :| response == a + [c] + b && AllSpace(a) && AllSpace(b) && (c == 'y' || c == 'Y');
      PaddedYes(response, a, b, c);
    }
  }

  /** A consenting answer, taken apart: the whitespace before, the letter, the whitespace after. */
  lemma ConfirmedAnswer(response: string) returns (a: string, b: string, c: char)
    requires Confirms(response)
    ensures response == a + [c] + b && AllSpace(a) && AllSpace(b) && (c == 'y' || c == 'Y')
  {
    var r := Strip(response);
    a, b :| response == a + r + b && AllSpace(a) && AllSpace(b);
    assert |r| == 1 && Lower(r)[0] == LowerChar(r[0]);
    c := r[0];
    assert r == [c];
  }

  /** A `y` or `Y` with whitespace around it consents. */
  lemma PaddedYes(response: string, a: string, b: string, c: char)
    requires response == a + [c] + b && AllSpace(a) && AllSpace(b) && (c == 'y' || c == 'Y')
    ensures Confirms(response)
  {
    StripUnique(response, a, [c], b);
    assert Lower([c]) == [LowerChar(c)];
  }

  /** A padded `y` and a capital `Y` consent at the prompt. */
  lemma ConfirmsAnswers()
    ensures Confirms(" y\n") && Confirms("Y")
  {
    var e: string := [];
    assert AllSpace(" ") && AllSpace("\n");
    assert " y\n" == " " + ['y'] + "\n";
    PaddedYes(" y\n", " ", "\n", 'y');
    assert "Y" == e + ['Y'] + e;
    PaddedYes("Y", e, e, 'Y');
  }

  /** `yes` and an empty answer do not consent. */
  lemma RefusesAnswers()
    ensures !Confirms("yes") && !Confirms("")
  {
    var e: string := [];
    StripUnique("yes", e, "yes", e);
  }

  /** The outcome of main on the given files, command line (argv[0] is the script), answer and date. */
  function Bumped(files: map<string, string>, argv: seq<string>, response: string, today: string): Effect {
    if |argv| < 2 then Effect(1, files, [])
    else
      match CurrentVersion(files)
      case Err(_) => Effect(1, files, [])
      case Ok(current) =>
        match Decide(current, Lower(argv[1]))
        case Err(_) => Effect(1, files, [])
        case Ok(plan) =>
          if !Confirms(response) then Effect(0, files, [])
          else
            var nv := plan.newVersion;
            var updated := Propagate(files, VersionFiles, nv);
            var w := Writes(files, VersionFiles, nv);
            if plan.bumpType == "manual" then Effect(0, updated, w)
            else Effect(0, updated[ChangelogPath := ChangelogAfter(updated, nv, plan.bumpType, today)], w + [ChangelogPath])
  }

  /** The plan a run with a usable command line and a readable current version follows. */
  function PlanOf(files: map<string, string>, argv: seq<string>): Option<Plan> {
    if |argv| < 2 then None
    else
      match CurrentVersion(files)
      case Err(_) => None
      case Ok(current) =>
        match Decide(current, Lower(argv[1]))
        case Err(_) => None
        case Ok(plan) => Some(plan)
  }

  /**
   * Exit status 1 exactly when there is no argument, no readable current
   * version, or no usable new version; then nothing is written. A declined
   * prompt exits 0 and also writes nothing.
   */
  lemma ExitStatus(files: map<string, string>, argv: seq<string>, response: string, today: string)
    ensures var e := Bumped(files, argv, response, today);
      && (e.code == 1 <==> PlanOf(files, argv).None?)
      && (e.code == 0 <==> PlanOf(files, argv).Some?)
      && (e.code == 1 || !Confirms(response) ==> e.files == files && e.written == [])
  {
  }

  /** A registry path is never the changelog. */
  lemma ChangelogNotRegistered(files: map<string, string>, nv: string)
    ensures ChangelogPath !in Writes(files, VersionFiles, nv)
    ensures ChangelogPath !in Paths(VersionFiles)
  {
    RegistryPaths();
    WritesAreChanged(files, VersionFiles, nv);
    var w := Writes(files, VersionFiles, nv);
    forall i | 0 <= i < |w| ensures w[i] != ChangelogPath {
      assert w[i] in Elements(w);
    }
  }

  /**
   * A confirmed run writes the registry files the new version changes and,
   * exactly when the argument was a bump keyword, CHANGELOG.md after them.
   */
  lemma ChangelogOnlyForKeywords(files: map<string, string>, argv: seq<string>, response: string, today: string)
    requires PlanOf(files, argv).Some? && Confirms(response)
    ensures var e := Bumped(files, argv, response, today);
      var plan := PlanOf(files, argv).value;
      && e.code == 0
      && (ChangelogPath in e.written <==> Lower(argv[1]) in Keywords)
      && e.written[..|Writes(files, VersionFiles, plan.newVersion)|] == Writes(files, VersionFiles, plan.newVersion)
      && Elements(Writes(files, VersionFiles, plan.newVersion)) == ChangedPaths(files, VersionFiles, plan.newVersion)
  {
    var plan := PlanOf(files, argv).value;
    ChangelogNotRegistered(files, plan.newVersion);
    RegistryPaths();
    WritesAreChanged(files, VersionFiles, plan.newVersion);
    var e := Bumped(files, argv, response, today);
    var w := Writes(files, VersionFiles, plan.newVersion);
    assert plan.bumpType == "manual" <==> Lower(argv[1]) !in Keywords;
    if plan.bumpType != "manual" {
      assert e.written == w + [ChangelogPath];
      assert e.written[|w|] == ChangelogPath;
    } else {
      assert e.written == w;
    }
  }

  /**
   * The version a confirmed keyword run records is the bump of the current
   * one; a manual run records the argument, lowercased, which parses.
   */
  lemma NewVersionOfRun(files: map<string, string>, argv: seq<string>)
    requires PlanOf(files, argv).Some?
    ensures var plan := PlanOf(files, argv).value;
      var current := CurrentVersion(files).value;
      && CurrentVersion(files).Ok?
      && ParseVersion(plan.newVersion).Ok?
      && (Lower(argv[1]) in Keywords ==>
            ParseVersion(plan.newVersion).value == Next(ParseVersion(current).value, ParseBumpKind(Lower(argv[1])).value))
      && (Lower(argv[1]) !in Keywords ==> plan == Plan(Lower(argv[1]), "manual"))
  {
  }

  /** The changelog a keyword run writes over the updated registry files. */
  lemma ChangelogOverUpdate(files: map<string, string>, nv: string, bumpType: string, today: string)
    requires ChangelogPath in files
    requires '\n' !in nv && '\n' !in bumpType && '\n' !in today
    ensures var updated := Propagate(files, VersionFiles, nv);
      var c := updated[ChangelogPath := ChangelogAfter(updated, nv, bumpType, today)][ChangelogPath];
      var lines := Split(files[ChangelogPath]);
      var k := InsertionIndex(lines);
      && Split(c) == lines[..k] + EntryLines(nv, bumpType, today) + lines[k..]
      && InsertionIndex(Split(c)) == k + 1
  {
    ChangelogNotRegistered(files, nv);
    PropagateOutside(files, VersionFiles, nv, ChangelogPath);
    NewestFirst(files[ChangelogPath], nv, bumpType, today);
  }

  /**
   * A keyword run keeps an existing changelog's lines and puts the new
   * entry's header above its first release header.
   */
  lemma ChangelogKeepsHistory(files: map<string, string>, argv: seq<string>, response: string, today: string)
    requires PlanOf(files, argv).Some? && Confirms(response) && Lower(argv[1]) in Keywords
    requires ChangelogPath in files
    requires '\n' !in PlanOf(files, argv).value.newVersion && '\n' !in today
    ensures var e := Bumped(files, argv, response, today);
      var plan := PlanOf(files, argv).value;
      var lines := Split(files[ChangelogPath]);
      var k := InsertionIndex(lines);
      && ChangelogPath in e.files
      && Split(e.files[ChangelogPath]) == lines[..k] + EntryLines(plan.newVersion, plan.bumpType, today) + lines[k..]
      && InsertionIndex(Split(e.files[ChangelogPath])) == k + 1
  {
    var plan := PlanOf(files, argv).value;
    var current := CurrentVersion(files).value;
    var arg := Lower(argv[1]);
    assert Decide(current, arg) == Ok(plan);
    assert plan.bumpType == arg;
    KeywordLine(arg);
    var updated := Propagate(files, VersionFiles, plan.newVersion);
    assert Bumped(files, argv, response, today).files
        == updated[ChangelogPath := ChangelogAfter(updated, plan.newVersion, plan.bumpType, today)];
    ChangelogOverUpdate(files, plan.newVersion, plan.bumpType, today);
  }

  lemma KeywordLine(arg: string)
    requires arg in Keywords
    ensures '\n' !in arg && arg != "manual"
  {
  }

  /** main, with the project's files, the command line, the typed answer and the date given. */
  method Run(project: Project, argv: seq<string>, response: string, today: string) returns (code: int)
    modifies project
    ensures code == Bumped(old(project.files), argv, response, today).code
    ensures project.files == Bumped(old(project.files), argv, response, today).files
    ensures project.written == old(project.written) + Bumped(old(project.files), argv, response, today).written
  {
    if |argv| < 2 {
      return 1;
    }
    var current: string;
    match CurrentVersion(project.files) {
      case Err(_) => return 1;
      case Ok(v) => current := v;
    }
    var arg := Lower(argv[1]);
    var plan: Plan;
    match Decide(current, arg) {
      case Err(_) => return 1;
      case Ok(p) => plan := p;
    }
    if Lower(Strip(response)) != "y" {
      return 0;
    }
    ghost var files0, written0 := project.files, project.written;
    var updatedCount := project.UpdateAllFiles(current, plan.newVersion);
    if plan.bumpType != "manual" {
      CreateChangelogEntry(project, plan.newVersion, plan.bumpType, today);
      Regroup(written0, Writes(files0, VersionFiles, plan.newVersion), [ChangelogPath]);
    }
    return 0;
  }
}
