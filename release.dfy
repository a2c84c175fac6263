/**
 * The build script's effect on the working directory: cleaning build/ and
 * dist/, staging and archiving the executable in releases/, writing the
 * checksum manifest, and main's order of stages. The directory is a set of
 * relative paths (files and directories alike); the compiler's outputs, the
 * installer's and compiler's return codes, the order in which the system
 * lists a directory and the digest are parameters.
 */
module Release {
  import opened Results
  import opened Text
  import opened BuildConfig
  import opened Manifest

  const BuildDir := "build"
  const DistDir := "dist"
  const ReleaseDir := "releases"
  const SpecName := AppName + ".spec"

  /** `dir / name`. */
  function Child(dir: string, name: string): string {
    dir + "/" + name
  }

  /** p is d itself or lies below it. */
  predicate Within(p: string, d: string) {
    p == d || StartsWith(p, d + "/")
  }

  /** shutil.rmtree(d): d and everything below it disappear. */
  function RemoveTree(paths: set<string>, d: string): (r: set<string>)
    ensures forall p :: p in r <==> p in paths && !Within(p, d)
  {
    set p | p in paths && !Within(p, d)
  }

  /** `if d.exists(): shutil.rmtree(d)`. */
  function RemoveIfExists(paths: set<string>, d: string): set<string> {
    if d in paths then RemoveTree(paths, d) else paths
  }

  /** The loop of clean_build_dirs over a prefix of its directory list. */
  function RemoveAll(paths: set<string>, dirs: seq<string>): set<string> {
    if dirs == [] then paths else RemoveIfExists(RemoveAll(paths, dirs[..|dirs| - 1]), dirs[|dirs| - 1])
  }

  const CleanedDirs: seq<string> := [BuildDir, DistDir]

  /** The directory after clean_build_dirs: build/ and dist/ removed, releases/ present. */
  function Cleaned(paths: set<string>): set<string> {
    RemoveAll(paths, CleanedDirs) + {ReleaseDir}
  }

  // ---------------------------------------------------------------------
  // package_release
  // ---------------------------------------------------------------------

  function ExePath(p: Platform): string {
    Child(DistDir, ExeName(p))
  }

  /** The temporary directory `releases/{archive_name}`. */
  function StagingDir(p: Platform): string {
    Child(ReleaseDir, ArchiveBase(p))
  }

  function ArchivePath(p: Platform): string {
    Child(ReleaseDir, ArchiveName(p))
  }

  /** The copies shutil.copytree makes: every path below `from`, moved below `to`. */
  function Reroot(paths: set<string>, from: string, to: string): set<string> {
    set q | q in paths && Within(q, from) :: to + q[|from|..]
  }

  /** The executable's copy: the whole bundle on macOS, the single file elsewhere. */
  function CopyExe(paths: set<string>, p: Platform): set<string> {
    var target := Child(StagingDir(p), ExeName(p));
    if p == MacOS then Reroot(paths, ExePath(p), target) else {target}
  }

  /** `if Path(file).exists(): shutil.copy2(file, temp_dir / file)`. */
  function CopyIfExists(paths: set<string>, file: string, staging: string): set<string> {
    if file in paths then paths + {Child(staging, file)} else paths
  }

  /** The directory once the staging directory holds the executable, README.md and LICENSE.txt. */
  function Staged(paths: set<string>, p: Platform): set<string> {
    var s1 := paths + {ReleaseDir, StagingDir(p)};
    var s2 := s1 + CopyExe(s1, p);
    CopyIfExists(CopyIfExists(s2, "README.md", StagingDir(p)), "LICENSE.txt", StagingDir(p))
  }

  /** What make_archive stores: the staging directory and everything below it, relative to releases/. */
  function Members(paths: set<string>, staging: string): set<string>
    requires StartsWith(staging, ReleaseDir + "/")
  {
    set q | q in paths && Within(q, staging) :: q[|ReleaseDir| + 1..]
  }

  /** The directory after package_release: the archive added and the staging directory removed. */
  function Packaged(paths: set<string>, p: Platform): set<string> {
    RemoveTree(Staged(paths, p) + {ArchivePath(p)}, StagingDir(p))
  }

  lemma ChildStarts(d: string, n: string)
    ensures StartsWith(Child(d, n), d + "/")
    ensures Child(d, n)[|d| + 1..] == n
  {
    assert Child(d, n) == (d + "/") + n;
  }

  lemma StagingUnderReleases(p: Platform)
    ensures StartsWith(StagingDir(p), ReleaseDir + "/")
  {
    ChildStarts(ReleaseDir, ArchiveBase(p));
  }

  // ---------------------------------------------------------------------
  // create_checksums
  // ---------------------------------------------------------------------

  const ChecksumPath := Child(ReleaseDir, ChecksumName)

  /** q is an entry of dir itself, not deeper. */
  predicate IsEntryOf(q: string, dir: string) {
    StartsWith(q, dir + "/") && '/' !in q[|dir| + 1..]
  }

  /** The names of the entries of a directory. */
  function Names(paths: set<string>, dir: string): set<string> {
    set q | q in paths && IsEntryOf(q, dir) :: q[|dir| + 1..]
  }

  // ---------------------------------------------------------------------
  // main
  // ---------------------------------------------------------------------

  datatype Stage = Clean | Compile | Package | Checksum

  /** The inputs a run of the build script depends on. */
  datatype Inputs = Inputs(
    platform: Platform,
    installed: bool,                     // `import PyInstaller` succeeds
    pipStatus: int,                      // return code of the pip install
    compileStatus: int,                  // return code of pyinstaller
    compiled: set<string>,               // the paths pyinstaller creates, whether or not it succeeds
    order: set<string> -> seq<string>,   // the order in which the system lists a directory's entries
    digest: string -> string)            // the SHA-256 hex digest of a release file

  /** The state of the directory and the record of what a run did. */
  datatype Run = Run(code: int, stages: seq<Stage>, paths: set<string>,
                     members: map<string, set<string>>, texts: map<string, string>)

  /** The directory after pyinstaller ran on the spec file it was given, successfully or not. */
  function Compiled(paths: set<string>, inp: Inputs): set<string> {
    Cleaned(paths) + {SpecName} + inp.compiled
  }

  /** The manifest text create_checksums writes over the given directory. */
  function ChecksumText(paths: set<string>, inp: Inputs): string {
    ManifestText(inp.order(Names(paths + {ChecksumPath}, ReleaseDir)), inp.digest)
  }

  /**
   * main: a failing pip install (check=True) or compiler, or a missing
   * executable, ends the run with status 1 after the stages so far.
   */
  function BuildRun(paths: set<string>, members: map<string, set<string>>, texts: map<string, string>, inp: Inputs): Run {
    if !inp.installed && inp.pipStatus != 0 then Run(1, [], paths, members, texts)
    else if inp.compileStatus != 0 then Run(1, [Clean, Compile], Compiled(paths, inp), members, texts)
    else
      var built := Compiled(paths, inp);
      var p := inp.platform;
      if ExePath(p) !in built then Run(1, [Clean, Compile, Package], built, members, texts)
      else
        StagingUnderReleases(p);
        var packaged := Packaged(built, p);
        Run(0, [Clean, Compile, Package, Checksum], packaged + {ChecksumPath},
            members[ArchivePath(p) := Members(Staged(built, p), StagingDir(p))],
            texts[ChecksumPath := ChecksumText(packaged, inp)])
  }

  // ---------------------------------------------------------------------
  // Properties
  // ---------------------------------------------------------------------

  lemma NotWithinLiteral(p: string, d: string)
    requires |p| >= 1 && |d| >= 1 && p[0] != d[0]
    ensures !Within(p, d)
  {
    assert (d + "/")[0] == d[0];
  }

  /** The cleaning loop over its two directories. */
  lemma CleanedUnfold(paths: set<string>)
    ensures Cleaned(paths) == RemoveIfExists(RemoveIfExists(paths, BuildDir), DistDir) + {ReleaseDir}
  {
    var d := CleanedDirs;
    assert d[..|d| - 1] == [BuildDir];
    assert RemoveAll(paths, [BuildDir]) == RemoveIfExists(RemoveAll(paths, []), BuildDir) by {
      assert [BuildDir][..0] == [];
    }
  }

  /** After a conditional removal, d is gone, and so is everything below it when d existed. */
  lemma RemoveIfExistsFacts(paths: set<string>, d: string)
    ensures RemoveIfExists(paths, d) <= paths
    ensures d !in RemoveIfExists(paths, d)
    ensures forall q :: !Within(q, d) ==> (q in RemoveIfExists(paths, d) <==> q in paths)
    ensures d in paths ==> forall q :: Within(q, d) ==> q !in RemoveIfExists(paths, d)
  {
  }

  /**
   * After cleaning, build/ and dist/ do not exist and releases/ does, and
   * every path outside build/ and dist/ is kept; a missing build/ or dist/
   * is no error.
   */
  lemma CleanedFacts(paths: set<string>)
    ensures BuildDir !in Cleaned(paths) && DistDir !in Cleaned(paths) && ReleaseDir in Cleaned(paths)
    ensures forall q :: !Within(q, BuildDir) && !Within(q, DistDir) ==>
              (q in Cleaned(paths) <==> q in paths || q == ReleaseDir)
  {
    CleanedUnfold(paths);
    var b1 := RemoveIfExists(paths, BuildDir);
    RemoveIfExistsFacts(paths, BuildDir);
    RemoveIfExistsFacts(b1, DistDir);
  }

  /**
   * In a proper tree, where a path below build/ or dist/ only exists
   * together with that directory, nothing below them survives cleaning.
   */
  lemma CleanedTree(paths: set<string>)
    requires forall q :: q in paths && Within(q, BuildDir) ==> BuildDir in paths
    requires forall q :: q in paths && Within(q, DistDir) ==> DistDir in paths
    ensures forall q :: q in Cleaned(paths) ==> !Within(q, BuildDir) && !Within(q, DistDir)
  {
    CleanedUnfold(paths);
    var b1 := RemoveIfExists(paths, BuildDir);
    RemoveIfExistsFacts(paths, BuildDir);
    RemoveIfExistsFacts(b1, DistDir);
    NotWithinLiteral(ReleaseDir, BuildDir);
    NotWithinLiteral(ReleaseDir, DistDir);
  }

  /** A path glued from `dir/` and more lies within dir. */
  lemma GluedWithin(d: string, x: string, u: string)
    ensures Within(Child(d, x) + u, d)
    ensures (Child(d, x) + u)[|d| + 1..] == x + u
  {
    assert Child(d, x) + u == (d + "/") + (x + u);
  }

  /** A sibling with a suffix glued on is not the directory and not below it. */
  lemma SuffixNotWithin(d: string, ext: string)
    requires ext != [] && ext[0] != '/'
    ensures !Within(d + ext, d)
  {
    assert (d + ext)[|d|] == ext[0];
  }

  /** Two children whose names differ in their second character stay apart, whatever follows the first. */
  lemma ChildrenDiffer(d: string, a: string, b: string, u: string)
    requires |a| >= 2 && |b| >= 2 && a[1] != b[1]
    ensures Child(d, a) + u != Child(d, b)
  {
    assert (Child(d, a) + u)[|d| + 2] == a[1];
    assert Child(d, b)[|d| + 2] == b[1];
  }

  /** The archive and releases/ itself are neither the staging directory nor below it. */
  lemma ArchiveOutsideStaging(p: Platform)
    ensures !Within(ArchivePath(p), StagingDir(p))
    ensures !Within(ReleaseDir, StagingDir(p))
  {
    var ext := Extension(FormatOf(p));
    assert ArchivePath(p) == StagingDir(p) + ext;
    SuffixNotWithin(StagingDir(p), ext);
  }

  /** Whatever is put into the staging directory lies within releases/. */
  lemma IntoStaging(p: Platform, u: string)
    ensures Within(StagingDir(p) + u, ReleaseDir)
  {
    GluedWithin(ReleaseDir, ArchiveBase(p), u);
  }

  /** The executable's copy lies within releases/. */
  lemma CopyExeWithin(s1: set<string>, p: Platform)
    ensures forall q :: q in CopyExe(s1, p) ==> Within(q, ReleaseDir)
  {
    var target := Child(StagingDir(p), ExeName(p));
    forall q | q in CopyExe(s1, p) ensures Within(q, ReleaseDir) {
      if p == MacOS {
        var r :| r in s1 && Within(r, ExePath(p)) && q == target + r[|ExePath(p)|..];
        assert q == StagingDir(p) + ("/" + ExeName(p) + r[|ExePath(p)|..]);
        IntoStaging(p, "/" + ExeName(p) + r[|ExePath(p)|..]);
      } else {
        assert q == StagingDir(p) + ("/" + ExeName(p));
        IntoStaging(p, "/" + ExeName(p));
      }
    }
  }

  /** Every path package_release creates lies within releases/. */
  lemma StagedAdds(paths: set<string>, p: Platform)
    ensures forall q :: q in Staged(paths, p) + {ArchivePath(p)} && q !in paths ==> Within(q, ReleaseDir)
    ensures paths <= Staged(paths, p)
    ensures ReleaseDir in Staged(paths, p) && StagingDir(p) in Staged(paths, p)
  {
    var staging := StagingDir(p);
    var s1 := paths + {ReleaseDir, staging};
    IntoStaging(p, "");
    GluedWithin(ReleaseDir, ArchiveName(p), "");
    CopyExeWithin(s1, p);
    assert Child(staging, "README.md") == staging + "/README.md";
    assert Child(staging, "LICENSE.txt") == staging + "/LICENSE.txt";
    IntoStaging(p, "/README.md");
    IntoStaging(p, "/LICENSE.txt");
  }

  lemma StartsWithTrans(s: string, a: string, b: string)
    requires StartsWith(s, a) && StartsWith(a, b)
    ensures StartsWith(s, b)
  {
    assert s[..|b|] == s[..|a|][..|b|];
  }

  /** Whatever lies within the staging directory lies within releases/. */
  lemma StagingInside(q: string, p: Platform)
    requires Within(q, StagingDir(p))
    ensures Within(q, ReleaseDir)
  {
    var staging := StagingDir(p);
    GluedWithin(ReleaseDir, ArchiveBase(p), "");
    GluedWithin(ReleaseDir, ArchiveBase(p), "/");
    assert staging + "/" == Child(ReleaseDir, ArchiveBase(p)) + "/";
    if q != staging {
      StartsWithTrans(q, staging + "/", ReleaseDir + "/");
    }
  }

  /** After packaging, the archive and releases/ exist, and the staging directory and all below it are gone. */
  lemma PackagedArchive(paths: set<string>, p: Platform)
    ensures ArchivePath(p) in Packaged(paths, p) && ReleaseDir in Packaged(paths, p)
    ensures forall q :: Within(q, StagingDir(p)) ==> q !in Packaged(paths, p)
  {
    ArchiveOutsideStaging(p);
    StagedAdds(paths, p);
  }

  /** Packaging leaves every path outside releases/ as it was. */
  lemma PackagedKeepsOutside(paths: set<string>, p: Platform)
    ensures forall q :: !Within(q, ReleaseDir) ==> (q in Packaged(paths, p) <==> q in paths)
  {
    StagedAdds(paths, p);
    forall q | !Within(q, ReleaseDir)
      ensures q in Packaged(paths, p) <==> q in paths
    {
      if Within(q, StagingDir(p)) {
        StagingInside(q, p);
      }
    }
  }

  lemma LiteralNameFacts(p: Platform)
    ensures |ExeName(p)| >= 2 && ExeName(p)[1] == 'F'
    ensures "README.md"[1] == 'E' && "LICENSE.txt"[1] == 'I'
    ensures "README.md"[0] == 'R' && "LICENSE.txt"[0] == 'L' && ReleaseDir[0] == 'r'
  {
    assert ExeName(p)[..|AppName|] == AppName;
  }

  /** A path below releases/ is releases/ joined with its name relative to releases/. */
  lemma Recovered(q: string, d: string)
    requires StartsWith(q, d + "/")
    ensures q == Child(d, q[|d| + 1..])
  {
    assert q == q[..|d| + 1] + q[|d| + 1..];
  }

  lemma ChildOfChild(d: string, b: string, x: string)
    ensures Child(d, Child(b, x)) == Child(Child(d, b), x)
  {
  }

  /** A path in the staging directory is stored under the archive's base name. */
  lemma MemberOf(paths: set<string>, p: Platform, x: string)
    requires Child(StagingDir(p), x) in paths
    ensures StartsWith(StagingDir(p), ReleaseDir + "/")
    ensures Child(ArchiveBase(p), x) in Members(paths, StagingDir(p))
  {
    StagingUnderReleases(p);
    var q := Child(StagingDir(p), x);
    assert q == Child(ReleaseDir, ArchiveBase(p)) + ("/" + x);
    GluedWithin(ReleaseDir, ArchiveBase(p), "/" + x);
    GluedWithin(StagingDir(p), x, "");
    assert q[|ReleaseDir| + 1..] == Child(ArchiveBase(p), x);
  }

  /** A member under the archive's base name comes from the staging directory. */
  lemma MemberSource(paths: set<string>, p: Platform, x: string)
    requires StartsWith(StagingDir(p), ReleaseDir + "/")
    requires Child(ArchiveBase(p), x) in Members(paths, StagingDir(p))
    ensures Child(StagingDir(p), x) in paths
  {
    var q :| q in paths && Within(q, StagingDir(p)) && q[|ReleaseDir| + 1..] == Child(ArchiveBase(p), x);
    StagingInside(q, p);
    assert |q| >= |StagingDir(p)| > |ReleaseDir|;
    Recovered(q, ReleaseDir);
    ChildOfChild(ReleaseDir, ArchiveBase(p), x);
  }

  /** No executable copy is named README.md or LICENSE.txt. */
  lemma CopyExeNotExtra(s1: set<string>, p: Platform, f: string)
    requires f == "README.md" || f == "LICENSE.txt"
    ensures Child(StagingDir(p), f) !in CopyExe(s1, p)
    ensures f !in CopyExe(s1, p)
  {
    LiteralNameFacts(p);
    CopyExeWithin(s1, p);
    var target := Child(StagingDir(p), ExeName(p));
    if p == MacOS {
      forall r | r in s1 && Within(r, ExePath(p))
        ensures target + r[|ExePath(p)|..] != Child(StagingDir(p), f)
      {
        ChildrenDiffer(StagingDir(p), ExeName(p), f, r[|ExePath(p)|..]);
      }
    } else {
      ChildrenDiffer(StagingDir(p), ExeName(p), f, "");
      assert target + "" == target;
    }
    NotWithinLiteral(f, ReleaseDir);
  }

  /** Two extras copied into the same directory land apart. */
  lemma ExtrasApart(d: string)
    ensures Child(d, "README.md") != Child(d, "LICENSE.txt")
  {
    ChildrenDiffer(d, "README.md", "LICENSE.txt", "");
    assert Child(d, "README.md") + "" == Child(d, "README.md");
  }

  /**
   * With no stale staging directory, README.md or LICENSE.txt is in the
   * staging directory exactly when it exists at the top of the project.
   */
  lemma ExtraStaged(paths: set<string>, p: Platform, f: string)
    requires forall q :: q in paths ==> !Within(q, StagingDir(p))
    requires f == "README.md" || f == "LICENSE.txt"
    ensures Child(StagingDir(p), f) in Staged(paths, p) <==> f in paths
  {
    var staging := StagingDir(p);
    var s1 := paths + {ReleaseDir, staging};
    var s2 := s1 + CopyExe(s1, p);
    LiteralNameFacts(p);
    CopyExeNotExtra(s1, p, f);
    ExtrasApart(staging);
    GluedWithin(staging, f, "");
    assert Child(staging, f) + "" == Child(staging, f);
    assert Child(staging, f) != staging by {
      assert |Child(staging, f)| > |staging|;
    }
    assert Child(staging, f) != ReleaseDir by {
      IntoStaging(p, "");
      assert |staging| > |ReleaseDir|;
    }
    assert f != staging && f != ReleaseDir by {
      IntoStaging(p, "");
      assert staging[0] == ReleaseDir[0];
    }
    assert Child(staging, f) !in paths;
    assert f in s2 <==> f in paths;
    assert Child(staging, f) !in s2;
  }

  /**
   * The archive holds the staging directory under the archive's base name,
   * the executable under it, and README.md and LICENSE.txt exactly when the
   * project has them, provided no stale staging directory was left behind.
   */
  lemma ArchiveContents(paths: set<string>, p: Platform)
    requires forall q :: q in paths ==> !Within(q, StagingDir(p))
    requires ExePath(p) in paths
    ensures StartsWith(StagingDir(p), ReleaseDir + "/")
    ensures var m := Members(Staged(paths, p), StagingDir(p));
      && ArchiveBase(p) in m
      && Child(ArchiveBase(p), ExeName(p)) in m
      && (Child(ArchiveBase(p), "README.md") in m <==> "README.md" in paths)
      && (Child(ArchiveBase(p), "LICENSE.txt") in m <==> "LICENSE.txt" in paths)
  {
    var staging := StagingDir(p);
    var st := Staged(paths, p);
    StagingUnderReleases(p);
    StagedAdds(paths, p);
    GluedWithin(ReleaseDir, ArchiveBase(p), "");
    assert staging[|ReleaseDir| + 1..] == ArchiveBase(p) && Within(staging, staging);
    ExeStaged(paths, p);
    MemberOf(st, p, ExeName(p));
    ExtraStaged(paths, p, "README.md");
    ExtraStaged(paths, p, "LICENSE.txt");
    if Child(ArchiveBase(p), "README.md") in Members(st, staging) {
      MemberSource(st, p, "README.md");
    }
    if "README.md" in paths {
      MemberOf(st, p, "README.md");
    }
    if Child(ArchiveBase(p), "LICENSE.txt") in Members(st, staging) {
      MemberSource(st, p, "LICENSE.txt");
    }
    if "LICENSE.txt" in paths {
      MemberOf(st, p, "LICENSE.txt");
    }
  }

  /** The executable's copy is in the staging directory once the executable exists. */
  lemma ExeStaged(paths: set<string>, p: Platform)
    requires ExePath(p) in paths
    ensures Child(StagingDir(p), ExeName(p)) in Staged(paths, p)
  {
    var s1 := paths + {ReleaseDir, StagingDir(p)};
    var target := Child(StagingDir(p), ExeName(p));
    if p == MacOS {
      assert Within(ExePath(p), ExePath(p));
      assert target + ExePath(p)[|ExePath(p)|..] == target;
      assert target in Reroot(s1, ExePath(p), target);
    }
  }

  // ---------------------------------------------------------------------
  // Properties of a whole run
  // ---------------------------------------------------------------------

  const AllStages: seq<Stage> := [Clean, Compile, Package, Checksum]

  /**
   * The stages always run in order and stop at the first failure; the exit
   * status is 0 exactly when all four ran, which happens exactly when the
   * installer (if needed) and the compiler succeed and the executable exists.
   */
  lemma StagesInOrder(paths: set<string>, members: map<string, set<string>>, texts: map<string, string>, inp: Inputs)
    ensures var r := BuildRun(paths, members, texts, inp);
      && (r.code == 0 || r.code == 1)
      && r.stages <= AllStages
      && (r.code == 0 <==> r.stages == AllStages)
      && (r.code == 0 <==> (inp.installed || inp.pipStatus == 0) && inp.compileStatus == 0
                           && ExePath(inp.platform) in Compiled(paths, inp))
  {
    var r := BuildRun(paths, members, texts, inp);
    assert r.stages == [] || r.stages == AllStages[..2] || r.stages == AllStages[..3] || r.stages == AllStages;
  }

  /**
   * A failed run writes no archive and no manifest; a failed install
   * changes nothing at all, and a failed compile stops after cleaning and
   * compiling, leaving the cleaned directory, the spec file and whatever
   * pyinstaller created before it failed.
   */
  lemma FailedRun(paths: set<string>, members: map<string, set<string>>, texts: map<string, string>, inp: Inputs)
    requires BuildRun(paths, members, texts, inp).code != 0
    ensures var r := BuildRun(paths, members, texts, inp);
      && r.code == 1 && r.members == members && r.texts == texts
      && Checksum !in r.stages
      && (Package in r.stages ==> ExePath(inp.platform) !in Compiled(paths, inp))
      && (!inp.installed && inp.pipStatus != 0 ==> r.paths == paths && r.stages == [])
      && ((inp.installed || inp.pipStatus == 0) && inp.compileStatus != 0 ==>
            r.paths == Compiled(paths, inp) && r.stages == [Clean, Compile])
  {
    var r := BuildRun(paths, members, texts, inp);
    if (inp.installed || inp.pipStatus == 0) && inp.compileStatus == 0 {
      assert r.stages == [Clean, Compile, Package];
    }
  }

  /**
   * A successful run leaves the archive and checksums.txt in releases/,
   * removes the staging directory, keeps the top-level files, records the
   * archive's contents and the manifest written over the packaged directory.
   */
  lemma SuccessfulRun(paths: set<string>, members: map<string, set<string>>, texts: map<string, string>, inp: Inputs)
    requires BuildRun(paths, members, texts, inp).code == 0
    ensures var r := BuildRun(paths, members, texts, inp);
      var p := inp.platform;
      var built := Compiled(paths, inp);
      && ExePath(p) in built
      && ArchivePath(p) in r.paths && ChecksumPath in r.paths && ReleaseDir in r.paths
      && (forall q :: Within(q, StagingDir(p)) ==> q !in r.paths)
      && (forall q :: !Within(q, ReleaseDir) ==> (q in r.paths <==> q in built))
      && r.members.Keys == members.Keys + {ArchivePath(p)}
      && r.texts.Keys == texts.Keys + {ChecksumPath}
      && r.texts[ChecksumPath] == ChecksumText(Packaged(built, p), inp)
  {
    var p := inp.platform;
    var built := Compiled(paths, inp);
    PackagedArchive(built, p);
    PackagedKeepsOutside(built, p);
    GluedWithin(ReleaseDir, ChecksumName, "");
    assert ChecksumPath + "" == ChecksumPath;
    ChecksumNotStaged(p);
  }

  /** checksums.txt is not below the staging directory. */
  lemma ChecksumNotStaged(p: Platform)
    ensures !Within(ChecksumPath, StagingDir(p))
  {
    var staging := StagingDir(p);
    GluedWithin(ReleaseDir, ArchiveBase(p), "");
    GluedWithin(ReleaseDir, ChecksumName, "");
    ArchiveBaseStart(p);
    assert staging + "" == staging && ChecksumPath + "" == ChecksumPath;
    assert staging[|ReleaseDir| + 1] == 'R';
    assert ChecksumPath[|ReleaseDir| + 1] == 'c';
  }

  lemma ArchiveBaseStart(p: Platform)
    ensures |ArchiveBase(p)| >= 1 && ArchiveBase(p)[0] == 'R'
  {
    assert ArchiveBase(p)[..|AppName|] == AppName;
  }

  /** The archive is an entry of releases/, listed by its own name. */
  lemma ArchiveIsEntry(paths: set<string>, p: Platform)
    requires ArchivePath(p) in paths
    ensures ArchiveName(p) in Names(paths, ReleaseDir) && IsArchiveName(ArchiveName(p))
  {
    ArchiveNameShape(p);
    GluedWithin(ReleaseDir, ArchiveName(p), "");
    assert ArchivePath(p) + "" == ArchivePath(p);
    assert Extension(FormatOf(p)) == ".zip" || Extension(FormatOf(p)) == ".tar.gz";
  }

  /**
   * A successful run's checksums.txt reads back as the title, the rule, a
   * blank line and an entry `{digest}  {name}` for the release's archive,
   * provided the listing of releases/ that the run takes holds every entry
   * and no listed name and no digest holds a line feed.
   */
  lemma ManifestListsArchive(paths: set<string>, members: map<string, set<string>>, texts: map<string, string>, inp: Inputs)
    requires BuildRun(paths, members, texts, inp).code == 0
    requires var names := Names(Packaged(Compiled(paths, inp), inp.platform) + {ChecksumPath}, ReleaseDir);
      var l := inp.order(names);
      && Elements(l) == names
      && forall i :: 0 <= i < |l| ==> '\n' !in l[i] && '\n' !in inp.digest(l[i])
    ensures var lines := Split(BuildRun(paths, members, texts, inp).texts[ChecksumPath]);
      && |lines| >= 4 && lines[..3] == [Title, Rule(60), ""]
      && EntryLine(inp.digest, ArchiveName(inp.platform)) in lines
  {
    var p := inp.platform;
    var built := Compiled(paths, inp);
    var packaged := Packaged(built, p);
    SuccessfulRun(paths, members, texts, inp);
    PackagedArchive(built, p);
    ArchiveIsEntry(packaged + {ChecksumPath}, p);
    var listing := inp.order(Names(packaged + {ChecksumPath}, ReleaseDir));
    assert ArchiveName(p) in Elements(listing);
    ManifestHasEntry(listing, inp.digest, ArchiveName(p));
  }

  /** BuildRun's four outcomes, one per stage that can end the run. */
  lemma RunOutcomes(paths: set<string>, members: map<string, set<string>>, texts: map<string, string>, inp: Inputs)
    ensures var r, built, p := BuildRun(paths, members, texts, inp), Compiled(paths, inp), inp.platform;
      && (!inp.installed && inp.pipStatus != 0 ==> r == Run(1, [], paths, members, texts))
      && ((inp.installed || inp.pipStatus == 0) && inp.compileStatus != 0 ==>
            r == Run(1, [Clean, Compile], built, members, texts))
      && ((inp.installed || inp.pipStatus == 0) && inp.compileStatus == 0 && ExePath(p) !in built ==>
            r == Run(1, [Clean, Compile, Package], built, members, texts))
      && ((inp.installed || inp.pipStatus == 0) && inp.compileStatus == 0 && ExePath(p) in built ==>
            StartsWith(StagingDir(p), ReleaseDir + "/")
            && r == Run(0, AllStages, Packaged(built, p) + {ChecksumPath},
                        members[ArchivePath(p) := Members(Staged(built, p), StagingDir(p))],
                        texts[ChecksumPath := ChecksumText(Packaged(built, p), inp)]))
  {
    StagingUnderReleases(inp.platform);
  }

  /** The class that holds the working directory as the build script sees it. */
  class Workspace {
    var paths: set<string>
    var members: map<string, set<string>>   // the member list of every archive written, by path
    var texts: map<string, string>          // the text of every file the script writes itself

    constructor(paths0: set<string>)
      ensures paths == paths0 && members == map[] && texts == map[]
    {
      paths := paths0;
      members := map[];
      texts := map[];
    }

    /** clean_build_dirs. */
    method CleanBuildDirs()
      modifies this
      ensures paths == Cleaned(old(paths))
      ensures members == old(members) && texts == old(texts)
    {
      var dirs := CleanedDirs;
      var i := 0;
      while i < |dirs|
        invariant 0 <= i <= |dirs|
        invariant paths == RemoveAll(old(paths), dirs[..i])
        invariant members == old(members) && texts == old(texts)
      {
        assert dirs[..i + 1][..i] == dirs[..i];
        var d := dirs[i];
        if d in paths {
          paths := RemoveTree(paths, d);
        }
        i := i + 1;
      }
      assert dirs[..i] == dirs;
      paths := paths + {ReleaseDir};
    }

    /**
     * package_release: a missing executable aborts with no change; otherwise
     * the staging directory is filled and archived, then removed.
     */
    method PackageRelease(p: Platform) returns (r: Result<string, string>)
      modifies this
      ensures ExePath(p) !in old(paths) ==> r == Err(ExePath(p)) && paths == old(paths)
      ensures ExePath(p) in old(paths) ==> r == Ok(ArchivePath(p)) && paths == Packaged(old(paths), p)
      ensures StartsWith(StagingDir(p), ReleaseDir + "/")
      ensures members == if r.Ok? then old(members)[ArchivePath(p) := Members(Staged(old(paths), p), StagingDir(p))]
                         else old(members)
      ensures texts == old(texts)
    {
      StagingUnderReleases(p);
      var exePath := ExePath(p);
      if exePath !in paths {
        return Err(exePath);
      }
      var staging := StagingDir(p);
      paths := paths + {ReleaseDir, staging};
      paths := paths + CopyExe(paths, p);
      var extra := ["README.md", "LICENSE.txt"];
      var i := 0;
      var s2 := paths;
      while i < |extra|
        invariant 0 <= i <= |extra|
        invariant members == old(members) && texts == old(texts)
        invariant i == 0 ==> paths == s2
        invariant i == 1 ==> paths == CopyIfExists(s2, "README.md", staging)
        invariant i == 2 ==> paths == CopyIfExists(CopyIfExists(s2, "README.md", staging), "LICENSE.txt", staging)
      {
        if extra[i] in paths {
          paths := paths + {Child(staging, extra[i])};
        }
        i := i + 1;
      }
      var archivePath := ArchivePath(p);
      members := members[archivePath := Members(paths, staging)];
      paths := paths + {archivePath};
      paths := RemoveTree(paths, staging);
      return Ok(archivePath);
    }

    /** create_checksums: checksums.txt is created first, then filled from the two globs. */
    method CreateChecksums(order: set<string> -> seq<string>, digest: string -> string)
      modifies this
      ensures paths == old(paths) + {ChecksumPath}
      ensures members == old(members)
      ensures texts == old(texts)[ChecksumPath := ManifestText(order(Names(old(paths) + {ChecksumPath}, ReleaseDir)), digest)]
    {
      paths := paths + {ChecksumPath};
      var listing := order(Names(paths, ReleaseDir));
      var text := WriteManifest(listing, digest);
      texts := texts[ChecksumPath := text];
    }

    /** main of the build script, with create_spec_file's output named but not spelled out. */
    method Pipeline(inp: Inputs) returns (code: int, stages: seq<Stage>)
      modifies this
      ensures code == BuildRun(old(paths), old(members), old(texts), inp).code
      ensures stages == BuildRun(old(paths), old(members), old(texts), inp).stages
      ensures paths == BuildRun(old(paths), old(members), old(texts), inp).paths
      ensures members == BuildRun(old(paths), old(members), old(texts), inp).members
      ensures texts == BuildRun(old(paths), old(members), old(texts), inp).texts
    {
      ghost var paths0, members0, texts0 := paths, members, texts;
      RunOutcomes(paths0, members0, texts0, inp);
      if !inp.installed && inp.pipStatus != 0 {
        return 1, [];
      }
      CleanBuildDirs();
      paths := paths + {SpecName};
      paths := paths + inp.compiled;
      if inp.compileStatus != 0 {
        return 1, [Clean, Compile];
      }
      var archive := PackageRelease(inp.platform);
      if archive.Err? {
        return 1, [Clean, Compile, Package];
      }
      CreateChecksums(inp.order, inp.digest);
      return 0, AllStages;
    }
  }
}
