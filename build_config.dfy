/**
 * The fixed configuration of the build script and the decisions it derives
 * from the platform name: the PyInstaller argument list of
 * get_platform_specific_args, and the executable and archive names and
 * archive format of package_release.
 */
module BuildConfig {
  import opened Results
  import opened Text

  const AppName := "RFTX_Tuning"
  const AppVersion := "0.0.1"
  const MainScript := "main.py"

  /**
   * The platform as the script classifies `platform.system().lower()`:
   * three recognised names, and every other name kept as it is.
   */
  datatype Platform = Windows | MacOS | Linux | Unknown(name: string)

  /** IS_WINDOWS, IS_MACOS and IS_LINUX of the lowercased system name. */
  function PlatformOf(system: string): (p: Platform)
    ensures p == Windows <==> Lower(system) == "windows"
    ensures p == MacOS <==> Lower(system) == "darwin"
    ensures p == Linux <==> Lower(system) == "linux"
    ensures p.Unknown? ==> p.name == Lower(system)
  {
    var name := Lower(system);
    if name == "windows" then Windows
    else if name == "darwin" then MacOS
    else if name == "linux" then Linux
    else Unknown(name)
  }

  // ---------------------------------------------------------------------
  // get_platform_specific_args
  // ---------------------------------------------------------------------

  /** The options every build passes. */
  const CommonArgs: seq<string> := ["--name", AppName, "--onefile", "--windowed", "--clean", "--noconfirm"]

  /** The two data files, each as `source{pathsep}.`. */
  function DataArgs(pathsep: string): seq<string> {
    ["--add-data", "README.md" + pathsep + ".", "--add-data", "pyproject.toml" + pathsep + "."]
  }

  /** The hidden imports, each after its own flag. */
  const HiddenImports: seq<string> := [
    "--hidden-import", "PyQt5",
    "--hidden-import", "PyQt5.QtCore",
    "--hidden-import", "PyQt5.QtGui",
    "--hidden-import", "PyQt5.QtWidgets",
    "--hidden-import", "serial",
    "--hidden-import", "serial.tools.list_ports"
  ]

  /** `value if os.path.exists(value) else None`. */
  function IfExists(present: string -> bool, value: string): Option<string> {
    if present(value) then Some(value) else None
  }

  /** The platform list before the None filter; `present` answers os.path.exists. */
  function RawPlatformArgs(p: Platform, present: string -> bool): seq<Option<string>> {
    match p
    case Windows =>
      [Some("--icon"), IfExists(present, "icon.ico"), Some("--version-file"), IfExists(present, "version_info.txt")]
    case MacOS =>
      [Some("--icon"), IfExists(present, "icon.icns"), Some("--osx-bundle-identifier"), Some("com.rftx.tuning"),
       Some("--target-arch"), Some("universal2")]
    case Linux => [Some("--icon"), IfExists(present, "icon.png")]
    case Unknown(_) => []
  }

  /** `[arg for arg in args if arg is not None]`. */
  function FilterNone(xs: seq<Option<string>>): (r: seq<string>)
    ensures |r| <= |xs|
  {
    if xs == [] then []
    else match xs[0]
      case None => FilterNone(xs[1..])
      case Some(x) => [x] + FilterNone(xs[1..])
  }

  /** get_platform_specific_args: common, data, filtered platform options, hidden imports, main.py. */
  function PyInstallerArgs(p: Platform, present: string -> bool, pathsep: string): seq<string> {
    CommonArgs + DataArgs(pathsep) + FilterNone(RawPlatformArgs(p, present)) + HiddenImports + [MainScript]
  }

  /** Filtering distributes over concatenation, so it keeps the order of what it keeps. */
  lemma {:induction false} FilterNoneAppend(xs: seq<Option<string>>, ys: seq<Option<string>>)
    ensures FilterNone(xs + ys) == FilterNone(xs) + FilterNone(ys)
  {
    if xs != [] {
      FilterNoneAppend(xs[1..], ys);
      var zs := xs + ys;
      assert zs != [] && zs[0] == xs[0] && zs[1..] == xs[1..] + ys;
      match xs[0]
      case None =>
        assert FilterNone(zs) == FilterNone(zs[1..]);
        assert FilterNone(xs) == FilterNone(xs[1..]);
      case Some(x) =>
        assert FilterNone(zs) == [x] + FilterNone(zs[1..]);
        assert FilterNone(xs) == [x] + FilterNone(xs[1..]);
    } else {
      assert xs + ys == ys;
    }
  }

  /** The filter keeps exactly the present values. */
  lemma {:induction false} FilterNoneMembers(xs: seq<Option<string>>, x: string)
    ensures x in FilterNone(xs) <==> Some(x) in xs
  {
    if xs != [] {
      FilterNoneMembers(xs[1..], x);
      assert xs == [xs[0]] + xs[1..];
    }
  }

  /** A list without None passes the filter unchanged. */
  lemma {:induction false} FilterNoneAllPresent(xs: seq<Option<string>>)
    requires forall i :: 0 <= i < |xs| ==> xs[i].Some?
    ensures |FilterNone(xs)| == |xs|
    ensures forall i :: 0 <= i < |xs| ==> FilterNone(xs)[i] == xs[i].value
  {
    if xs != [] {
      FilterNoneAllPresent(xs[1..]);
    }
  }

  lemma FilterPair(a: string, b: Option<string>)
    ensures FilterNone([Some(a), b]) == [a] + (if b.Some? then [b.value] else [])
  {
    assert [Some(a), b][1..] == [b];
    assert [b][1..] == [];
  }

  /** The platform part of the list; on an unknown platform it is empty. */
  lemma PlatformPart(p: Platform, present: string -> bool)
    ensures var part := FilterNone(RawPlatformArgs(p, present));
      && (p.Unknown? <==> part == [])
      && (p.Linux? ==> part == ["--icon"] + (if present("icon.png") then ["icon.png"] else []))
      && (p.Windows? ==>
            part == ["--icon"] + (if present("icon.ico") then ["icon.ico"] else [])
                    + ["--version-file"] + (if present("version_info.txt") then ["version_info.txt"] else []))
      && (p.MacOS? ==>
            part == ["--icon"] + (if present("icon.icns") then ["icon.icns"] else [])
                    + ["--osx-bundle-identifier", "com.rftx.tuning", "--target-arch", "universal2"])
  {
    var raw := RawPlatformArgs(p, present);
    match p
    case Linux => FilterPair("--icon", IfExists(present, "icon.png"));
    case Windows =>
      assert raw == [Some("--icon"), IfExists(present, "icon.ico")] + [Some("--version-file"), IfExists(present, "version_info.txt")];
      FilterNoneAppend([Some("--icon"), IfExists(present, "icon.ico")], [Some("--version-file"), IfExists(present, "version_info.txt")]);
      FilterPair("--icon", IfExists(present, "icon.ico"));
      FilterPair("--version-file", IfExists(present, "version_info.txt"));
    case MacOS =>
      var tail := [Some("--osx-bundle-identifier"), Some("com.rftx.tuning"), Some("--target-arch"), Some("universal2")];
      assert raw == [Some("--icon"), IfExists(present, "icon.icns")] + tail;
      FilterNoneAppend([Some("--icon"), IfExists(present, "icon.icns")], tail);
      FilterPair("--icon", IfExists(present, "icon.icns"));
      FilterNoneAllPresent(tail);
    case Unknown(_) =>
  }

  /** The position where the platform part starts in the argument list. */
  const PlatformStart := |CommonArgs| + 4

  /**
   * The list starts with the common and data options, ends with the
   * hidden imports and main.py, and holds the platform part in between.
   */
  lemma ArgsLayout(p: Platform, present: string -> bool, pathsep: string)
    ensures var args := PyInstallerArgs(p, present, pathsep);
      var part := FilterNone(RawPlatformArgs(p, present));
      && |args| == PlatformStart + |part| + |HiddenImports| + 1
      && args[..|CommonArgs|] == CommonArgs
      && args[|CommonArgs|..PlatformStart] == DataArgs(pathsep)
      && args[PlatformStart..PlatformStart + |part|] == part
      && args[PlatformStart + |part|..|args| - 1] == HiddenImports
      && args[|args| - 1] == MainScript
  {
    var part := FilterNone(RawPlatformArgs(p, present));
    var args := PyInstallerArgs(p, present, pathsep);
    var front := CommonArgs + DataArgs(pathsep);
    assert args == front + part + HiddenImports + [MainScript];
    assert args[..|CommonArgs|] == front[..|CommonArgs|];
    assert args[|CommonArgs|..PlatformStart] == front[|CommonArgs|..];
  }

  /**
   * On the three recognised platforms, `--icon` opens the platform part
   * whichever files exist; when the Windows icon is missing, the flag's
   * value slot is taken by the next flag.
   */
  lemma IconFlagAlwaysPresent(p: Platform, present: string -> bool, pathsep: string)
    requires !p.Unknown?
    ensures var args := PyInstallerArgs(p, present, pathsep);
      && PlatformStart + 1 < |args|
      && args[PlatformStart] == "--icon"
      && (p.Windows? && !present("icon.ico") ==> args[PlatformStart + 1] == "--version-file")
      && (p.MacOS? && !present("icon.icns") ==> args[PlatformStart + 1] == "--osx-bundle-identifier")
      && (p.Linux? && !present("icon.png") ==> args[PlatformStart + 1] == "--hidden-import")
  {
    var part := FilterNone(RawPlatformArgs(p, present));
    ArgsLayout(p, present, pathsep);
    PlatformPart(p, present);
    var args := PyInstallerArgs(p, present, pathsep);
    assert args[PlatformStart] == args[PlatformStart..PlatformStart + |part|][0];
    if |part| >= 2 {
      assert args[PlatformStart + 1] == args[PlatformStart..PlatformStart + |part|][1];
    } else {
      assert args[PlatformStart + 1] == args[PlatformStart + |part|..|args| - 1][0];
    }
  }

  /** On macOS the bundle identifier and the target architecture follow their flags, whichever files exist. */
  lemma MacOptionPairs(present: string -> bool, pathsep: string)
    ensures var args := PyInstallerArgs(MacOS, present, pathsep);
      exists i :: PlatformStart <= i && i + 3 < |args|
        && args[i] == "--osx-bundle-identifier" && args[i + 1] == "com.rftx.tuning"
        && args[i + 2] == "--target-arch" && args[i + 3] == "universal2"
  {
    var part := FilterNone(RawPlatformArgs(MacOS, present));
    ArgsLayout(MacOS, present, pathsep);
    PlatformPart(MacOS, present);
    var args := PyInstallerArgs(MacOS, present, pathsep);
    var slice := args[PlatformStart..PlatformStart + |part|];
    var i := PlatformStart + |part| - 4;
    assert slice[|part| - 4] == "--osx-bundle-identifier" && slice[|part| - 3] == "com.rftx.tuning";
    assert slice[|part| - 2] == "--target-arch" && slice[|part| - 1] == "universal2";
    assert args[i] == slice[|part| - 4] && args[i + 1] == slice[|part| - 3];
    assert args[i + 2] == slice[|part| - 2] && args[i + 3] == slice[|part| - 1];
  }

  /** An unknown platform gets no platform options at all: the list is the fixed options and main.py. */
  lemma UnknownPlatformArgs(name: string, present: string -> bool, pathsep: string)
    ensures PyInstallerArgs(Unknown(name), present, pathsep) == CommonArgs + DataArgs(pathsep) + HiddenImports + [MainScript]
  {
  }

  // ---------------------------------------------------------------------
  // package_release: names and formats
  // ---------------------------------------------------------------------

  datatype ArchiveFormat = Zip | GzTar

  /** The executable PyInstaller leaves in dist/. */
  function ExeName(p: Platform): string {
    match p
    case Windows => AppName + ".exe"
    case MacOS => AppName + ".app"
    case _ => AppName
  }

  /** archive_name: the staging directory and the archive's base name. */
  function ArchiveBase(p: Platform): string {
    AppName + "-v" + AppVersion
    + match p
      case Windows => "-Windows-x64"
      case MacOS => "-macOS-Universal"
      case _ => "-Linux-x64"
  }

  /** ZIP on Windows, gzipped tar everywhere else. */
  function FormatOf(p: Platform): ArchiveFormat {
    if p == Windows then Zip else GzTar
  }

  function Extension(f: ArchiveFormat): string {
    match f
    case Zip => ".zip"
    case GzTar => ".tar.gz"
  }

  /** The archive file make_archive creates: the base name and the format's extension. */
  function ArchiveName(p: Platform): string {
    ArchiveBase(p) + Extension(FormatOf(p))
  }

  /** The archive names in full; any unrecognised platform packages exactly as Linux does. */
  lemma WindowsArchive()
    ensures ArchiveName(Windows) == "RFTX_Tuning-v0.0.1-Windows-x64.zip"
  {
  }

  lemma MacArchive()
    ensures ArchiveName(MacOS) == "RFTX_Tuning-v0.0.1-macOS-Universal.tar.gz"
  {
  }

  lemma LinuxArchive()
    ensures ArchiveName(Linux) == "RFTX_Tuning-v0.0.1-Linux-x64.tar.gz"
  {
  }

  lemma UnknownPackagesAsLinux(name: string)
    ensures ArchiveName(Unknown(name)) == ArchiveName(Linux) && ExeName(Unknown(name)) == ExeName(Linux)
    ensures FormatOf(Unknown(name)) == GzTar
  {
  }

  /** The three executable names. */
  lemma ExeNames()
    ensures ExeName(Windows) == "RFTX_Tuning.exe"
    ensures ExeName(MacOS) == "RFTX_Tuning.app"
    ensures ExeName(Linux) == "RFTX_Tuning"
  {
  }

  /** The archive name ends in its format's extension and has no directory part. */
  lemma ArchiveNameShape(p: Platform)
    ensures EndsWith(ArchiveName(p), Extension(FormatOf(p)))
    ensures StartsWith(ArchiveName(p), ArchiveBase(p))
    ensures '/' !in ArchiveName(p)
  {
    var n := ArchiveName(p);
    assert n[|n| - |Extension(FormatOf(p))|..] == Extension(FormatOf(p));
    assert n[..|ArchiveBase(p)|] == ArchiveBase(p);
  }
}
