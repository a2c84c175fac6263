/**
 * Semantic versions of the version-bump script: parsing a version string the
 * way `re.match(r'(\d+)\.(\d+)\.(\d+)', s)` does (only a prefix has to match),
 * formatting a triple back, and the major/minor/patch bump rule.
 */
module Versions {
  import opened Results
  import opened Text

  datatype Version = Version(major: nat, minor: nat, patch: nat)

  datatype VersionError =
    | InvalidFormat(text: string)     // the `ValueError` of parse_version
    | InvalidBumpType(kind: string)   // the `ValueError` of bump_version

  datatype BumpKind = Major | Minor | Patch

  /** Lexicographic order on (major, minor, patch). */
  predicate Less(a: Version, b: Version) {
    a.major < b.major
    || (a.major == b.major && a.minor < b.minor)
    || (a.major == b.major && a.minor == b.minor && a.patch < b.patch)
  }

  /**
   * `s` starts with `digits.digits.digits`, the first numeral being s[..i],
   * the second s[i+1..j] and the third s[j+1..k].
   */
  predicate SplitsAsVersion(s: string, i: nat, j: nat, k: nat) {
    && 0 < i && i + 1 < j && j + 1 < k <= |s|
    && AllDigits(s[..i]) && s[i] == '.'
    && AllDigits(s[i + 1..j]) && s[j] == '.'
    && AllDigits(s[j + 1..k])
  }

  /**
   * Where the three greedy digit runs of `(\d+)\.(\d+)\.(\d+)` end when the
   * pattern is matched at the start of `s`: the two dots at i and j, the end of
   * the third numeral at k.
   */
  function VersionBounds(s: string): (r: Option<(nat, nat, nat)>)
    ensures r.Some? ==> SplitsAsVersion(s, r.value.0, r.value.1, r.value.2)
  {
    var i := DigitRun(s);
    if i == 0 || i == |s| || s[i] != '.' then None
    else
      var j := i + 1 + DigitRun(s[i + 1..]);
      if j == i + 1 || j == |s| || s[j] != '.' then None
      else
        var k := j + 1 + DigitRun(s[j + 1..]);
        if k == j + 1 then None
        else
          DigitRunDigits(s);
          DigitRunDigits(s[i + 1..]);
          DigitRunDigits(s[j + 1..]);
          assert s[i + 1..j] == s[i + 1..][..j - i - 1];
          assert s[j + 1..k] == s[j + 1..][..k - j - 1];
          Some((i, j, k))
  }

  /** parse_version: the three numerals at the start of `s`, whatever follows them. */
  function ParseVersion(s: string): (r: Result<Version, VersionError>)
    ensures r.Err? ==> r.error == InvalidFormat(s)
  {
    match VersionBounds(s)
    case None => Err(InvalidFormat(s))
    case Some((i, j, k)) => Ok(Version(Value(s[..i]), Value(s[i + 1..j]), Value(s[j + 1..k])))
  }

  /** format_version: `"{major}.{minor}.{patch}"`. */
  function FormatVersion(v: Version): string {
    NatToString(v.major) + "." + NatToString(v.minor) + "." + NatToString(v.patch)
  }

  /** The three numerals of a formatted version sit where SplitsAsVersion expects them. */
  lemma FormatVersionSplits(v: Version)
    ensures var s := FormatVersion(v);
      var i := |NatToString(v.major)|;
      var j := i + 1 + |NatToString(v.minor)|;
      SplitsAsVersion(s, i, j, |s|)
      && s[..i] == NatToString(v.major)
      && s[i + 1..j] == NatToString(v.minor)
      && s[j + 1..] == NatToString(v.patch)
  {
    Pieces(NatToString(v.major), NatToString(v.minor), NatToString(v.patch));
  }

  /** A digit run that is followed by a non-digit is exactly what DigitRun measures. */
  lemma DigitRunExact(s: string, n: nat)
    requires n <= |s| && AllDigits(s[..n]) && (n < |s| ==> !IsDigit(s[n]))
    ensures DigitRun(s) == n
    decreases n
  {
    if n > 0 {
      assert IsDigit(s[..n][0]);
      assert s[1..][..n - 1] == s[..n][1..];
      DigitRunExact(s[1..], n - 1);
    }
  }

  /** A match of `digits.digits.digits` with a maximal third numeral is the one VersionBounds finds. */
  lemma {:induction false} VersionBoundsExact(s: string, i: nat, j: nat, k: nat)
    requires SplitsAsVersion(s, i, j, k) && (k == |s| || !IsDigit(s[k]))
    ensures VersionBounds(s) == Some((i, j, k))
  {
    DigitRunExact(s, i);
    var t := s[i + 1..];
    assert t[..j - i - 1] == s[i + 1..j];
    assert j - i - 1 < |t| && t[j - i - 1] == s[j];
    DigitRunExact(t, j - i - 1);
    var u := s[j + 1..];
    assert u[..k - j - 1] == s[j + 1..k];
    assert k - j - 1 < |u| ==> u[k - j - 1] == s[k];
    DigitRunExact(u, k - j - 1);
  }

  /**
   * parse_version accepts every string that STARTS with `digits.digits.digits`
   * and reads the numerals of the longest such prefix.
   */
  lemma {:induction false} ParseVersionAccepts(s: string, i: nat, j: nat, k: nat)
    requires SplitsAsVersion(s, i, j, k) && (k == |s| || !IsDigit(s[k]))
    ensures ParseVersion(s) == Ok(Version(Value(s[..i]), Value(s[i + 1..j]), Value(s[j + 1..k])))
  {
    VersionBoundsExact(s, i, j, k);
  }

  /** Any `digits.digits.digits` prefix makes VersionBounds succeed. */
  lemma {:induction false} VersionBoundsFinds(s: string, i: nat, j: nat, k: nat)
    requires SplitsAsVersion(s, i, j, k)
    ensures VersionBounds(s).Some?
  {
    DigitRunExact(s, i);
    var t := s[i + 1..];
    assert t[..j - i - 1] == s[i + 1..j];
    assert j - i - 1 < |t| && t[j - i - 1] == s[j];
    DigitRunExact(t, j - i - 1);
    assert s[j + 1..][0] == s[j + 1..k][0];
  }

  /** parse_version succeeds exactly on strings starting with `digits.digits.digits`; all others raise. */
  lemma {:induction false} ParseVersionRejects(s: string)
    ensures ParseVersion(s).Ok? <==> exists i, j, k :: SplitsAsVersion(s, i, j, k)
  {
    if ParseVersion(s).Ok? {
      var (i, j, k) := VersionBounds(s).value;
      assert SplitsAsVersion(s, i, j, k);
    }
    forall i, j, k | SplitsAsVersion(s, i, j, k) ensures ParseVersion(s).Ok? {
      VersionBoundsFinds(s, i, j, k);
    }
  }

  /** Where the pieces of `a.b.c` sit. */
  lemma Pieces(a: string, b: string, c: string)
    ensures var s := a + "." + b + "." + c;
      && s[..|a|] == a && s[|a|] == '.' && s[|a| + 1..|a| + 1 + |b|] == b
      && s[|a| + 1 + |b|] == '.' && s[|a| + 1 + |b| + 1..] == c
  {
    var r := a + ".";
    var q := r + b;
    var p := q + ".";
    var s := p + c;
    assert s[..|p|] == p && s[|p|..] == c;
    assert p[..|q|] == q && p[|q|] == '.';
    assert q[..|r|] == r && q[|r|..] == b;
    assert r[..|a|] == a && r[|a|] == '.';
    assert s[..|a|] == p[..|a|] == q[..|a|] == r[..|a|];
    assert s[|r|..|q|] == p[|r|..|q|] == q[|r|..];
  }

  /** Three numerals joined by dots parse to their values. */
  lemma {:induction false} ParsePieces(a: string, b: string, c: string)
    requires |a| >= 1 && |b| >= 1 && |c| >= 1 && AllDigits(a) && AllDigits(b) && AllDigits(c)
    ensures ParseVersion(a + "." + b + "." + c) == Ok(Version(Value(a), Value(b), Value(c)))
  {
    var s := a + "." + b + "." + c;
    var i, j := |a|, |a| + 1 + |b|;
    Pieces(a, b, c);
    assert s[j + 1..|s|] == s[j + 1..];
    assert SplitsAsVersion(s, i, j, |s|);
    VersionBoundsExact(s, i, j, |s|);
  }

  /** Round trip: formatting a version and parsing it back gives the same triple. */
  lemma {:induction false} ParseFormat(v: Version)
    ensures ParseVersion(FormatVersion(v)) == Ok(v)
  {
    ParsePieces(NatToString(v.major), NatToString(v.minor), NatToString(v.patch));
    ValueOfNatToString(v.major);
    ValueOfNatToString(v.minor);
    ValueOfNatToString(v.patch);
  }

  /** A version string without leading zeros and without a tail: `M.m.p`. */
  predicate CanonicalVersion(s: string, i: nat, j: nat) {
    SplitsAsVersion(s, i, j, |s|)
    && Canonical(s[..i]) && Canonical(s[i + 1..j]) && Canonical(s[j + 1..])
  }

  /** Round trip the other way: a canonical version string survives parse then format. */
  lemma {:induction false} FormatParse(s: string, i: nat, j: nat)
    requires CanonicalVersion(s, i, j)
    ensures ParseVersion(s).Ok? && FormatVersion(ParseVersion(s).value) == s
  {
    var a, b, c := s[..i], s[i + 1..j], s[j + 1..];
    assert s == a + "." + b + "." + c;
    ParsePieces(a, b, c);
    NatToStringOfValue(a);
    NatToStringOfValue(b);
    NatToStringOfValue(c);
  }

  /** The bump_type argument: exactly "major", "minor" and "patch" are recognised. */
  function ParseBumpKind(t: string): (k: Option<BumpKind>)
    ensures k.Some? <==> t in {"major", "minor", "patch"}
  {
    if t == "major" then Some(Major)
    else if t == "minor" then Some(Minor)
    else if t == "patch" then Some(Patch)
    else None
  }

  /** The bump rule: raise the chosen component by one and reset the lower ones. */
  function Next(v: Version, kind: BumpKind): (r: Version)
    ensures Less(v, r)
    ensures kind == Major ==> r.major == v.major + 1 && r.minor == 0 && r.patch == 0
    ensures kind == Minor ==> r.major == v.major && r.minor == v.minor + 1 && r.patch == 0
    ensures kind == Patch ==> r.major == v.major && r.minor == v.minor && r.patch == v.patch + 1
  {
    match kind
    case Major => Version(v.major + 1, 0, 0)
    case Minor => Version(v.major, v.minor + 1, 0)
    case Patch => Version(v.major, v.minor, v.patch + 1)
  }

  /**
   * `w` lies above `v` and differs from it in the bumped component or a
   * higher one.
   */
  predicate BumpedAt(v: Version, w: Version, kind: BumpKind) {
    Less(v, w)
    && match kind
       case Major => w.major != v.major
       case Minor => w.major != v.major || w.minor != v.minor
       case Patch => true
  }

  /** Next(v, kind) is the least version above v that changes the bumped component or a higher one. */
  lemma NextIsLeast(v: Version, kind: BumpKind, w: Version)
    requires BumpedAt(v, w, kind)
    ensures BumpedAt(v, Next(v, kind), kind)
    ensures Next(v, kind) == w || Less(Next(v, kind), w)
  {
  }

  /**
   * bump_version: parse first (so a malformed version wins over a bad bump
   * type), then apply the rule and format the result.
   */
  function BumpVersion(version: string, bumpType: string): (r: Result<string, VersionError>)
    ensures ParseVersion(version).Err? ==> r == Err(InvalidFormat(version))
    ensures (ParseVersion(version).Ok? && bumpType !in {"major", "minor", "patch"})
              ==> r == Err(InvalidBumpType(bumpType))
    ensures r.Ok? <==> ParseVersion(version).Ok? && bumpType in {"major", "minor", "patch"}
    ensures r.Ok? ==> ParseVersion(r.value).Ok?
                      && ParseVersion(r.value).value == Next(ParseVersion(version).value, ParseBumpKind(bumpType).value)
                      && Less(ParseVersion(version).value, ParseVersion(r.value).value)
  {
    match ParseVersion(version)
    case Err(e) => Err(e)
    case Ok(v) =>
      match ParseBumpKind(bumpType)
      case None => Err(InvalidBumpType(bumpType))
      case Some(kind) =>
        ParseFormat(Next(v, kind));
        Ok(FormatVersion(Next(v, kind)))
  }

  /** A version with single-digit components formats to five characters. */
  lemma FormatSingleDigits(a: nat, b: nat, c: nat)
    requires a < 10 && b < 10 && c < 10
    ensures FormatVersion(Version(a, b, c)) == [DigitChar(a), '.', DigitChar(b), '.', DigitChar(c)]
  {
  }

  /** "1.2.3" parses to (1, 2, 3). */
  lemma ParseOneTwoThree()
    ensures ParseVersion("1.2.3") == Ok(Version(1, 2, 3))
  {
    FormatSingleDigits(1, 2, 3);
    ParseFormat(Version(1, 2, 3));
  }

  /** Worked example: a patch bump turns 1.2.3 into 1.2.4. */
  lemma PatchExample()
    ensures BumpVersion("1.2.3", "patch") == Ok("1.2.4")
  {
    ParseOneTwoThree();
    assert ParseBumpKind("patch") == Some(Patch);
    assert Next(Version(1, 2, 3), Patch) == Version(1, 2, 4);
    FormatSingleDigits(1, 2, 4);
  }

  /** Worked example: a minor bump turns 1.2.3 into 1.3.0. */
  lemma MinorExample()
    ensures BumpVersion("1.2.3", "minor") == Ok("1.3.0")
  {
    ParseOneTwoThree();
    FormatSingleDigits(1, 3, 0);
  }

  /** Worked example: a major bump turns 1.2.3 into 2.0.0. */
  lemma MajorExample()
    ensures BumpVersion("1.2.3", "major") == Ok("2.0.0")
  {
    ParseOneTwoThree();
    FormatSingleDigits(2, 0, 0);
  }

  lemma ValueOfDigit(c: char)
    requires IsDigit(c)
    ensures Value([c]) == DigitValue(c)
  {
    assert [c][..0] == [];
  }

  /** The prefix quirk: `"1.2.3" + tail` parses to (1, 2, 3) when the tail does not start with a digit. */
  lemma PrefixQuirk(tail: string)
    requires tail == [] || !IsDigit(tail[0])
    ensures ParseVersion("1.2.3" + tail) == Ok(Version(1, 2, 3))
  {
    var s := "1.2.3" + tail;
    assert s[..1] == "1" && s[2..3] == "2" && s[4..5] == "3";
    ValueOfDigit('1');
    ValueOfDigit('2');
    ValueOfDigit('3');
    assert SplitsAsVersion(s, 1, 3, 5);
    ParseVersionAccepts(s, 1, 3, 5);
  }

  /** Both quirky inputs of the prefix match: "1.2.3abc" and "1.2.3.4" parse to (1, 2, 3). */
  lemma PrefixQuirkExamples()
    ensures ParseVersion("1.2.3abc") == Ok(Version(1, 2, 3))
    ensures ParseVersion("1.2.3.4") == Ok(Version(1, 2, 3))
  {
    PrefixQuirk("abc");
    assert "1.2.3" + "abc" == "1.2.3abc";
    PrefixQuirk(".4");
    assert "1.2.3" + ".4" == "1.2.3.4";
  }
}
