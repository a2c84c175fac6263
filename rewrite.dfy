/**
 * The three per-file rewrite rules of `update_file` in the version-bump
 * script, each a small scanner standing for one `re.sub` call:
 *
 *   pyproject.toml  `(version\s*=\s*")([^"]+)(")`  ->  `\g<1>{new}\g<3>`
 *   build.py        `(VERSION\s*=\s*")([^"]+)(")`  ->  `\g<1>{new}\g<3>`
 *   rftx_gui.py     `v\d+\.\d+`                    ->  `v{new}`
 *
 * `re.sub` scans left to right and replaces every non-overlapping match. The
 * Tokens/Gaps view below splits a text into the replaced substrings and the
 * text around them, which is what the properties are stated over.
 */
module Rewrite {
  import opened Results
  import opened Text

  datatype Strategy =
    | PyprojectVersion    // quoted `version = "..."` in pyproject.toml
    | BuildScriptVersion  // quoted `VERSION = "..."` in build.py
    | GuiFooterTag        // bare `v<digits>.<digits>` in rftx_gui.py

  /**
   * A match at the start of a text s: s[from..to] is the part that is replaced,
   * s[..from] and s[to..end] are kept, and scanning resumes at end.
   */
  datatype Hit = Hit(from: nat, to: nat, end: nat)

  /** update_file's choice of rule: path substrings tested in the order pyproject.toml, build.py, rftx_gui.py. */
  function StrategyFor(path: string): (r: Option<Strategy>)
    ensures r == Some(PyprojectVersion) <==> Contains(path, "pyproject.toml")
    ensures r == Some(BuildScriptVersion) <==> !Contains(path, "pyproject.toml") && Contains(path, "build.py")
    ensures r == Some(GuiFooterTag) <==>
              !Contains(path, "pyproject.toml") && !Contains(path, "build.py") && Contains(path, "rftx_gui.py")
    ensures r == None <==>
              !Contains(path, "pyproject.toml") && !Contains(path, "build.py") && !Contains(path, "rftx_gui.py")
  {
    if Contains(path, "pyproject.toml") then Some(PyprojectVersion)
    else if Contains(path, "build.py") then Some(BuildScriptVersion)
    else if Contains(path, "rftx_gui.py") then Some(GuiFooterTag)
    else None
  }

  /** The literal that starts a quoted assignment. */
  function Key(st: Strategy): string
    requires st != GuiFooterTag
  {
    if st == PyprojectVersion then "version" else "VERSION"
  }

  /** `g` is exactly `key\s*=\s*"`. */
  predicate IsAssignment(g: string, key: string) {
    && StartsWith(g, key) && |g| > |key| && g[|g| - 1] == '"'
    && exists e :: |key| <= e < |g| - 1 && g[e] == '=' && AllSpace(g[|key|..e]) && AllSpace(g[e + 1..|g| - 1])
  }

  /** Length of the `key\s*=\s*"` at the start of s, if there is one. */
  function AssignmentPrefix(s: string, key: string): (r: Option<nat>)
    ensures r.Some? ==> |key| < r.value <= |s|
  {
    if !StartsWith(s, key) then None
    else
      var a := |key| + SpaceRun(s[|key|..]);
      if a == |s| || s[a] != '=' then None
      else
        var b := a + 1 + SpaceRun(s[a + 1..]);
        if b == |s| || s[b] != '"' then None else Some(b + 1)
  }

  /** What AssignmentPrefix measures is a `key\s*=\s*"`. */
  lemma AssignmentPrefixShape(s: string, key: string)
    requires AssignmentPrefix(s, key).Some?
    ensures IsAssignment(s[..AssignmentPrefix(s, key).value], key)
  {
    var t1 := s[|key|..];
    var a := |key| + SpaceRun(t1);
    assert a < |s| && s[a] == '=';
    var t2 := s[a + 1..];
    var b := a + 1 + SpaceRun(t2);
    assert b < |s| && s[b] == '"';
    SpaceRunAllSpace(t1);
    SpaceRunAllSpace(t2);
    DropTake(s, |key|, SpaceRun(t1));
    DropTake(s, a + 1, SpaceRun(t2));
    AssignmentOfRuns(s, key, a, b);
  }

  lemma TakeSlice(s: string, p: nat, i: nat, j: nat)
    requires i <= j <= p <= |s|
    ensures s[..p][i..j] == s[i..j]
  {
  }

  lemma DropSlice(s: string, q: nat, i: nat, j: nat)
    requires i <= j && q + j <= |s|
    ensures s[q..][i..j] == s[q + i..q + j]
  {
  }

  lemma DropTake(s: string, i: nat, n: nat)
    requires i + n <= |s|
    ensures s[i..][..n] == s[i..i + n]
  {
  }

  /** `key`, spaces, `=`, spaces and `"` in a row make an assignment prefix. */
  lemma AssignmentOfRuns(s: string, key: string, a: nat, b: nat)
    requires StartsWith(s, key) && |key| <= a < b < |s|
    requires AllSpace(s[|key|..a]) && s[a] == '=' && AllSpace(s[a + 1..b]) && s[b] == '"'
    ensures IsAssignment(s[..b + 1], key)
  {
    var g := s[..b + 1];
    assert g[..|key|] == s[..|key|];
    assert g[|key|..a] == s[|key|..a];
    assert g[a + 1..|g| - 1] == s[a + 1..b];
  }

  /** The run SpaceRun measures is all whitespace. */
  lemma SpaceRunAllSpace(s: string)
    ensures AllSpace(s[..SpaceRun(s)])
  {
    SpaceRunSpaces(s);
    var n := SpaceRun(s);
    assert forall i :: 0 <= i < n ==> s[..n][i] == s[i];
  }

  /** A whitespace run ended by a character that is not whitespace is measured exactly. */
  lemma {:induction false} SpaceRunExact(s: string, n: nat)
    requires n < |s| && AllSpace(s[..n]) && !IsSpace(s[n])
    ensures SpaceRun(s) == n
  {
    if n > 0 {
      assert s[..n][0] == s[0];
      assert s[1..][..n - 1] == s[..n][1..];
      SpaceRunExact(s[1..], n - 1);
    }
  }

  /** A `key\s*=\s*"` at the start of s is found, and measured to its closing quote. */
  lemma AssignmentPrefixFinds(s: string, key: string, p: nat)
    requires p <= |s| && IsAssignment(s[..p], key)
    ensures AssignmentPrefix(s, key) == Some(p)
  {
    var g := s[..p];
    var e :| |key| <= e < |g| - 1 && g[e] == '=' && AllSpace(g[|key|..e]) && AllSpace(g[e + 1..|g| - 1]);
    TakeSlice(s, p, 0, |key|);
    TakeSlice(s, p, |key|, e);
    TakeSlice(s, p, e + 1, p - 1);
    RunsFind(s, key, e, p);
  }

  /** `key`, a run of whitespace, `=` at e, a run of whitespace and `"` at p - 1 are measured as they stand. */
  lemma RunsFind(s: string, key: string, e: nat, p: nat)
    requires StartsWith(s, key) && |key| <= e < p - 1 && p <= |s|
    requires s[e] == '=' && AllSpace(s[|key|..e]) && AllSpace(s[e + 1..p - 1]) && s[p - 1] == '"'
    ensures AssignmentPrefix(s, key) == Some(p)
  {
    var t1 := s[|key|..];
    assert t1[..e - |key|] == s[|key|..e];
    SpaceRunExact(t1, e - |key|);
    var t2 := s[e + 1..];
    assert t2[..p - 2 - e] == s[e + 1..p - 1];
    SpaceRunExact(t2, p - 2 - e);
  }

  /** A quote-free run ended by a quote is measured exactly. */
  lemma {:induction false} NonQuoteRunExact(s: string, n: nat)
    requires n < |s| && '"' !in s[..n] && s[n] == '"'
    ensures NonQuoteRun(s) == n
  {
    if n > 0 {
      assert s[..n][0] == s[0];
      assert s[1..][..n - 1] == s[..n][1..];
      NonQuoteRunExact(s[1..], n - 1);
    }
  }

  /** `(key\s*=\s*")([^"]+)(")` matches at the start of s with the opener s[..p] and the token s[p..p + t]. */
  predicate QuotedAt(s: string, key: string, p: nat, t: nat) {
    && 0 < t && p + t < |s| && IsAssignment(s[..p], key)
    && '"' !in s[p..p + t] && s[p + t] == '"'
  }

  /** The quoted pattern occurs at position j of s. */
  ghost predicate AssignmentAt(s: string, key: string, j: nat) {
    j < |s| && exists p: nat, t: nat :: QuotedAt(s[j..], key, p, t)
  }

  /** The quoted pattern occurs at q, with opener s[q..q + p] and token s[q + p..q + p + t], and at no position before q. */
  ghost predicate LeftmostAssignment(s: string, key: string, q: nat, p: nat, t: nat) {
    && q < |s| && QuotedAt(s[q..], key, p, t)
    && forall j :: 0 <= j < q ==> !AssignmentAt(s, key, j)
  }

  /** An occurrence of the quoted pattern at the start of s is the match found there. */
  lemma QuotedMatchFinds(s: string, key: string, p: nat, t: nat)
    requires QuotedAt(s, key, p, t)
    ensures QuotedMatch(s, key) == Some(Hit(p, p + t, p + t + 1))
  {
    AssignmentPrefixFinds(s, key, p);
    assert s[p..][..t] == s[p..p + t];
    NonQuoteRunExact(s[p..], t);
  }

  /** A match of the quoted scanner is an occurrence of the pattern, with its opener before the token. */
  lemma QuotedMatchShape(s: string, key: string)
    requires QuotedMatch(s, key).Some?
    ensures var h := QuotedMatch(s, key).value; QuotedAt(s, key, h.from, h.to - h.from)
  {
    AssignmentPrefixShape(s, key);
    var h := QuotedMatch(s, key).value;
    var t := NonQuoteRun(s[h.from..]);
    assert s[h.from..h.from + t] == s[h.from..][..t];
  }

  /** The quoted scanner matches at the start of s exactly when the pattern occurs there. */
  lemma QuotedMatchIff(s: string, key: string)
    ensures QuotedMatch(s, key).Some? <==> exists p: nat, t: nat :: QuotedAt(s, key, p, t)
  {
    if QuotedMatch(s, key).Some? {
      QuotedMatchShape(s, key);
    }
    if exists p: nat, t: nat :: QuotedAt(s, key, p, t) {
      var p: nat, t: nat :| QuotedAt(s, key, p, t);
      QuotedMatchFinds(s, key, p, t);
    }
  }

  /** A digit run ended by a non-digit or by the end of s is measured exactly. */
  lemma {:induction false} DigitRunExact(s: string, n: nat)
    requires n <= |s| && AllDigits(s[..n]) && (n == |s| || !IsDigit(s[n]))
    ensures DigitRun(s) == n
  {
    if n > 0 {
      assert s[..n][0] == s[0];
      assert s[1..][..n - 1] == s[..n][1..];
      DigitRunExact(s[1..], n - 1);
    }
  }

  /** In a tag at the start of s, the dot ends the first digit run. */
  lemma TagDot(s: string, b: nat, a: nat)
    requires b <= |s| && 1 < a < b - 1 && s[0] == 'v' && AllDigits(s[1..a]) && s[a] == '.' && AllDigits(s[a + 1..b])
    ensures 1 + DigitRun(s[1..]) == a
  {
    assert s[1..][..a - 1] == s[1..a];
    DigitRunExact(s[1..], a - 1);
  }

  /** The dot of a tag that is a prefix of s, with the tag's parts read off s itself. */
  lemma TagSplit(s: string, b: nat) returns (a: nat)
    requires b <= |s| && IsTag(s[..b])
    ensures 1 < a < b - 1 && s[0] == 'v' && AllDigits(s[1..a]) && s[a] == '.' && AllDigits(s[a + 1..b])
  {
    var t := s[..b];
    a :| 1 < a < |t| - 1 && t[0] == 'v' && AllDigits(t[1..a]) && t[a] == '.' && AllDigits(t[a + 1..]);
    TakeSlice(s, b, 1, a);
    TakeSlice(s, b, a + 1, b);
    assert t[a + 1..] == t[a + 1..b];
  }

  /** A maximal `v<digits>.<digits>` at the start of s is the match found there. */
  lemma TagMatchFinds(s: string, b: nat)
    requires b <= |s| && IsTag(s[..b]) && (b == |s| || !IsDigit(s[b]))
    ensures TagMatch(s) == Some(Hit(0, b, b))
  {
    var a := TagSplit(s, b);
    TagDot(s, b, a);
    DropTake(s, a + 1, b - a - 1);
    DigitRunExact(s[a + 1..], b - a - 1);
  }

  /** The tag scanner matches at the start of s exactly when some prefix of s is a tag. */
  lemma TagMatchIff(s: string)
    ensures TagMatch(s).Some? <==> exists b :: 0 <= b <= |s| && IsTag(s[..b])
  {
    if TagMatch(s).Some? {
      TagHit(s);
      assert IsTag(s[..TagMatch(s).value.to]);
    }
    if exists b :: 0 <= b <= |s| && IsTag(s[..b]) {
      var b :| 0 <= b <= |s| && IsTag(s[..b]);
      TagPrefixMatches(s, b);
    }
  }

  /** A tag that is a prefix of s, maximal or not, makes the tag scanner match. */
  lemma TagPrefixMatches(s: string, b: nat)
    requires b <= |s| && IsTag(s[..b])
    ensures TagMatch(s).Some?
  {
    var a := TagSplit(s, b);
    TagDot(s, b, a);
    assert IsDigit(s[a + 1..][0]) by { assert s[a + 1..][0] == s[a + 1..b][0]; }
  }

  /** `v\d+\.\d+` at the start of s: the whole match is replaced. */
  function TagMatch(s: string): (h: Option<Hit>)
    ensures h.Some? ==> h.value.from == 0 < h.value.to == h.value.end <= |s|
  {
    if s == [] || s[0] != 'v' then None
    else
      var a := 1 + DigitRun(s[1..]);
      if a == 1 || a == |s| || s[a] != '.' then None
      else
        var b := a + 1 + DigitRun(s[a + 1..]);
        if b == a + 1 then None else Some(Hit(0, b, b))
  }

  /** `(key\s*=\s*")([^"]+)(")` at the start of s: only the middle group is replaced. */
  function QuotedMatch(s: string, key: string): (h: Option<Hit>)
    ensures h.Some? ==> h.value.from < h.value.to && h.value.end == h.value.to + 1 <= |s|
  {
    match AssignmentPrefix(s, key)
    case None => None
    case Some(p) =>
      var t := NonQuoteRun(s[p..]);
      if t == 0 || p + t == |s| then None else Some(Hit(p, p + t, p + t + 1))
  }

  /** One attempt of the rule's pattern at the start of s. */
  function MatchAt(st: Strategy, s: string): (h: Option<Hit>)
    ensures h.Some? ==> h.value.from < h.value.to <= h.value.end <= |s|
  {
    if st == GuiFooterTag then TagMatch(s) else QuotedMatch(s, Key(st))
  }

  /** A quoted-assignment match: prefix `key\s*=\s*"`, a quote-free token, the closing quote. */
  lemma QuotedHit(st: Strategy, s: string)
    requires st != GuiFooterTag && MatchAt(st, s).Some?
    ensures var h := MatchAt(st, s).value;
      && IsAssignment(s[..h.from], Key(st))
      && '"' !in s[h.from..h.to]
      && h.end == h.to + 1 && s[h.to] == '"'
  {
    AssignmentPrefixShape(s, Key(st));
    var p := AssignmentPrefix(s, Key(st)).value;
    var t := NonQuoteRun(s[p..]);
    assert s[p..p + t] == s[p..][..t];
  }

  /** A tag match: `v<digits>.<digits>` at the very start, replaced as a whole. */
  lemma TagHit(s: string)
    requires MatchAt(GuiFooterTag, s).Some?
    ensures var h := MatchAt(GuiFooterTag, s).value;
      h.from == 0 && h.to == h.end && IsTag(s[..h.to])
  {
    var h := MatchAt(GuiFooterTag, s).value;
    var a := 1 + DigitRun(s[1..]);
    DigitRunDigits(s[1..]);
    DigitRunDigits(s[a + 1..]);
    var t := s[..h.to];
    assert t[1..a] == s[1..][..a - 1];
    assert t[a + 1..] == s[a + 1..][..h.to - a - 1];
  }

  /** The text a match is replaced with: `\g<1>{new}\g<3>` keeps the kept parts, `v{new}` replaces the tag. */
  function Replacement(st: Strategy, newVersion: string): string {
    if st == GuiFooterTag then "v" + newVersion else newVersion
  }

  /** A match found at the start of s stays inside s and consumes at least one character. */
  predicate Fits(h: Option<Hit>, s: string) {
    h.Some? ==> h.value.from < h.value.to <= h.value.end <= |s|
  }

  /** A compiled pattern, tried at the start of a text. */
  type Matcher = m: string -> Option<Hit> | forall s :: Fits(m(s), s) witness (s: string) => None

  /** The compiled pattern of a rule. */
  function Pattern(st: Strategy): Matcher {
    s => MatchAt(st, s)
  }

  /** `re.sub(pattern, replacement, s)`: every non-overlapping match, left to right. */
  function Substitute(m: Matcher, s: string, replacement: string): string
    decreases |s|
  {
    if s == [] then []
    else
      match m(s)
      case None => [s[0]] + Substitute(m, s[1..], replacement)
      case Some(h) =>
        s[..h.from] + replacement + s[h.to..h.end] + Substitute(m, s[h.end..], replacement)
  }

  /** update_file's rewrite of one file's content to the new version. */
  function Rewritten(st: Strategy, content: string, newVersion: string): string {
    Substitute(Pattern(st), content, Replacement(st, newVersion))
  }

  /** The substrings `re.sub` replaces, left to right. */
  function Tokens(m: Matcher, s: string): seq<string>
    decreases |s|
  {
    if s == [] then []
    else
      match m(s)
      case None => Tokens(m, s[1..])
      case Some(h) => [s[h.from..h.to]] + Tokens(m, s[h.end..])
  }

  /** The text before, between and after the replaced substrings. */
  function Gaps(m: Matcher, s: string): (g: seq<string>)
    ensures |g| == |Tokens(m, s)| + 1
    decreases |s|
  {
    if s == [] then [""]
    else
      match m(s)
      case None =>
        var g := Gaps(m, s[1..]);
        [[s[0]] + g[0]] + g[1..]
      case Some(h) =>
        var g := Gaps(m, s[h.end..]);
        [s[..h.from]] + ([s[h.to..h.end] + g[0]] + g[1..])
  }

  /** gaps[0] + tokens[0] + gaps[1] + ... + tokens[n-1] + gaps[n]. */
  function Weave(gaps: seq<string>, tokens: seq<string>): string
    requires |gaps| == |tokens| + 1
  {
    if tokens == [] then gaps[0] else gaps[0] + tokens[0] + Weave(gaps[1..], tokens[1..])
  }

  function Repeat(x: string, n: nat): (r: seq<string>)
    ensures |r| == n && forall i :: 0 <= i < n ==> r[i] == x
  {
    if n == 0 then [] else [x] + Repeat(x, n - 1)
  }

  lemma WeaveCons(x: string, gaps: seq<string>, tokens: seq<string>)
    requires |gaps| == |tokens| + 1
    ensures Weave([x + gaps[0]] + gaps[1..], tokens) == x + Weave(gaps, tokens)
  {
    if tokens != [] {
      assert ([x + gaps[0]] + gaps[1..])[1..] == gaps[1..];
    }
  }

  lemma Slices(s: string, a: nat, b: nat, c: nat)
    requires a <= b <= c <= |s|
    ensures s == s[..a] + s[a..b] + s[b..c] + s[c..]
  {
  }

  /** A text is its gaps woven with its tokens: the decomposition loses nothing. */
  lemma {:induction false} Decompose(m: Matcher, s: string)
    ensures s == Weave(Gaps(m, s), Tokens(m, s))
    decreases |s|
  {
    if s != [] {
      match m(s)
      case None =>
        Decompose(m, s[1..]);
        WeaveCons([s[0]], Gaps(m, s[1..]), Tokens(m, s[1..]));
        assert [s[0]] + s[1..] == s;
      case Some(h) =>
        var rest := s[h.end..];
        Decompose(m, rest);
        WeaveCons(s[h.to..h.end], Gaps(m, rest), Tokens(m, rest));
        var gs := [s[..h.from]] + ([s[h.to..h.end] + Gaps(m, rest)[0]] + Gaps(m, rest)[1..]);
        assert gs[1..] == [s[h.to..h.end] + Gaps(m, rest)[0]] + Gaps(m, rest)[1..];
        Slices(s, h.from, h.to, h.end);
    }
  }

  /**
   * The substitution is the same weave with every token replaced by the
   * replacement text: every match is rewritten and nothing outside the
   * matches changes.
   */
  lemma {:induction false} SubstituteReplacesTokens(m: Matcher, s: string, r: string)
    ensures Substitute(m, s, r) == Weave(Gaps(m, s), Repeat(r, |Tokens(m, s)|))
    decreases |s|
  {
    if s != [] {
      match m(s)
      case None =>
        SubstituteReplacesTokens(m, s[1..], r);
        WeaveCons([s[0]], Gaps(m, s[1..]), Repeat(r, |Tokens(m, s[1..])|));
      case Some(h) =>
        var rest := s[h.end..];
        var n := |Tokens(m, rest)|;
        SubstituteReplacesTokens(m, rest, r);
        WeaveCons(s[h.to..h.end], Gaps(m, rest), Repeat(r, n));
        var gs := [s[..h.from]] + ([s[h.to..h.end] + Gaps(m, rest)[0]] + Gaps(m, rest)[1..]);
        assert gs[1..] == [s[h.to..h.end] + Gaps(m, rest)[0]] + Gaps(m, rest)[1..];
        assert Repeat(r, n + 1)[1..] == Repeat(r, n);
    }
  }

  /** A text in which the pattern finds no match is left exactly as it is. */
  lemma NoMatchNoChange(m: Matcher, s: string, r: string)
    requires Tokens(m, s) == []
    ensures Substitute(m, s, r) == s
  {
    Decompose(m, s);
    SubstituteReplacesTokens(m, s, r);
  }

  /** A text whose every match already reads like the replacement is left unchanged. */
  lemma UnchangedWhenCurrent(m: Matcher, s: string, r: string)
    requires AllEqual(Tokens(m, s), r)
    ensures Substitute(m, s, r) == s
  {
    Decompose(m, s);
    SubstituteReplacesTokens(m, s, r);
    assert Tokens(m, s) == Repeat(r, |Tokens(m, s)|);
  }

  /** The pattern matches at no position of s before q. */
  ghost predicate NoMatchBefore(m: Matcher, s: string, q: nat)
    requires q <= |s|
  {
    forall j :: 0 <= j < q ==> m(s[j..]).None?
  }

  /**
   * The scan's first token comes from the match at q: the pattern matches
   * there and nowhere before, and the first gap is everything up to the
   * replaced part of that match.
   */
  ghost predicate FirstMatchAt(m: Matcher, s: string, q: nat) {
    && q < |s| && m(s[q..]).Some? && NoMatchBefore(m, s, q) && Tokens(m, s) != []
    && Tokens(m, s)[0] == s[q + m(s[q..]).value.from..q + m(s[q..]).value.to]
    && Gaps(m, s)[0] == s[..q + m(s[q..]).value.from]
  }

  /**
   * `re.search`: there is a token exactly when the pattern matches at some
   * position of s, and the first token is the one of the leftmost match.
   */
  lemma {:induction false} FirstToken(m: Matcher, s: string)
    ensures Tokens(m, s) == [] <==> NoMatchBefore(m, s, |s|)
    ensures Tokens(m, s) != [] ==> exists q: nat :: FirstMatchAt(m, s, q)
    decreases |s|
  {
    if s != [] {
      assert s[0..] == s;
      if m(s).Some? {
        assert FirstMatchAt(m, s, 0);
      } else {
        FirstToken(m, s[1..]);
        SkipNoMatch(m, s);
        if Tokens(m, s) != [] {
          var q: nat :| FirstMatchAt(m, s[1..], q);
          SkipFirstMatch(m, s, q);
        }
      }
    }
  }

  /** Where nothing matches at the start of s, no match before q + 1 in s is no match before q in s[1..]. */
  lemma SkipNoMatch(m: Matcher, s: string)
    requires s != [] && m(s).None?
    ensures forall q: nat :: q < |s| ==> (NoMatchBefore(m, s, q + 1) <==> NoMatchBefore(m, s[1..], q))
  {
    assert s[0..] == s;
    assert forall j :: 0 < j <= |s| ==> s[j..] == s[1..][j - 1..];
  }

  /** Where nothing matches at the start of s, the first match of s[1..] at q is the first match of s at q + 1. */
  lemma SkipFirstMatch(m: Matcher, s: string, q: nat)
    requires s != [] && m(s).None? && FirstMatchAt(m, s[1..], q)
    ensures FirstMatchAt(m, s, q + 1)
  {
    var rest := s[1..];
    SkipNoMatch(m, s);
    var h := m(rest[q..]).value;
    assert rest[q..] == s[q + 1..];
    assert rest[q + h.from..q + h.to] == s[q + 1 + h.from..q + 1 + h.to];
    assert [s[0]] + rest[..q + h.from] == s[..q + 1 + h.from];
  }

  /** The leftmost match of s: its position q, where its replaced part starts (p) and how long it is (t). */
  lemma FirstTokenHit(m: Matcher, s: string) returns (q: nat, p: nat, t: nat)
    requires Tokens(m, s) != []
    ensures q < |s| && m(s[q..]).Some? && m(s[q..]).value.from == p && m(s[q..]).value.to == p + t
    ensures NoMatchBefore(m, s, q)
    ensures Tokens(m, s)[0] == s[q + p..q + p + t]
  {
    FirstToken(m, s);
    q :| FirstMatchAt(m, s, q);
    var h := m(s[q..]).value;
    p, t := h.from, h.to - h.from;
  }

  /** The scan of s tries position j and finds a match there. */
  ghost predicate MatchedAt(m: Matcher, s: string, j: nat)
    decreases |s|
  {
    if s == [] then false
    else
      match m(s)
      case None => j >= 1 && MatchedAt(m, s[1..], j - 1)
      case Some(h) => j == 0 || (j >= h.end && MatchedAt(m, s[h.end..], j - h.end))
  }

  /** Position j of s lies inside a match the scan found at an earlier position. */
  ghost predicate SkippedAt(m: Matcher, s: string, j: nat)
    decreases |s|
  {
    if s == [] then false
    else
      match m(s)
      case None => j >= 1 && SkippedAt(m, s[1..], j - 1)
      case Some(h) => 0 < j < h.end || (j >= h.end && SkippedAt(m, s[h.end..], j - h.end))
  }

  /**
   * `re.sub` leaves no match out: wherever the pattern matches, the scan
   * either takes that match or has already consumed the position as part
   * of an earlier, overlapping one.
   */
  lemma {:induction false} EveryMatchScanned(m: Matcher, s: string, j: nat)
    requires j < |s| && m(s[j..]).Some?
    ensures MatchedAt(m, s, j) || SkippedAt(m, s, j)
    decreases |s|
  {
    assert s[0..] == s;
    match m(s)
    case None =>
      assert s[1..][j - 1..] == s[j..];
      EveryMatchScanned(m, s[1..], j - 1);
    case Some(h) =>
      if j >= h.end {
        assert s[h.end..][j - h.end..] == s[j..];
        EveryMatchScanned(m, s[h.end..], j - h.end);
      }
  }

  /** The part of s that the match at position j replaces. */
  function TokenAt(m: Matcher, s: string, j: nat): string
    requires j < |s| && m(s[j..]).Some?
  {
    var h := m(s[j..]).value;
    s[j + h.from..j + h.to]
  }

  lemma TokenAtHit(m: Matcher, s: string, j: nat, h: Hit)
    requires j < |s| && m(s[j..]) == Some(h)
    ensures TokenAt(m, s, j) == s[j + h.from..j + h.to]
  {
  }

  /** The part a match replaces is the same whether s is measured from its start or from k. */
  lemma TokenAtShift(m: Matcher, s: string, k: nat, j: nat)
    requires k <= j < |s| && m(s[j..]).Some?
    ensures s[k..][j - k..] == s[j..] && TokenAt(m, s[k..], j - k) == TokenAt(m, s, j)
  {
    assert s[k..][j - k..] == s[j..];
  }

  /** A match the scan takes at j is one of the tokens that `re.sub` replaces. */
  lemma {:induction false} MatchedIsToken(m: Matcher, s: string, j: nat)
    requires MatchedAt(m, s, j)
    ensures j < |s| && m(s[j..]).Some?
    ensures TokenAt(m, s, j) in Tokens(m, s)
    decreases |s|
  {
    var k := MatchedStep(m, s, j);
    if k != 0 {
      MatchedIsToken(m, s[k..], j - k);
      TokenAfter(m, s, k, j);
    }
  }

  /**
   * One step of the scan towards a match it takes at j: the match is at the
   * start (k == 0), or the scan goes on at k after skipping s[0] or a match.
   */
  lemma MatchedStep(m: Matcher, s: string, j: nat) returns (k: nat)
    requires MatchedAt(m, s, j)
    ensures s != [] && k <= j && k <= |s|
    ensures k == 0 ==> j == 0 && m(s).Some? && TokenAt(m, s, j) in Tokens(m, s)
    ensures k != 0 ==> ((m(s).None? && k == 1) || (m(s).Some? && k == m(s).value.end)) && MatchedAt(m, s[k..], j - k)
  {
    assert s[0..] == s;
    match m(s)
    case None =>
      k := 1;
    case Some(h) =>
      if j == 0 {
        k := 0;
        TokenAtHit(m, s, 0, h);
      } else {
        k := h.end;
      }
  }

  /** A token of the rest of the scan after k is a token of the whole scan. */
  lemma TokenAfter(m: Matcher, s: string, k: nat, j: nat)
    requires s != [] && k <= j < |s| && m(s[j..]).Some?
    requires (m(s).None? && k == 1) || (m(s).Some? && k == m(s).value.end)
    requires TokenAt(m, s[k..], j - k) in Tokens(m, s[k..])
    ensures TokenAt(m, s, j) in Tokens(m, s)
  {
    TokenAtShift(m, s, k, j);
  }

  /**
   * The tag rule rewrites every `v<digits>.<digits>` of a text: wherever one
   * starts, the scan takes it as a match or has consumed that position in an
   * earlier match.
   */
  lemma EveryTagScanned(s: string, j: nat, b: nat)
    requires j + b <= |s| && IsTag(s[j..][..b])
    ensures MatchedAt(Pattern(GuiFooterTag), s, j) || SkippedAt(Pattern(GuiFooterTag), s, j)
  {
    TagMatchIff(s[j..]);
    EveryMatchScanned(Pattern(GuiFooterTag), s, j);
  }

  /**
   * A quoted rule rewrites every `key\s*=\s*"..."` of a text: wherever one
   * starts, the scan takes it as a match or has consumed that position in an
   * earlier match.
   */
  lemma EveryAssignmentScanned(st: Strategy, s: string, j: nat, p: nat, t: nat)
    requires st != GuiFooterTag && j < |s| && QuotedAt(s[j..], Key(st), p, t)
    ensures MatchedAt(Pattern(st), s, j) || SkippedAt(Pattern(st), s, j)
  {
    QuotedMatchFinds(s[j..], Key(st), p, t);
    EveryMatchScanned(Pattern(st), s, j);
  }

  /** `g` ends with `key\s*=\s*"`. */
  predicate EndsWithAssignment(g: string, key: string) {
    exists i :: 0 <= i <= |g| && IsAssignment(g[i..], key)
  }

  lemma EndsWithAssignmentExtend(x: string, g: string, key: string)
    requires EndsWithAssignment(g, key)
    ensures EndsWithAssignment(x + g, key)
  {
    var i :| 0 <= i <= |g| && IsAssignment(g[i..], key);
    assert (x + g)[|x| + i..] == g[i..];
  }

  /** A match of m on s, if any, starts right after a `key\s*=\s*"`. */
  ghost predicate OpensAt(m: Matcher, key: string, s: string) {
    m(s).Some? ==> IsAssignment(s[..m(s).value.from], key)
  }

  /** A match of m on s, if any, replaces a quote-free part. */
  ghost predicate QuoteFreeAt(m: Matcher, s: string) {
    m(s).Some? ==> '"' !in s[m(s).value.from..m(s).value.to]
  }

  /** A match of m on s, if any, keeps exactly the closing quote after the replaced part. */
  ghost predicate ClosedAt(m: Matcher, s: string) {
    m(s).Some? ==> m(s).value.end == m(s).value.to + 1 && s[m(s).value.to] == '"'
  }

  ghost predicate OpensWith(m: Matcher, key: string) {
    forall s :: OpensAt(m, key, s)
  }

  ghost predicate QuoteFreeTokens(m: Matcher) {
    forall s :: QuoteFreeAt(m, s)
  }

  ghost predicate ClosesWithQuote(m: Matcher) {
    forall s :: ClosedAt(m, s)
  }

  /** m matches `(key\s*=\s*")([^"]+)(")` and replaces the middle group. */
  ghost predicate QuotedMatcher(m: Matcher, key: string) {
    OpensWith(m, key) && QuoteFreeTokens(m) && ClosesWithQuote(m)
  }

  lemma QuotedPattern(st: Strategy)
    requires st != GuiFooterTag
    ensures QuotedMatcher(Pattern(st), Key(st))
  {
    forall s ensures OpensAt(Pattern(st), Key(st), s) && QuoteFreeAt(Pattern(st), s) && ClosedAt(Pattern(st), s) {
      if Pattern(st)(s).Some? {
        QuotedHit(st, s);
      }
    }
  }

  /** Every token a quoted-assignment pattern replaces is a non-empty run without quotes. */
  lemma {:induction false} QuotedTokens(m: Matcher, s: string)
    requires QuoteFreeTokens(m)
    ensures forall k :: 0 <= k < |Tokens(m, s)| ==> |Tokens(m, s)[k]| > 0 && '"' !in Tokens(m, s)[k]
    decreases |s|
  {
    if s != [] {
      match m(s)
      case None =>
        QuotedTokens(m, s[1..]);
      case Some(h) =>
        QuotedTokens(m, s[h.end..]);
        assert QuoteFreeAt(m, s);
    }
  }

  /** Every gap before a token ends with the `key\s*=\s*"` that opens it. */
  lemma {:induction false} QuotedOpeners(m: Matcher, key: string, s: string)
    requires OpensWith(m, key)
    ensures forall k :: 0 <= k < |Tokens(m, s)| ==> EndsWithAssignment(Gaps(m, s)[k], key)
    decreases |s|
  {
    if s != [] {
      match m(s)
      case None =>
        var g := Gaps(m, s[1..]);
        QuotedOpeners(m, key, s[1..]);
        var gs := [[s[0]] + g[0]] + g[1..];
        assert gs == Gaps(m, s);
        forall k | 0 <= k < |Tokens(m, s)| ensures EndsWithAssignment(gs[k], key) {
          if k == 0 {
            EndsWithAssignmentExtend([s[0]], g[0], key);
          } else {
            assert gs[k] == g[k];
          }
        }
      case Some(h) =>
        var rest := s[h.end..];
        var g := Gaps(m, rest);
        QuotedOpeners(m, key, rest);
        var gs := [s[..h.from]] + ([s[h.to..h.end] + g[0]] + g[1..]);
        assert gs == Gaps(m, s);
        forall k | 0 <= k < |Tokens(m, s)| ensures EndsWithAssignment(gs[k], key) {
          if k == 0 {
            assert OpensAt(m, key, s);
            assert gs[0][0..] == s[..h.from];
          } else if k == 1 {
            assert gs[1] == s[h.to..h.end] + g[0];
            EndsWithAssignmentExtend(s[h.to..h.end], g[0], key);
          } else {
            assert gs[k] == g[k - 1];
          }
        }
    }
  }

  /** Every gap after a token starts with the quote that closes it. */
  lemma {:induction false} QuotedClosers(m: Matcher, s: string)
    requires ClosesWithQuote(m)
    ensures forall k :: 1 <= k < |Gaps(m, s)| ==> |Gaps(m, s)[k]| > 0 && Gaps(m, s)[k][0] == '"'
    decreases |s|
  {
    if s != [] {
      match m(s)
      case None =>
        var g := Gaps(m, s[1..]);
        QuotedClosers(m, s[1..]);
        var gs := [[s[0]] + g[0]] + g[1..];
        assert gs == Gaps(m, s);
        forall k | 1 <= k < |gs| ensures |gs[k]| > 0 && gs[k][0] == '"' {
          assert gs[k] == g[k];
        }
      case Some(h) =>
        var rest := s[h.end..];
        var g := Gaps(m, rest);
        QuotedClosers(m, rest);
        var gs := [s[..h.from]] + ([s[h.to..h.end] + g[0]] + g[1..]);
        assert gs == Gaps(m, s);
        forall k | 1 <= k < |gs| ensures |gs[k]| > 0 && gs[k][0] == '"' {
          if k == 1 {
            assert ClosedAt(m, s);
            assert gs[1] == s[h.to..h.end] + g[0];
          } else {
            assert gs[k] == g[k - 1];
          }
        }
    }
  }

  /** Each GUI tag token is `v<digits>.<digits>`. */
  predicate IsTag(t: string) {
    exists a :: 1 < a < |t| - 1 && t[0] == 'v' && AllDigits(t[1..a]) && t[a] == '.' && AllDigits(t[a + 1..])
  }

  /** Every match of m is a tag at the very start, replaced as a whole. */
  ghost predicate TagMatcher(m: Matcher) {
    forall s :: m(s).Some? ==> m(s).value.from == 0 && m(s).value.to == m(s).value.end && IsTag(s[..m(s).value.to])
  }

  lemma TagPattern()
    ensures TagMatcher(Pattern(GuiFooterTag))
  {
    forall s | Pattern(GuiFooterTag)(s).Some?
      ensures IsTag(s[..Pattern(GuiFooterTag)(s).value.to])
    {
      TagHit(s);
    }
  }

  /** The tag rule replaces exactly `v<digits>.<digits>` substrings. */
  lemma {:induction false} TagShape(m: Matcher, s: string)
    requires TagMatcher(m)
    ensures forall k :: 0 <= k < |Tokens(m, s)| ==> IsTag(Tokens(m, s)[k])
    decreases |s|
  {
    if s != [] {
      match m(s)
      case None =>
        TagShape(m, s[1..]);
      case Some(h) =>
        TagShape(m, s[h.end..]);
        assert s[h.from..h.to] == s[..h.to];
    }
  }

  /**
   * For a quoted-assignment pattern the text is left unchanged exactly when
   * every version token already equals the replacement (for a replacement
   * without a double quote): update_file then reports no change.
   */
  lemma {:induction false} QuotedUnchangedIff(m: Matcher, s: string, r: string)
    requires QuoteFreeTokens(m) && ClosesWithQuote(m) && '"' !in r
    ensures Substitute(m, s, r) == s <==> AllEqual(Tokens(m, s), r)
    decreases |s|
  {
    if s != [] {
      match m(s)
      case None =>
        QuotedUnchangedIff(m, s[1..], r);
        assert Tokens(m, s) == Tokens(m, s[1..]);
        assert Substitute(m, s, r) == [s[0]] + Substitute(m, s[1..], r);
        Cancel([s[0]], Substitute(m, s[1..], r), s[1..]);
        assert s == [s[0]] + s[1..];
      case Some(h) =>
        var rest := s[h.end..];
        QuotedUnchangedIff(m, rest, r);
        assert ClosedAt(m, s) && QuoteFreeAt(m, s);
        var pre, tok, out := s[..h.from], s[h.from..h.to], Substitute(m, rest, r);
        assert Substitute(m, s, r) == pre + r + s[h.to..h.end] + out;
        assert Tokens(m, s) == [tok] + Tokens(m, rest);
        QuotedStep(s, h.from, h.to, r, out);
        AllEqualCons(tok, Tokens(m, rest), r);
    }
  }

  /** One quoted match: rewriting it leaves s as it is exactly when the token and the rest both stay. */
  lemma QuotedStep(s: string, from: nat, to: nat, r: string, out: string)
    requires from <= to < |s| && s[to] == '"' && '"' !in s[from..to] && '"' !in r
    ensures s[..from] + r + s[to..to + 1] + out == s
            <==> r == s[from..to] && out == s[to + 1..]
  {
    var pre, tok, rest := s[..from], s[from..to], s[to + 1..];
    assert s[to..to + 1] == "\"";
    assert pre + r + "\"" + out == pre + (r + "\"" + out);
    Slices(s, from, to, to + 1);
    assert s == pre + (tok + "\"" + rest);
    Cancel(pre, r + "\"" + out, tok + "\"" + rest);
    QuoteDelimited(r, tok, out, rest);
  }

  /** Every element of xs is x. */
  predicate AllEqual(xs: seq<string>, x: string) {
    forall k :: 0 <= k < |xs| ==> xs[k] == x
  }

  lemma AllEqualCons(y: string, ys: seq<string>, x: string)
    ensures AllEqual([y] + ys, x) <==> y == x && AllEqual(ys, x)
  {
    if y == x && AllEqual(ys, x) {
      forall k | 0 <= k < |[y] + ys| ensures ([y] + ys)[k] == x {
        if k > 0 {
          assert ([y] + ys)[k] == ys[k - 1];
        }
      }
    }
    if AllEqual([y] + ys, x) {
      assert ([y] + ys)[0] == y;
      forall k | 0 <= k < |ys| ensures ys[k] == x {
        assert ([y] + ys)[k + 1] == ys[k];
      }
    }
  }

  lemma Cancel(p: string, x: string, y: string)
    ensures p + x == p + y <==> x == y
  {
    if p + x == p + y {
      assert x == (p + x)[|p|..];
      assert y == (p + y)[|p|..];
    }
  }

  /** In a quote-free word followed by a quote, the first quote is the one after the word. */
  lemma {:induction false} FirstQuote(v: string, x: string)
    requires '"' !in v
    ensures NonQuoteRun(v + "\"" + x) == |v|
  {
    if v != [] {
      assert (v + "\"" + x)[1..] == v[1..] + "\"" + x;
      FirstQuote(v[1..], x);
    }
  }

  /** Two quote-free words each followed by a quote: the texts agree exactly when both parts do. */
  lemma QuoteDelimited(v: string, t: string, x: string, y: string)
    requires '"' !in v && '"' !in t
    ensures v + "\"" + x == t + "\"" + y <==> v == t && x == y
  {
    if v + "\"" + x == t + "\"" + y {
      FirstQuote(v, x);
      FirstQuote(t, y);
      assert v == (v + "\"" + x)[..|v|];
      assert t == (t + "\"" + y)[..|t|];
      assert x == (v + "\"" + x)[|v| + 1..];
      assert y == (t + "\"" + y)[|t| + 1..];
    }
  }
}
