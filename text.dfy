/** Outcomes of the operations that the release scripts let fail. */
module Results {

  datatype Option<+T> = None | Some(value: T)

  datatype Result<+T, +E> = Ok(value: T) | Err(error: E)
}

/**
 * Characters and strings as the release scripts see them: Python `str`
 * values modelled as `seq<char>`, with the handful of `str` and `re`
 * notions they rely on (digits, whitespace, `split`, `join`, `lower`,
 * `capitalize`, `strip`, prefix and substring tests).
 */
module Text {

  /** `\d` of the scripts' regular expressions, restricted to ASCII digits. */
  predicate IsDigit(c: char) {
    '0' <= c <= '9'
  }

  predicate AllDigits(s: string) {
    forall i :: 0 <= i < |s| ==> IsDigit(s[i])
  }

  /** `\s` of a Python `str` pattern: the characters `str.isspace` accepts. */
  predicate IsSpace(c: char) {
    c == ' ' || ('\t' <= c <= '\r') || ('\U{1C}' <= c <= '\U{1F}')
    || c == '\U{85}' || c == '\U{A0}' || c == '\U{1680}'
    || ('\U{2000}' <= c <= '\U{200A}') || c == '\U{2028}' || c == '\U{2029}'
    || c == '\U{202F}' || c == '\U{205F}' || c == '\U{3000}'
  }

  function DigitValue(c: char): (d: nat)
    requires IsDigit(c)
    ensures d < 10
  {
    (c as int) - ('0' as int)
  }

  function DigitChar(d: nat): (c: char)
    requires d < 10
    ensures IsDigit(c) && DigitValue(c) == d
  {
    ('0' as int + d) as char
  }

  /** The value of a decimal numeral, as Python's `int` gives it (leading zeros allowed). */
  function Value(s: string): nat
    requires AllDigits(s)
  {
    if s == [] then 0 else Value(s[..|s| - 1]) * 10 + DigitValue(s[|s| - 1])
  }

  /** The decimal numeral of `n` without leading zeros, as Python's `str(int)` writes it. */
  function NatToString(n: nat): (s: string)
    ensures |s| >= 1 && AllDigits(s)
    ensures s[0] == '0' ==> n == 0
  {
    if n < 10 then [DigitChar(n)] else NatToString(n / 10) + [DigitChar(n % 10)]
  }

  lemma {:induction false} ValueOfNatToString(n: nat)
    ensures Value(NatToString(n)) == n
  {
    if n >= 10 {
      var s := NatToString(n);
      assert s[..|s| - 1] == NatToString(n / 10);
      ValueOfNatToString(n / 10);
    }
  }

  /** A numeral without superfluous leading zeros. */
  predicate Canonical(s: string) {
    |s| >= 1 && AllDigits(s) && (s[0] == '0' ==> |s| == 1)
  }

  lemma {:induction false} NatToStringOfValue(s: string)
    requires Canonical(s)
    ensures NatToString(Value(s)) == s
    decreases |s|
  {
    if |s| == 1 {
      assert Value(s) == DigitValue(s[0]) by { assert s[..0] == []; }
      assert [DigitChar(Value(s))] == s;
    } else {
      var init := s[..|s| - 1];
      assert init[0] == s[0];
      assert Canonical(init);
      NatToStringOfValue(init);
      ValueAtLeastTen(s);
      assert Value(s) / 10 == Value(init) && Value(s) % 10 == DigitValue(s[|s| - 1]);
      assert init + [s[|s| - 1]] == s;
    }
  }

  /** A canonical numeral of two or more digits denotes at least ten. */
  lemma {:induction false} ValueAtLeastTen(s: string)
    requires Canonical(s) && |s| >= 2
    ensures Value(s) >= 10
    decreases |s|
  {
    var init := s[..|s| - 1];
    assert init[0] == s[0];
    if |init| == 1 {
      assert Value(init) == DigitValue(init[0]) by { assert init[..0] == []; }
    } else {
      ValueAtLeastTen(init);
    }
  }

  /** Length of the longest prefix of `s` made of digits (a greedy `\d*`). */
  function DigitRun(s: string): (n: nat)
    ensures n <= |s| && (n < |s| ==> !IsDigit(s[n]))
  {
    if s != [] && IsDigit(s[0]) then 1 + DigitRun(s[1..]) else 0
  }

  lemma {:induction false} DigitRunDigits(s: string)
    ensures AllDigits(s[..DigitRun(s)])
  {
    if s != [] && IsDigit(s[0]) {
      DigitRunDigits(s[1..]);
      var n := DigitRun(s);
      assert s[..n] == [s[0]] + s[1..][..n - 1];
    }
  }

  predicate AllSpace(s: string) {
    forall i :: 0 <= i < |s| ==> IsSpace(s[i])
  }

  /** Length of the longest prefix of `s` made of whitespace (a greedy `\s*`). */
  function SpaceRun(s: string): (n: nat)
    ensures n <= |s| && (n < |s| ==> !IsSpace(s[n]))
  {
    if s != [] && IsSpace(s[0]) then 1 + SpaceRun(s[1..]) else 0
  }

  lemma {:induction false} SpaceRunSpaces(s: string)
    ensures forall i :: 0 <= i < SpaceRun(s) ==> IsSpace(s[i])
  {
    if s != [] && IsSpace(s[0]) {
      SpaceRunSpaces(s[1..]);
    }
  }

  /** Length of the longest prefix of `s` without a double quote (a greedy `[^"]*`). */
  function NonQuoteRun(s: string): (n: nat)
    ensures n <= |s| && '"' !in s[..n]
    ensures n < |s| ==> s[n] == '"'
  {
    if s != [] && s[0] != '"' then
      var n := 1 + NonQuoteRun(s[1..]);
      assert s[..n] == [s[0]] + s[1..][..n - 1];
      n
    else 0
  }

  predicate StartsWith(s: string, prefix: string) {
    |prefix| <= |s| && s[..|prefix|] == prefix
  }

  predicate EndsWith(s: string, suffix: string) {
    |suffix| <= |s| && s[|s| - |suffix|..] == suffix
  }

  /** Python's `sub in s`. */
  predicate Contains(s: string, sub: string)
    decreases |s|
  {
    StartsWith(s, sub) || (s != [] && Contains(s[1..], sub))
  }

  /** A text does not contain a longer one. */
  lemma {:induction false} ContainsLonger(s: string, sub: string)
    requires |s| < |sub|
    ensures !Contains(s, sub)
  {
    if s != [] {
      ContainsLonger(s[1..], sub);
    }
  }

  /** A text does not contain a piece whose first character it lacks. */
  lemma {:induction false} ContainsFirstChar(s: string, sub: string)
    requires sub != [] && sub[0] !in s
    ensures !Contains(s, sub)
  {
    if s != [] {
      assert s[0] != sub[0];
      assert sub[0] !in s[1..] by {
        assert forall i :: 0 <= i < |s[1..]| ==> s[1..][i] == s[i + 1];
      }
      ContainsFirstChar(s[1..], sub);
    }
  }

  function LowerChar(c: char): char {
    if 'A' <= c <= 'Z' then (c as int + 32) as char else c
  }

  function UpperChar(c: char): char {
    if 'a' <= c <= 'z' then (c as int - 32) as char else c
  }

  /** Python's `str.lower`, on ASCII letters. */
  function Lower(s: string): (r: string)
    ensures |r| == |s| && forall i :: 0 <= i < |s| ==> r[i] == LowerChar(s[i])
  {
    if s == [] then [] else [LowerChar(s[0])] + Lower(s[1..])
  }

  /** Python's `str.capitalize`, on ASCII letters: first character upper case, the rest lower case. */
  function Capitalize(s: string): (r: string)
    ensures |r| == |s|
    ensures s != [] ==> r[0] == UpperChar(s[0]) && r[1..] == Lower(s[1..])
  {
    if s == [] then [] else [UpperChar(s[0])] + Lower(s[1..])
  }

  /**
   * Python's `str.strip()`: s is the result with whitespace only around it,
   * and the result neither starts nor ends with whitespace.
   */
  function Strip(s: string): (r: string)
    ensures r == [] || (!IsSpace(r[0]) && !IsSpace(r[|r| - 1]))
    ensures exists a, b :: s == a + r + b && AllSpace(a) && AllSpace(b)
    decreases |s|
  {
    if s == [] then
      var e: string := [];
      assert s == e + e + e && AllSpace(e);
      e
    else if IsSpace(s[0]) then
      var r := Strip(s[1..]);
      SpaceAround(s, r, true);
      r
    else if IsSpace(s[|s| - 1]) then
      var r := Strip(s[..|s| - 1]);
      SpaceAround(s, r, false);
      r
    else
      var e: string := [];
      assert s == e + s + e && AllSpace(e);
      s
  }

  /** The strip of s is its one part with whitespace only around it that neither starts nor ends with whitespace. */
  lemma {:induction false} StripUnique(s: string, a: string, m: string, b: string)
    requires s == a + m + b && AllSpace(a) && AllSpace(b)
    requires m != [] && !IsSpace(m[0]) && !IsSpace(m[|m| - 1])
    ensures Strip(s) == m
    decreases |s|
  {
    assert a == [] ==> s[0] == m[0];
    assert a != [] ==> s[0] == a[0];
    assert b == [] ==> s[|s| - 1] == m[|m| - 1];
    assert b != [] ==> s[|s| - 1] == b[|b| - 1];
    if IsSpace(s[0]) {
      assert s[1..] == a[1..] + m + b;
      StripUnique(s[1..], a[1..], m, b);
      assert Strip(s) == Strip(s[1..]);
    } else if IsSpace(s[|s| - 1]) {
      assert s[..|s| - 1] == a + m + b[..|b| - 1];
      StripUnique(s[..|s| - 1], a, m, b[..|b| - 1]);
      StripLast(s);
    } else {
      assert s == m;
      assert Strip(s) == s;
    }
  }

  /** Trailing whitespace after a non-space first character is stripped by dropping the last character. */
  lemma StripLast(s: string)
    requires s != [] && !IsSpace(s[0]) && IsSpace(s[|s| - 1])
    ensures Strip(s) == Strip(s[..|s| - 1])
  {
  }

  /** Whitespace kept around the strip of s without its first (or last) character also surrounds it in s. */
  lemma SpaceAround(s: string, r: string, first: bool)
    requires s != [] && IsSpace(if first then s[0] else s[|s| - 1])
    requires first ==> exists a, b :: s[1..] == a + r + b && AllSpace(a) && AllSpace(b)
    requires !first ==> exists a, b :: s[..|s| - 1] == a + r + b && AllSpace(a) && AllSpace(b)
    ensures exists a, b :: s == a + r + b && AllSpace(a) && AllSpace(b)
  {
    if first {
      var a, b :| s[1..] == a + r + b && AllSpace(a) && AllSpace(b);
      assert s == [s[0]] + a + r + b;
      assert AllSpace([s[0]] + a);
    } else {
      var a, b :| s[..|s| - 1] == a + r + b && AllSpace(a) && AllSpace(b);
      assert s == a + r + (b + [s[|s| - 1]]);
      assert AllSpace(b + [s[|s| - 1]]);
    }
  }

  /** Python's `s.split('\n')`: the pieces between line feeds; never empty. */
  function Split(s: string): (r: seq<string>)
    ensures |r| >= 1 && forall i :: 0 <= i < |r| ==> '\n' !in r[i]
  {
    if s == [] then [""]
    else
      var rest := Split(s[1..]);
      if s[0] == '\n' then [""] + rest else [[s[0]] + rest[0]] + rest[1..]
  }

  /** Python's `'\n'.join(lines)`. */
  function Join(lines: seq<string>): string {
    if lines == [] then ""
    else if |lines| == 1 then lines[0]
    else lines[0] + "\n" + Join(lines[1..])
  }

  lemma {:induction false} JoinSplit(s: string)
    ensures Join(Split(s)) == s
  {
    if s != [] {
      JoinSplit(s[1..]);
      var rest := Split(s[1..]);
      if s[0] != '\n' && |rest| > 1 {
        assert ([[s[0]] + rest[0]] + rest[1..])[1..] == rest[1..];
      }
    }
  }

  /** Splitting text glued with a line feed splits both halves. */
  lemma {:induction false} SplitAround(a: string, b: string)
    ensures Split(a + "\n" + b) == Split(a) + Split(b)
    decreases |a|
  {
    if a == [] {
      assert a + "\n" + b == "\n" + b;
      assert ("\n" + b)[1..] == b;
    } else {
      var s := a + "\n" + b;
      assert s[0] == a[0] && s[1..] == a[1..] + "\n" + b;
      SplitAround(a[1..], b);
      var ra, rb := Split(a[1..]), Split(b);
      assert Split(s[1..]) == ra + rb;
      if a[0] != '\n' {
        assert (ra + rb)[0] == ra[0];
        assert (ra + rb)[1..] == ra[1..] + rb;
        assert Split(s) == [[a[0]] + ra[0]] + (ra[1..] + rb);
      }
    }
  }

  /** A line without a line feed splits to itself. */
  lemma {:induction false} SplitLine(s: string)
    requires '\n' !in s
    ensures Split(s) == [s]
  {
    if s != [] {
      SplitLine(s[1..]);
      assert [s[0]] + s[1..] == s;
    }
  }

  /** Joining lines without line feeds and splitting again gives the lines back. */
  lemma {:induction false} SplitJoin(lines: seq<string>)
    requires |lines| >= 1 && forall i :: 0 <= i < |lines| ==> '\n' !in lines[i]
    ensures Split(Join(lines)) == lines
  {
    if |lines| == 1 {
      SplitLine(lines[0]);
    } else {
      SplitJoin(lines[1..]);
      SplitLine(lines[0]);
      SplitAround(lines[0], Join(lines[1..]));
      assert [lines[0]] + lines[1..] == lines;
    }
  }

  /** Joining the concatenation of two non-empty line lists. */
  lemma {:induction false} JoinAppend(xs: seq<string>, ys: seq<string>)
    requires |xs| >= 1 && |ys| >= 1
    ensures Join(xs + ys) == Join(xs) + "\n" + Join(ys)
  {
    if |xs| > 1 {
      JoinAppend(xs[1..], ys);
      assert (xs + ys)[1..] == xs[1..] + ys;
    }
  }

  /** No element occurs twice. */
  predicate Distinct(xs: seq<string>) {
    forall i, j :: 0 <= i < j < |xs| ==> xs[i] != xs[j]
  }

  /** The set of elements of a sequence. */
  function Elements(xs: seq<string>): set<string> {
    set i | 0 <= i < |xs| :: xs[i]
  }

  lemma ElementsSnoc(xs: seq<string>, x: string)
    ensures Elements(xs + [x]) == Elements(xs) + {x}
  {
    var ys := xs + [x];
    forall y ensures y in Elements(ys) <==> y in Elements(xs) + {x} {
      if y in Elements(xs) {
        var i :| 0 <= i < |xs| && xs[i] == y;
        assert ys[i] == y;
      }
      if y == x {
        assert ys[|xs|] == y;
      }
    }
  }

  lemma DistinctSnoc(xs: seq<string>, x: string)
    requires Distinct(xs) && x !in xs
    ensures Distinct(xs + [x])
  {
  }

  /** A sequence without repetitions has as many elements as its set. */
  lemma {:induction false} DistinctCard(xs: seq<string>)
    requires Distinct(xs)
    ensures |Elements(xs)| == |xs|
  {
    if xs != [] {
      var init := xs[..|xs| - 1];
      assert init + [xs[|xs| - 1]] == xs;
      assert Distinct(init);
      DistinctCard(init);
      ElementsSnoc(init, xs[|xs| - 1]);
      assert xs[|xs| - 1] !in Elements(init);
    }
  }

  /** Sequence concatenation regrouped. */
  lemma Regroup<T>(a: seq<T>, b: seq<T>, c: seq<T>)
    ensures a + b + c == a + (b + c)
  {
  }
}
