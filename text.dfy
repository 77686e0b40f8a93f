/**
 * The pieces of Python 2 byte-string behaviour the requirement tracer relies
 * on: `\s` whitespace, `str.splitlines`, `str.strip`, `str.startswith`,
 * `str.lower` and `int()` on a string.
 */
module Text {
  import opened Wrappers

  /** Whitespace as `\s`, `str.strip()` and `int()` see it on a byte string. */
  predicate IsSpace(c: char) {
    c == ' ' || c == '\t' || c == '\n' || c == '\r' || c == '\U{0B}' || c == '\U{0C}'
  }

  /** The characters at which `str.splitlines` breaks a byte string. */
  predicate IsLineBreak(c: char) {
    c == '\n' || c == '\r'
  }

  predicate NoLineBreak(line: string) {
    forall k :: 0 <= k < |line| ==> !IsLineBreak(line[k])
  }

  predicate StartsWith(s: string, prefix: string) {
    |prefix| <= |s| && s[..|prefix|] == prefix
  }

  // ---------------------------------------------------------------------------
  // str.splitlines()
  // ---------------------------------------------------------------------------

  /** The index of the first line break at or after `i`, or `|s|` if none. */
  function LineEnd(s: string, i: nat): (e: nat)
    requires i <= |s|
    ensures i <= e <= |s|
    ensures forall k :: i <= k < e ==> !IsLineBreak(s[k])
    ensures e < |s| ==> IsLineBreak(s[e])
    decreases |s| - i
  {
    if i == |s| || IsLineBreak(s[i]) then i else LineEnd(s, i + 1)
  }

  /** Where the next line begins after the break at `e`; "\r\n" is one break. */
  function NextLineStart(s: string, e: nat): (n: nat)
    requires e < |s|
    ensures e < n <= |s|
  {
    if s[e] == '\r' && e + 1 < |s| && s[e + 1] == '\n' then e + 2 else e + 1
  }

  /**
   * `s.splitlines()`: the lines of `s` without their terminators. A final
   * terminator does not open an empty last line, and "" has no lines.
   */
  function SplitLines(s: string): (lines: seq<string>)
    ensures forall k :: 0 <= k < |lines| ==> NoLineBreak(lines[k])
    ensures |lines| <= |s|
    ensures s != [] ==> lines != []
    decreases |s|
  {
    if s == [] then []
    else
      var e := LineEnd(s, 0);
      if e == |s| then [s] else [s[..e]] + SplitLines(s[NextLineStart(s, e)..])
  }

  /** Each line followed by "\n": the text an editor hands out for whole lines. */
  function JoinLines(lines: seq<string>): string
  {
    if lines == [] then "" else lines[0] + "\n" + JoinLines(lines[1..])
  }

  /** Splitting the text of whole lines gives back exactly those lines. */
  lemma {:induction false} SplitJoinLines(lines: seq<string>)
    requires forall k :: 0 <= k < |lines| ==> NoLineBreak(lines[k])
    ensures SplitLines(JoinLines(lines)) == lines
  {
    if lines != [] {
      var l := lines[0];
      var rest := JoinLines(lines[1..]);
      var s := l + "\n" + rest;
      assert s == JoinLines(lines);
      var e := LineEnd(s, 0);
      assert s[|l|] == '\n';
      assert forall k :: 0 <= k < |l| ==> s[k] == l[k];
      assert e == |l|;
      assert NextLineStart(s, e) == |l| + 1;
      assert s[|l| + 1..] == rest;
      assert s[..e] == l;
      SplitJoinLines(lines[1..]);
    }
  }

  // ---------------------------------------------------------------------------
  // str.strip()
  // ---------------------------------------------------------------------------

  /** The index of the first non-blank character at or after `i`, or `|s|`. */
  function SkipSpaces(s: string, i: nat): (j: nat)
    requires i <= |s|
    ensures i <= j <= |s| && (j == |s| || !IsSpace(s[j]))
    ensures forall k :: i <= k < j ==> IsSpace(s[k])
    decreases |s| - i
  {
    if i < |s| && IsSpace(s[i]) then SkipSpaces(s, i + 1) else i
  }

  /** The end of `s[..j]` once its trailing blanks are dropped. */
  function TrimEnd(s: string, j: nat): (e: nat)
    requires j <= |s|
    ensures e <= j && (e == 0 || !IsSpace(s[e - 1]))
    ensures forall k :: e <= k < j ==> IsSpace(s[k])
  {
    if j > 0 && IsSpace(s[j - 1]) then TrimEnd(s, j - 1) else j
  }

  /** `s.lstrip()`. */
  function LStrip(s: string): string
  {
    s[SkipSpaces(s, 0)..]
  }

  /** `s.rstrip()`. */
  function RStrip(s: string): string
  {
    s[..TrimEnd(s, |s|)]
  }

  /** `s.strip()`: leading and trailing whitespace removed. */
  function Strip(s: string): string
  {
    RStrip(LStrip(s))
  }

  /**
   * `line.strip().startswith(p)` for a prefix without whitespace is decided by
   * the first non-blank characters: the trailing strip never matters.
   */
  lemma StripStartsWith(line: string, prefix: string)
    requires prefix != [] && forall k :: 0 <= k < |prefix| ==> !IsSpace(prefix[k])
    ensures StartsWith(Strip(line), prefix) <==> StartsWith(LStrip(line), prefix)
  {
    var l := LStrip(line);
    var r := RStrip(l);
    assert r == l[..|r|];
    if StartsWith(l, prefix) {
      var last := |prefix| - 1;
      assert l[last] == prefix[last];
      assert !IsSpace(l[last]);
      assert last < |r|;
      assert r[..|prefix|] == l[..|prefix|];
    }
    if StartsWith(r, prefix) {
      assert l[..|prefix|] == r[..|prefix|];
    }
  }

  /** A string that neither starts nor ends with whitespace is its own strip. */
  lemma StripUnpadded(s: string)
    requires s != [] && !IsSpace(s[0]) && !IsSpace(s[|s| - 1])
    ensures LStrip(s) == s && Strip(s) == s
  {
  }

  // ---------------------------------------------------------------------------
  // str.lower()
  // ---------------------------------------------------------------------------

  function LowerChar(c: char): char
  {
    if 'A' <= c <= 'Z' then (c as int + 32) as char else c
  }

  /** `s.lower()` on a byte string: ASCII capitals become small letters. */
  function Lower(s: string): (r: string)
    ensures |r| == |s|
  {
    seq(|s|, k requires 0 <= k < |s| => LowerChar(s[k]))
  }

  // ---------------------------------------------------------------------------
  // int() of a byte string
  // ---------------------------------------------------------------------------

  predicate IsDigit(c: char) {
    '0' <= c <= '9'
  }

  predicate AllDigits(s: string) {
    forall k :: 0 <= k < |s| ==> IsDigit(s[k])
  }

  /** The value of a string of decimal digits, most significant first. */
  function DigitsValue(s: string): (n: nat)
    requires AllDigits(s)
  {
    if s == [] then 0 else DigitsValue(s[..|s| - 1]) * 10 + (s[|s| - 1] as int - '0' as int)
  }

  /** Decimal digits of a natural number, as `str()` prints it. */
  function ShowNat(n: nat): (s: string)
    ensures s != [] && AllDigits(s)
  {
    var d := ['0' + ((n % 10) as char)];
    if n < 10 then d else ShowNat(n / 10) + d
  }

  /** `str()` of an integer. */
  function ShowInt(n: int): string
  {
    if n < 0 then "-" + ShowNat(-n) else ShowNat(n)
  }

  /**
   * `int(s)` in base 10: surrounding whitespace, an optional sign (which may
   * be followed by whitespace) and at least one decimal digit; `None` where
   * Python raises `ValueError`.
   */
  function ParseInt(s: string): (r: Option<int>)
  {
    var t := Strip(s);
    if t == [] then None
    else if t[0] == '-' || t[0] == '+' then
      var digits := LStrip(t[1..]);
      if digits != [] && AllDigits(digits) then
        var v: int := DigitsValue(digits);
        Some(if t[0] == '-' then -v else v)
      else None
    else if AllDigits(t) then Some(DigitsValue(t))
    else None
  }

  lemma {:induction false} DigitsOfShowNat(n: nat)
    ensures DigitsValue(ShowNat(n)) == n
  {
    var s := ShowNat(n);
    if n >= 10 {
      DigitsOfShowNat(n / 10);
      assert s[..|s| - 1] == ShowNat(n / 10);
    }
  }

  /** A plain run of digits parses to its value. */
  lemma ParseDigits(d: string)
    requires d != [] && AllDigits(d)
    ensures ParseInt(d) == Some(DigitsValue(d))
  {
    assert IsDigit(d[0]) && IsDigit(d[|d| - 1]);
    StripUnpadded(d);
  }

  /** A minus sign and a run of digits parse to the negated value. */
  lemma ParseNegatedDigits(d: string)
    requires d != [] && AllDigits(d)
    ensures ParseInt("-" + d) == Some(-(DigitsValue(d) as int))
  {
    var s := "-" + d;
    assert IsDigit(d[0]) && IsDigit(d[|d| - 1]);
    StripUnpadded(d);
    assert s[|s| - 1] == d[|d| - 1];
    StripUnpadded(s);
    var t := Strip(s);
    assert t == s && t[0] == '-';
    assert t[1..] == d;
    assert LStrip(t[1..]) == d;
  }

  /** Parsing what `str()` prints gives the number back. */
  lemma ParseShowInt(n: int)
    ensures ParseInt(ShowInt(n)) == Some(n)
  {
    if n < 0 {
      var d := ShowNat(-n);
      DigitsOfShowNat(-n);
      ParseNegatedDigits(d);
      assert ShowInt(n) == "-" + d;
    } else {
      var d := ShowNat(n);
      DigitsOfShowNat(n);
      ParseDigits(d);
      assert ShowInt(n) == d;
    }
  }
}
