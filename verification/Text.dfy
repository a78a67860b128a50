/** ASCII text helpers shared by the models: whitespace, case, trimming and searching. */
module Text {

  datatype Option<+T> = None | Some(value: T) {
    function GetOr(default: T): T {
      if Some? then value else default
    }
  }

  /** The ASCII part of JavaScript's `\s` and of `String.prototype.trim`. */
  predicate JsSpace(c: char) {
    c == ' ' || '\t' <= c <= '\r'
  }

  /** The ASCII part of what Python's `str.strip` removes: also the four separators 0x1c-0x1f. */
  predicate PySpace(c: char) {
    JsSpace(c) || '\U{1c}' <= c <= '\U{1f}'
  }

  predicate All(s: string, p: char -> bool) {
    forall i :: 0 <= i < |s| ==> p(s[i])
  }

  function StripLeft(s: string, space: char -> bool): string {
    if s != [] && space(s[0]) then StripLeft(s[1..], space) else s
  }

  function StripRight(s: string, space: char -> bool): string {
    if s != [] && space(s[|s| - 1]) then StripRight(s[..|s| - 1], space) else s
  }

  function Strip(s: string, space: char -> bool): string {
    StripRight(StripLeft(s, space), space)
  }

  /** Neither end is a space. */
  predicate Trimmed(s: string, space: char -> bool) {
    s != [] ==> !space(s[0]) && !space(s[|s| - 1])
  }

  function Trim(s: string): string {
    Strip(s, JsSpace)
  }

  /** Python's `str.strip`. */
  function PyStrip(s: string): string {
    Strip(s, PySpace)
  }

  predicate IsDigit(c: char) {
    '0' <= c <= '9'
  }

  /** A whole number in decimal digits. */
  function Decimal(n: nat): (s: string)
    ensures s != "" && All(s, IsDigit)
  {
    var d := ['0' + (n % 10) as char];
    if n < 10 then d else Decimal(n / 10) + d
  }

  /** `Number` of a string of decimal digits. */
  function DigitsValue(s: string): nat
    requires All(s, IsDigit)
  {
    if s == "" then 0 else 10 * DigitsValue(s[..|s| - 1]) + (s[|s| - 1] as int - '0' as int)
  }

  lemma {:induction false} DecimalValue(n: nat)
    ensures DigitsValue(Decimal(n)) == n
  {
    var d := ['0' + (n % 10) as char];
    if n < 10 {
      assert d[..0] == "";
    } else {
      DecimalValue(n / 10);
      assert (Decimal(n / 10) + d)[..|Decimal(n / 10) + d| - 1] == Decimal(n / 10);
    }
  }

  function LowerChar(c: char): char {
    if 'A' <= c <= 'Z' then c + 32 as char else c
  }

  function UpperChar(c: char): char {
    if 'a' <= c <= 'z' then c - 32 as char else c
  }

  function Lower(s: string): string {
    seq(|s|, i requires 0 <= i < |s| => LowerChar(s[i]))
  }

  function Upper(s: string): string {
    seq(|s|, i requires 0 <= i < |s| => UpperChar(s[i]))
  }

  predicate At(s: string, i: nat, pattern: string) {
    i + |pattern| <= |s| && s[i..i + |pattern|] == pattern
  }

  lemma StripIsTrimmed(s: string, space: char -> bool)
    ensures Trimmed(Strip(s, space), space)
    decreases |s|
  {
    StripLeftHead(s, space);
    StripRightEnds(StripLeft(s, space), space);
  }

  lemma StripLeftHead(s: string, space: char -> bool)
    ensures StripLeft(s, space) != [] ==> !space(StripLeft(s, space)[0])
  {
  }

  lemma StripRightEnds(s: string, space: char -> bool)
    ensures var r := StripRight(s, space); r != [] ==> r[0] == s[0] && !space(r[|r| - 1])
  {
  }

  lemma StripOfTrimmed(s: string, space: char -> bool)
    requires Trimmed(s, space)
    ensures Strip(s, space) == s
  {
  }

  /** Stripping removes exactly the padding around a trimmed, non-empty core. */
  lemma StripPadded(left: string, core: string, right: string, space: char -> bool)
    requires All(left, space) && All(right, space)
    requires core != [] && Trimmed(core, space)
    ensures Strip(left + core + right, space) == core
  {
    StripLeftPadded(left, core + right, space);
    assert left + core + right == left + (core + right);
    StripRightPadded(core, right, space);
  }

  lemma {:induction false} StripLeftPadded(left: string, rest: string, space: char -> bool)
    requires All(left, space)
    requires rest != [] ==> !space(rest[0])
    ensures StripLeft(left + rest, space) == rest
  {
    if left == [] {
      assert left + rest == rest;
    } else {
      assert (left + rest)[1..] == left[1..] + rest;
      StripLeftPadded(left[1..], rest, space);
    }
  }

  lemma {:induction false} StripRightPadded(core: string, right: string, space: char -> bool)
    requires All(right, space)
    requires core != [] ==> !space(core[|core| - 1])
    ensures StripRight(core + right, space) == core
  {
    if right == [] {
      assert core + right == core;
    } else {
      var n := |right| - 1;
      assert (core + right)[..|core + right| - 1] == core + right[..n];
      StripRightPadded(core, right[..n], space);
    }
  }

  lemma StripSpaces(s: string, space: char -> bool)
    requires All(s, space)
    ensures Strip(s, space) == ""
  {
    StripLeftPadded(s, "", space);
    assert s + "" == s;
  }

  lemma {:induction false} StripRightKeepsHead(s: string, space: char -> bool)
    requires s != [] && !space(s[0])
    ensures StripRight(s, space) != []
  {
    if |s| > 1 { StripRightKeepsHead(s[..|s| - 1], space); }
  }

  lemma {:induction false} StripLeftEmpties(s: string, space: char -> bool)
    requires StripLeft(s, space) == []
    ensures All(s, space)
  {
    if s != [] {
      StripLeftEmpties(s[1..], space);
      assert forall i :: 1 <= i < |s| ==> s[i] == s[1..][i - 1];
    }
  }

  /** Only white space strips to nothing. */
  lemma BlankIsSpace(s: string, space: char -> bool)
    ensures Strip(s, space) == "" <==> All(s, space)
  {
    if Strip(s, space) == "" {
      StripLeftHead(s, space);
      if StripLeft(s, space) != [] { StripRightKeepsHead(StripLeft(s, space), space); }
      StripLeftEmpties(s, space);
    } else if All(s, space) {
      StripSpaces(s, space);
    }
  }

  /** A pattern does not stand at `i` when one of its characters differs. */
  lemma NotAt(s: string, i: nat, pattern: string, k: nat)
    requires k < |pattern| && (i + |pattern| <= |s| ==> s[i + k] != pattern[k])
    ensures !At(s, i, pattern)
  {
    if i + |pattern| <= |s| { assert s[i..i + |pattern|][k] == s[i + k]; }
  }

  lemma {:induction false} StripLeftSkips(left: string, rest: string, space: char -> bool)
    requires All(left, space)
    ensures StripLeft(left + rest, space) == StripLeft(rest, space)
  {
    if left == [] {
      assert left + rest == rest;
    } else {
      assert (left + rest)[1..] == left[1..] + rest;
      StripLeftSkips(left[1..], rest, space);
    }
  }

  lemma {:induction false} StripRightSkips(rest: string, right: string, space: char -> bool)
    requires All(right, space)
    ensures StripRight(rest + right, space) == StripRight(rest, space)
  {
    if right == [] {
      assert rest + right == rest;
    } else {
      var n := |right| - 1;
      assert (rest + right)[..|rest + right| - 1] == rest + right[..n];
      StripRightSkips(rest, right[..n], space);
    }
  }

  lemma {:induction false} StripLeftPasses(s: string, right: string, space: char -> bool)
    requires !All(s, space)
    ensures StripLeft(s + right, space) == StripLeft(s, space) + right
  {
    assert s != [];
    if space(s[0]) {
      assert (s + right)[1..] == s[1..] + right;
      assert s == [s[0]] + s[1..];
      StripLeftPasses(s[1..], right, space);
    }
  }

  /** White space around a text does not change what it strips to. */
  lemma TrimAround(left: string, core: string, right: string, space: char -> bool)
    requires All(left, space) && All(right, space)
    ensures Strip(left + core + right, space) == Strip(core, space)
  {
    if All(core, space) {
      BlankIsSpace(core, space);
      BlankIsSpace(left + core + right, space);
    } else {
      assert left + core + right == left + (core + right);
      StripLeftSkips(left, core + right, space);
      StripLeftPasses(core, right, space);
      StripRightSkips(StripLeft(core, space), right, space);
    }
  }

  /** Stripping on the right keeps a prefix, up to the last character that is not a space. */
  lemma {:induction false} StripRightPrefix(s: string, space: char -> bool) returns (m: nat)
    ensures m <= |s| && StripRight(s, space) == s[..m]
    ensures (forall i :: m <= i < |s| ==> space(s[i])) && (m > 0 ==> !space(s[m - 1]))
  {
    if s != [] && space(s[|s| - 1]) {
      m := StripRightPrefix(s[..|s| - 1], space);
      assert s[..|s| - 1][..m] == s[..m];
    } else {
      m := |s|;
      assert s[..m] == s;
    }
  }

  lemma {:induction false} StripLeftSuffix(s: string, space: char -> bool, k: nat)
    requires k <= |s| && (forall i :: 0 <= i < k ==> space(s[i])) && (k < |s| ==> !space(s[k]))
    ensures StripLeft(s, space) == s[k..]
  {
    if k > 0 {
      StripLeftSuffix(s[1..], space, k - 1);
      assert s[1..][k - 1..] == s[k..];
    }
  }

  /** What starts a stripped text starts the text where its first character that is not a space stands. */
  lemma StrippedStarts(s: string, space: char -> bool, k: nat, pattern: string)
    requires k <= |s| && (forall i :: 0 <= i < k ==> space(s[i])) && (k < |s| ==> !space(s[k]))
    requires pattern != "" && !space(pattern[|pattern| - 1])
    ensures At(Strip(s, space), 0, pattern) <==> At(s, k, pattern)
  {
    StripLeftSuffix(s, space, k);
    var m := StripRightPrefix(s[k..], space);
    var r := Strip(s, space);
    assert r == s[k..][..m] == s[k..k + m];
    if At(r, 0, pattern) {
      assert s[k..k + |pattern|] == r[0..|pattern|];
    }
    if At(s, k, pattern) {
      assert s[k..][|pattern| - 1] == s[k..k + |pattern|][|pattern| - 1] == pattern[|pattern| - 1];
      assert |pattern| <= m;
      assert r[0..|pattern|] == s[k..k + |pattern|];
    }
  }

  /** Letters change case letter by letter, from "A"/"a" to "Z"/"z", and nothing else changes. */
  lemma CaseTable(c: char, d: char)
    ensures LowerChar('A') == 'a' && LowerChar('Z') == 'z' && UpperChar('a') == 'A' && UpperChar('z') == 'Z'
    ensures 'A' <= c <= 'Z' && 'A' <= d <= 'Z' ==>
      LowerChar(d) as int - LowerChar(c) as int == d as int - c as int
    ensures 'a' <= c <= 'z' && 'a' <= d <= 'z' ==>
      UpperChar(d) as int - UpperChar(c) as int == d as int - c as int
    ensures !('A' <= c <= 'Z') ==> LowerChar(c) == c
    ensures !('a' <= c <= 'z') ==> UpperChar(c) == c
  {
  }

  /** White space, written out. */
  lemma SpaceTable(c: char)
    ensures JsSpace(c) <==> c in {' ', '\t', '\n', '\U{b}', '\U{c}', '\r'}
    ensures PySpace(c) <==> JsSpace(c) || c in {'\U{1c}', '\U{1d}', '\U{1e}', '\U{1f}'}
  {
  }

  // ---- equality up to the case of letters ----

  predicate SameLetter(a: char, b: char) {
    || a == b
    || ('a' <= a <= 'z' && b as int == a as int - 32)
    || ('a' <= b <= 'z' && a as int == b as int - 32)
  }

  predicate SameLetters(a: string, b: string) {
    |a| == |b| && forall i :: 0 <= i < |a| ==> SameLetter(a[i], b[i])
  }

  lemma SameCased(a: string, b: string)
    ensures Upper(a) == Upper(b) <==> SameLetters(a, b)
    ensures Lower(a) == Lower(b) <==> SameLetters(a, b)
  {
    if |a| == |b| {
      forall i | 0 <= i < |a|
        ensures Upper(a)[i] == Upper(b)[i] <==> SameLetter(a[i], b[i])
        ensures Lower(a)[i] == Lower(b)[i] <==> SameLetter(a[i], b[i])
      {
      }
    }
  }

  lemma {:induction false} StripLeftUpper(s: string)
    ensures StripLeft(Upper(s), PySpace) == Upper(StripLeft(s, PySpace))
  {
    if s != [] {
      assert PySpace(Upper(s)[0]) <==> PySpace(s[0]);
      assert Upper(s)[1..] == Upper(s[1..]);
      StripLeftUpper(s[1..]);
    }
  }

  lemma {:induction false} StripRightUpper(s: string)
    ensures StripRight(Upper(s), PySpace) == Upper(StripRight(s, PySpace))
  {
    if s != [] {
      var n := |s| - 1;
      assert PySpace(Upper(s)[n]) <==> PySpace(s[n]);
      assert Upper(s)[..n] == Upper(s[..n]);
      StripRightUpper(s[..n]);
    }
  }

  lemma UpperStripped(s: string)
    ensures PyStrip(Upper(s)) == Upper(PyStrip(s))
  {
    StripLeftUpper(s);
    StripRightUpper(StripLeft(s, PySpace));
  }
}
