/** The width scanner of the breakpoint contract: `@media` preludes and the pixel widths in them. */
module Stylesheets {
  import opened Text

  const MEDIA := "@media"

  // ---- scanning helpers ----

  /** First position at or after `i` whose character fails `p`. */
  function RunEnd(s: string, i: nat, p: char -> bool): (r: nat)
    requires i <= |s|
    ensures i <= r <= |s|
    decreases |s| - i
  {
    if i < |s| && p(s[i]) then RunEnd(s, i + 1, p) else i
  }

  lemma {:induction false} RunEndIs(s: string, i: nat, p: char -> bool, r: nat)
    requires i <= r <= |s| && (r < |s| ==> !p(s[r])) && forall k :: i <= k < r ==> p(s[k])
    ensures RunEnd(s, i, p) == r
    decreases r - i
  {
    if i < r { RunEndIs(s, i + 1, p, r); }
  }

  lemma {:induction false} RunEndSpec(s: string, i: nat, p: char -> bool)
    requires i <= |s|
    ensures var r := RunEnd(s, i, p); (r < |s| ==> !p(s[r])) && forall k :: i <= k < r ==> p(s[k])
    decreases |s| - i
  {
    if i < |s| && p(s[i]) { RunEndSpec(s, i + 1, p); }
  }

  function Not(c: char): char -> bool {
    (x: char) => x != c
  }

  // ---- media preludes ----

  /** One way of matching `@media\s+([^{]+?)\s*\{` at the start of `s`: white space up to `a`, the
      captured text up to `b`, white space and a brace ending the match at `e`. */
  ghost predicate MediaMatch(s: string, a: nat, b: nat, e: nat) {
    && At(s, 0, "@media") && 6 < a < b < e <= |s|
    && All(s[6..a], JsSpace) && '{' !in s[a..b] && All(s[b..e - 1], JsSpace) && s[e - 1] == '{'
  }

  /** Where a match at the start of `s` ends. */
  function MediaEnd(s: string): Option<nat> {
    if At(s, 0, MEDIA) && |s| > 6 && JsSpace(s[6]) then
      var brace := RunEnd(s, 6, Not('{'));
      if 8 <= brace < |s| then Some(brace + 1) else None
    else None
  }

  function Prelude(s: string, end: nat): string
    requires 7 <= end <= |s|
  {
    Trim(s[6..end - 1])
  }

  /** The trimmed captures of the successive matches. */
  function Preludes(s: string): seq<string>
    decreases |s|
  {
    if s == "" then []
    else
      match MediaEnd(s)
      case Some(e) => [Prelude(s, e)] + Preludes(s[e..])
      case None => Preludes(s[1..])
  }

  method ExtractMediaPreludes(source: string) returns (preludes: seq<string>)
    ensures preludes == Preludes(source)
  {
    hide MediaEnd, Prelude;
    preludes := [];
    var i := 0;
    while i < |source|
      invariant i <= |source|
      invariant Preludes(source) == preludes + Preludes(source[i..])
    {
      var rest := source[i..];
      MediaEndBounds(rest);
      match MediaEnd(rest)
      case Some(e) =>
        assert rest[e..] == source[i + e..];
        preludes := preludes + [Prelude(rest, e)];
        i := i + e;
      case None =>
        assert rest[1..] == source[i + 1..];
        i := i + 1;
    }
    assert source[|source|..] == "";
  }

  lemma MediaEndBounds(s: string)
    ensures MediaEnd(s).Some? ==> 9 <= MediaEnd(s).value <= |s|
  {
  }

  /** The scanner is the regular expression: it finds a match exactly when there is a way to match, the
      end does not depend on the way, and neither does the trimmed capture. */
  lemma MediaEndIsRegex(s: string, e: nat)
    ensures MediaEnd(s) == Some(e) <==> exists a: nat, b: nat :: MediaMatch(s, a, b, e)
    ensures forall a: nat, b: nat :: MediaMatch(s, a, b, e) ==> Trim(s[a..b]) == Prelude(s, e)
  {
    hide Trim;
    if MediaEnd(s) == Some(e) {
      RunEndSpec(s, 6, Not('{'));
      assert MediaMatch(s, 7, e - 1, e);
    }
    forall a: nat, b: nat | MediaMatch(s, a, b, e) ensures MediaEnd(s) == Some(e) && Trim(s[a..b]) == Prelude(s, e) {
      MatchIsEnd(s, a, b, e);
    }
  }

  lemma MatchIsEnd(s: string, a: nat, b: nat, e: nat)
    requires MediaMatch(s, a, b, e)
    ensures MediaEnd(s) == Some(e) && Trim(s[a..b]) == Prelude(s, e)
  {
    forall k | 6 <= k < e - 1 ensures s[k] != '{' {
      if k < a { assert JsSpace(s[6..a][k - 6]); }
      else if k < b { assert s[k] == s[a..b][k - a]; }
      else { assert JsSpace(s[b..e - 1][k - b]); }
    }
    assert JsSpace(s[6..a][0]);
    RunEndIs(s, 6, Not('{'), e - 1);
    assert s[6..e - 1] == s[6..a] + s[a..b] + s[b..e - 1];
    TrimAround(s[6..a], s[a..b], s[b..e - 1], JsSpace);
  }

  // ---- printed stylesheets ----

  /** A rule: white space, the prelude, white space, a brace, and whatever follows up to the next rule. */
  datatype Rule = Rule(gap: string, prelude: string, pad: string, text: string)

  /** `@media` stands nowhere in `t`. */
  ghost predicate FreeOf(t: string, pattern: string) {
    forall i: nat :: i <= |t| ==> !At(t, i, pattern)
  }

  ghost predicate WellFormed(r: Rule) {
    && r.gap != "" && All(r.gap, JsSpace) && All(r.pad, JsSpace)
    && r.prelude != "" && Trimmed(r.prelude, JsSpace) && '{' !in r.prelude
    && FreeOf(r.text, "@media")
  }

  function PrintRules(rs: seq<Rule>): string {
    if rs == [] then ""
    else "@media" + rs[0].gap + rs[0].prelude + rs[0].pad + "{" + rs[0].text + PrintRules(rs[1..])
  }

  function PreludesOf(rs: seq<Rule>): seq<string> {
    seq(|rs|, i requires 0 <= i < |rs| => rs[i].prelude)
  }

  /** Text without the pattern stays without it up to a place where the pattern may start, because the
      pattern's first character does not recur in it. */
  lemma FreeThrough(t: string, rest: string, pattern: string)
    requires FreeOf(t, pattern) && t != "" && pattern != ""
    requires rest != "" ==> rest[0] == pattern[0]
    requires forall k :: 1 <= k < |pattern| ==> pattern[k] != pattern[0]
    ensures !At(t + rest, 0, pattern) && FreeOf(t[1..], pattern)
  {
    if |pattern| <= |t| {
      assert !At(t, 0, pattern);
      assert (t + rest)[..|pattern|] == t[..|pattern|];
    } else if rest != "" {
      NotAt(t + rest, 0, pattern, |t|);
    }
    forall i: nat | i <= |t[1..]| ensures !At(t[1..], i, pattern) {
      assert !At(t, i + 1, pattern);
      if i + |pattern| <= |t[1..]| { assert t[1..][i..i + |pattern|] == t[i + 1..i + 1 + |pattern|]; }
    }
  }

  lemma {:induction false} PreludesSkip(t: string, rest: string)
    requires FreeOf(t, "@media") && (rest != "" ==> rest[0] == '@')
    ensures Preludes(t + rest) == Preludes(rest)
  {
    hide FreeOf, Prelude;
    if t == "" {
      assert t + rest == rest;
    } else {
      FreeThrough(t, rest, "@media");
      assert (t + rest)[1..] == t[1..] + rest;
      PreludesSkip(t[1..], rest);
    }
  }

  lemma RuleMatches(r: Rule, rest: string)
    requires WellFormed(r)
    ensures var s := "@media" + r.gap + r.prelude + r.pad + "{" + rest;
      var e := 6 + |r.gap| + |r.prelude| + |r.pad| + 1;
      MediaEnd(s) == Some(e) && Prelude(s, e) == r.prelude && s[e..] == rest
  {
    hide FreeOf;
    var s := "@media" + r.gap + r.prelude + r.pad + "{" + rest;
    var a := 6 + |r.gap|;
    var b := a + |r.prelude|;
    var e := b + |r.pad| + 1;
    assert s[0..6] == "@media" && s[6..a] == r.gap && s[a..b] == r.prelude && s[b..e - 1] == r.pad && s[e - 1] == '{';
    assert MediaMatch(s, a, b, e);
    MatchIsEnd(s, a, b, e);
    StripOfTrimmed(r.prelude, JsSpace);
  }

  lemma {:induction false} PreludesOfRules(rs: seq<Rule>)
    requires forall r :: r in rs ==> WellFormed(r)
    ensures Preludes(PrintRules(rs)) == PreludesOf(rs)
  {
    hide MediaEnd, Prelude, WellFormed;
    if rs != [] {
      var r, rest := rs[0], PrintRules(rs[1..]);
      var s := PrintRules(rs);
      assert WellFormed(r);
      RuleMatches(r, r.text + rest);
      assert s == "@media" + r.gap + r.prelude + r.pad + "{" + (r.text + rest);
      StartsAtMedia(rs[1..]);
      RuleTextIsFree(r);
      PreludesSkip(r.text, rest);
      PreludesOfRules(rs[1..]);
    }
  }

  lemma StartsAtMedia(rs: seq<Rule>)
    ensures PrintRules(rs) != "" ==> PrintRules(rs)[0] == '@'
  {
  }

  lemma RuleTextIsFree(r: Rule)
    requires WellFormed(r)
    ensures FreeOf(r.text, "@media")
  {
  }

  /** On any stylesheet made of rules and text without `@media`, the scanner returns exactly the
      preludes, in order. */
  lemma PreludesInvertPrinting(before: string, rs: seq<Rule>)
    requires FreeOf(before, "@media") && forall r :: r in rs ==> WellFormed(r)
    ensures Preludes(before + PrintRules(rs)) == PreludesOf(rs)
  {
    hide FreeOf, WellFormed;
    StartsAtMedia(rs);
    PreludesSkip(before, PrintRules(rs));
    PreludesOfRules(rs);
  }

  // ---- widths ----

  /** One match of `(?:min|max)-width\s*:\s*(\d+)px` at the start of `s`: a colon at `c`, the digits
      from `d` to `u`. */
  ghost predicate WidthMatch(s: string, c: nat, d: nat, u: nat) {
    && (At(s, 0, "min-width") || At(s, 0, "max-width"))
    && 9 <= c < d < u <= |s| && All(s[9..c], JsSpace) && s[c] == ':' && All(s[c + 1..d], JsSpace)
    && All(s[d..u], IsDigit) && At(s, u, "px")
  }

  /** The digits' bounds in a match at the start of `s`. */
  function WidthAt(s: string): Option<(nat, nat)> {
    if At(s, 0, "min-width") || At(s, 0, "max-width") then
      var c := RunEnd(s, 9, JsSpace);
      if c < |s| && s[c] == ':' then
        var d := RunEnd(s, c + 1, JsSpace);
        var u := RunEnd(s, d, IsDigit);
        if d < u && At(s, u, "px") then Some((d, u)) else None
      else None
    else None
  }

  lemma WidthAtSpec(s: string)
    ensures WidthAt(s).Some? ==>
      var (d, u) := WidthAt(s).value; 9 < d < u <= |s| - 2 && All(s[d..u], IsDigit)
  {
    if WidthAt(s).Some? {
      var d := RunEnd(s, RunEnd(s, 9, JsSpace) + 1, JsSpace);
      RunEndSpec(s, d, IsDigit);
    }
  }

  /** The scanner is the regular expression, which can match in one way only. */
  lemma WidthAtIsRegex(s: string, d: nat, u: nat)
    ensures WidthAt(s) == Some((d, u)) <==> exists c: nat :: WidthMatch(s, c, d, u)
  {
    if WidthAt(s) == Some((d, u)) {
      RunEndSpec(s, 9, JsSpace);
      var c := RunEnd(s, 9, JsSpace);
      RunEndSpec(s, c + 1, JsSpace);
      RunEndSpec(s, d, IsDigit);
      assert WidthMatch(s, c, d, u);
    }
    forall c: nat | WidthMatch(s, c, d, u) ensures WidthAt(s) == Some((d, u)) {
      WidthMatchIsWidthAt(s, c, d, u);
    }
  }

  lemma WidthMatchIsWidthAt(s: string, c: nat, d: nat, u: nat)
    requires WidthMatch(s, c, d, u)
    ensures WidthAt(s) == Some((d, u))
  {
    forall k | 9 <= k < c ensures JsSpace(s[k]) { assert JsSpace(s[9..c][k - 9]); }
    forall k | c + 1 <= k < d ensures JsSpace(s[k]) { assert JsSpace(s[c + 1..d][k - c - 1]); }
    forall k | d <= k < u ensures IsDigit(s[k]) { assert IsDigit(s[d..u][k - d]); }
    assert s[u] == s[u..u + 2][0] == 'p';
    RunEndIs(s, 9, JsSpace, c);
    RunEndIs(s, c + 1, JsSpace, d);
    RunEndIs(s, d, IsDigit, u);
  }

  function Widths(s: string): seq<nat>
    decreases |s|
  {
    if s == "" then []
    else
      WidthAtSpec(s);
      match WidthAt(s)
      case Some((d, u)) => [DigitsValue(s[d..u])] + Widths(s[u + 2..])
      case None => Widths(s[1..])
  }

  method ExtractWidths(prelude: string) returns (widths: seq<nat>)
    ensures widths == Widths(prelude)
  {
    hide WidthAt;
    widths := [];
    var i := 0;
    while i < |prelude|
      invariant i <= |prelude|
      invariant Widths(prelude) == widths + Widths(prelude[i..])
    {
      var rest := prelude[i..];
      WidthAtSpec(rest);
      match WidthAt(rest)
      case Some((d, u)) =>
        assert rest[u + 2..] == prelude[i + u + 2..];
        widths := widths + [DigitsValue(rest[d..u])];
        i := i + u + 2;
      case None =>
        assert rest[1..] == prelude[i + 1..];
        i := i + 1;
    }
    assert prelude[|prelude|..] == "";
  }

  /** A width feature, and the text after it. */
  datatype Feature = Feature(lower: bool, pre: string, post: string, width: nat, text: string)

  ghost predicate FreeOfWidths(t: string) {
    FreeOf(t, "min-width") && FreeOf(t, "max-width")
  }

  ghost predicate WellFormedFeature(f: Feature) {
    All(f.pre, JsSpace) && All(f.post, JsSpace) && FreeOfWidths(f.text)
  }

  function PrintFeatures(fs: seq<Feature>): string {
    if fs == [] then ""
    else
      FeatureName(fs[0])
      + fs[0].pre + ":" + fs[0].post + Decimal(fs[0].width) + "px" + fs[0].text + PrintFeatures(fs[1..])
  }

  function WidthsOf(fs: seq<Feature>): seq<nat> {
    seq(|fs|, i requires 0 <= i < |fs| => fs[i].width)
  }

  lemma {:induction false} WidthsSkip(t: string, rest: string)
    requires FreeOfWidths(t) && (rest != "" ==> rest[0] == 'm')
    ensures Widths(t + rest) == Widths(rest)
  {
    hide FreeOf;
    if t == "" {
      assert t + rest == rest;
    } else {
      FreeThrough(t, rest, "min-width");
      FreeThrough(t, rest, "max-width");
      assert (t + rest)[1..] == t[1..] + rest;
      WidthsSkip(t[1..], rest);
    }
  }

  function FeatureName(f: Feature): (name: string)
    ensures |name| == 9
  {
    if f.lower then "min-width" else "max-width"
  }

  lemma FeaturePieces(name: string, pre: string, post: string, digits: string, rest: string)
    requires |name| == 9
    ensures var s := name + pre + ":" + post + digits + "px" + rest;
      var c := 9 + |pre|;
      var d := c + 1 + |post|;
      var u := d + |digits|;
      && u + 2 <= |s| && s[0..9] == name && s[9..c] == pre && s[c] == ':' && s[c + 1..d] == post
      && s[d..u] == digits && s[u..u + 2] == "px" && s[u + 2..] == rest
  {
  }

  lemma FeatureMatches(f: Feature, rest: string)
    requires WellFormedFeature(f)
    ensures var s := FeatureName(f) + f.pre + ":" + f.post + Decimal(f.width) + "px" + rest;
      var d := 9 + |f.pre| + 1 + |f.post|;
      var u := d + |Decimal(f.width)|;
      u + 2 <= |s| && WidthAt(s) == Some((d, u)) && s[d..u] == Decimal(f.width) && s[u + 2..] == rest
  {
    hide FreeOfWidths, Decimal, WidthAt;
    FeaturePieces(FeatureName(f), f.pre, f.post, Decimal(f.width), rest);
    var s := FeatureName(f) + f.pre + ":" + f.post + Decimal(f.width) + "px" + rest;
    var c := 9 + |f.pre|;
    var d := c + 1 + |f.post|;
    var u := d + |Decimal(f.width)|;
    FeatureIsMatch(s, f, c, d, u);
    WidthMatchIsWidthAt(s, c, d, u);
  }

  lemma FeatureIsMatch(s: string, f: Feature, c: nat, d: nat, u: nat)
    requires WellFormedFeature(f) && 9 <= c < d < u && u + 2 <= |s|
    requires s[0..9] == FeatureName(f) && s[9..c] == f.pre && s[c] == ':' && s[c + 1..d] == f.post
    requires s[d..u] == Decimal(f.width) && s[u..u + 2] == "px"
    ensures WidthMatch(s, c, d, u)
  {
    hide FreeOfWidths, Decimal;
  }

  lemma {:induction false} WidthsOfFeatures(fs: seq<Feature>)
    requires forall f :: f in fs ==> WellFormedFeature(f)
    ensures Widths(PrintFeatures(fs)) == WidthsOf(fs)
  {
    hide WellFormedFeature, Widths, Decimal, FeatureName;
    if fs == [] {
      NoWidths();
    } else {
      WidthsOfFeatures(fs[1..]);
      FirstWidth(fs[0], PrintFeatures(fs[1..]));
      StartsAtWidth(fs[1..]);
      FeatureTextIsFree(fs[0]);
      WidthsSkip(fs[0].text, PrintFeatures(fs[1..]));
      assert PrintFeatures(fs) == FeatureName(fs[0]) + fs[0].pre + ":" + fs[0].post
        + Decimal(fs[0].width) + "px" + (fs[0].text + PrintFeatures(fs[1..]));
    }
  }

  lemma NoWidths()
    ensures Widths("") == []
  {
  }

  lemma FeatureTextIsFree(f: Feature)
    requires WellFormedFeature(f)
    ensures FreeOfWidths(f.text)
  {
  }

  lemma FirstWidth(f: Feature, rest: string)
    requires WellFormedFeature(f)
    ensures Widths(FeatureName(f) + f.pre + ":" + f.post + Decimal(f.width) + "px" + (f.text + rest))
      == [f.width] + Widths(f.text + rest)
  {
    hide WidthAt, FreeOfWidths, Decimal, FeatureName, WellFormedFeature;
    FeatureMatches(f, f.text + rest);
    DecimalValue(f.width);
  }

  lemma StartsAtWidth(fs: seq<Feature>)
    ensures PrintFeatures(fs) != "" ==> PrintFeatures(fs)[0] == 'm'
  {
  }

  /** From any prelude the scanner reads back exactly the printed pixel values, in order. */
  lemma WidthsInvertPrinting(before: string, fs: seq<Feature>)
    requires FreeOfWidths(before) && forall f :: f in fs ==> WellFormedFeature(f)
    ensures Widths(before + PrintFeatures(fs)) == WidthsOf(fs)
  {
    hide FreeOfWidths;
    StartsAtWidth(fs);
    WidthsSkip(before, PrintFeatures(fs));
    WidthsOfFeatures(fs);
  }

  // ---- the check of one stylesheet ----

  const APPROVED := {480, 720, 880, 1040}

  datatype Violation = NoMediaRule | Stray(prelude: string, width: nat)

  function StraysIn(prelude: string, ws: seq<nat>): seq<Violation> {
    if ws == [] then []
    else
      StraysIn(prelude, ws[..|ws| - 1]) + (if ws[|ws| - 1] in APPROVED then [] else [Stray(prelude, ws[|ws| - 1])])
  }

  function Strays(ps: seq<string>): seq<Violation> {
    if ps == [] then [] else Strays(ps[..|ps| - 1]) + StraysIn(ps[|ps| - 1], Widths(ps[|ps| - 1]))
  }

  function Violations(source: string): seq<Violation> {
    if Preludes(source) == [] then [NoMediaRule] else Strays(Preludes(source))
  }

  method CheckSource(source: string) returns (violations: seq<Violation>)
    ensures violations == Violations(source)
  {
    hide Preludes, Widths;
    violations := [];
    var preludes := ExtractMediaPreludes(source);
    if |preludes| == 0 {
      return [NoMediaRule];
    }
    for i := 0 to |preludes|
      invariant violations == Strays(preludes[..i])
    {
      assert preludes[..i + 1][..i] == preludes[..i];
      var widths := ExtractWidths(preludes[i]);
      for j := 0 to |widths|
        invariant violations == Strays(preludes[..i]) + StraysIn(preludes[i], widths[..j])
      {
        assert widths[..j + 1][..j] == widths[..j];
        if widths[j] !in APPROVED {
          violations := violations + [Stray(preludes[i], widths[j])];
        }
      }
      assert widths[..|widths|] == widths;
    }
    assert preludes[..|preludes|] == preludes;
  }

  predicate WidthsApproved(prelude: string) {
    forall w :: w in Widths(prelude) ==> w in {480, 720, 880, 1040}
  }

  lemma {:induction false} NoStraysIn(prelude: string, ws: seq<nat>)
    ensures StraysIn(prelude, ws) == [] <==> forall w :: w in ws ==> w in APPROVED
  {
    if ws != [] {
      NoStraysIn(prelude, ws[..|ws| - 1]);
      assert ws == ws[..|ws| - 1] + [ws[|ws| - 1]];
    }
  }

  lemma {:induction false} NoStrays(ps: seq<string>)
    ensures Strays(ps) == [] <==> forall p :: p in ps ==> WidthsApproved(p)
  {
    hide Widths, StraysIn;
    if ps != [] {
      var last := ps[|ps| - 1];
      NoStrays(ps[..|ps| - 1]);
      NoStraysIn(last, Widths(last));
      assert StraysIn(last, Widths(last)) == [] <==> WidthsApproved(last);
      assert ps == ps[..|ps| - 1] + [last];
      assert forall p :: p in ps <==> p in ps[..|ps| - 1] || p == last;
      assert Strays(ps) == [] <==> Strays(ps[..|ps| - 1]) == [] && StraysIn(last, Widths(last)) == [];
    }
  }

  /** A stylesheet passes exactly when it has a media rule and its preludes use approved widths only. */
  lemma PassesExactly(source: string)
    ensures Violations(source) == [] <==>
      Preludes(source) != [] && forall p :: p in Preludes(source) ==> WidthsApproved(p)
  {
    hide WidthsApproved, Preludes, Strays;
    NoStrays(Preludes(source));
  }

  lemma {:induction false} StrayInExactly(prelude: string, ws: seq<nat>, p: string, w: nat)
    ensures Stray(p, w) in StraysIn(prelude, ws) <==> p == prelude && w in ws && w !in {480, 720, 880, 1040}
  {
    if ws != [] {
      StrayInExactly(prelude, ws[..|ws| - 1], p, w);
      assert ws == ws[..|ws| - 1] + [ws[|ws| - 1]];
    }
  }

  lemma {:induction false} StrayExactly(ps: seq<string>, p: string, w: nat)
    ensures Stray(p, w) in Strays(ps) <==> p in ps && w in Widths(p) && w !in {480, 720, 880, 1040}
  {
    hide Widths, StraysIn;
    if ps != [] {
      var last := ps[|ps| - 1];
      StrayExactly(ps[..|ps| - 1], p, w);
      StrayInExactly(last, Widths(last), p, w);
      assert ps == ps[..|ps| - 1] + [last];
    }
  }

  /** What is reported: each width of a prelude that is none of the four, or else that there is no rule. */
  lemma ReportedExactly(source: string, p: string, w: nat)
    ensures Stray(p, w) in Violations(source) <==>
      p in Preludes(source) && w in Widths(p) && w !in {480, 720, 880, 1040}
    ensures NoMediaRule in Violations(source) <==> Preludes(source) == []
  {
    hide Preludes, Widths, Strays;
    StrayExactly(Preludes(source), p, w);
    OnlyStrays(Preludes(source));
  }

  lemma {:induction false} OnlyStraysIn(prelude: string, ws: seq<nat>)
    ensures NoMediaRule !in StraysIn(prelude, ws)
  {
    if ws != [] { OnlyStraysIn(prelude, ws[..|ws| - 1]); }
  }

  lemma {:induction false} OnlyStrays(ps: seq<string>)
    ensures NoMediaRule !in Strays(ps)
  {
    hide Widths, StraysIn;
    if ps != [] {
      OnlyStrays(ps[..|ps| - 1]);
      OnlyStraysIn(ps[|ps| - 1], Widths(ps[|ps| - 1]));
    }
  }

  /** Only widths printed in preludes count: whatever the rules' bodies and the text around them hold, the
      stylesheet passes exactly when there is a rule and every width in a prelude is approved. */
  lemma OnlyPreludesCount(before: string, rs: seq<Rule>, leads: seq<string>, features: seq<seq<Feature>>)
    requires FreeOf(before, "@media") && forall r :: r in rs ==> WellFormed(r)
    requires |rs| == |leads| == |features|
    requires forall i :: 0 <= i < |rs| ==>
      FreeOfWidths(leads[i]) && (forall f :: f in features[i] ==> WellFormedFeature(f)) &&
      rs[i].prelude == leads[i] + PrintFeatures(features[i])
    ensures Violations(before + PrintRules(rs)) == [] <==>
      rs != [] && forall i, f :: 0 <= i < |rs| && f in features[i] ==> f.width in {480, 720, 880, 1040}
  {
    hide FreeOf, FreeOfWidths, Widths, WellFormed, WellFormedFeature, PrintRules, PrintFeatures, Preludes, Violations;
    var source := before + PrintRules(rs);
    PreludesInvertPrinting(before, rs);
    PassesExactly(source);
    forall i | 0 <= i < |rs|
      ensures WidthsApproved(rs[i].prelude) <==> forall f :: f in features[i] ==> f.width in {480, 720, 880, 1040}
    {
      WidthsInvertPrinting(leads[i], features[i]);
      PrintedApproved(rs[i].prelude, features[i]);
    }
    assert forall i :: 0 <= i < |rs| ==> PreludesOf(rs)[i] == rs[i].prelude && PreludesOf(rs)[i] in PreludesOf(rs);
  }

  lemma PrintedApproved(prelude: string, fs: seq<Feature>)
    requires Widths(prelude) == WidthsOf(fs)
    ensures WidthsApproved(prelude) <==> forall f :: f in fs ==> f.width in {480, 720, 880, 1040}
  {
    hide Widths;
    if WidthsApproved(prelude) {
      forall f | f in fs ensures f.width in {480, 720, 880, 1040} {
        var i :| 0 <= i < |fs| && fs[i] == f;
        assert WidthsOf(fs)[i] == f.width && f.width in Widths(prelude);
      }
    }
  }
}
