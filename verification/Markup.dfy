/** Reading attributes and stylesheet links out of HTML (`parseAttributes`, `extractStylesheetHrefs`). */
module Markup {
  import opened Stylesheets
  import opened Text

  predicate IsLetter(c: char) {
    'a' <= c <= 'z' || 'A' <= c <= 'Z'
  }

  predicate NameStart(c: char) {
    IsLetter(c) || c == '_' || c == ':'
  }

  predicate NameChar(c: char) {
    NameStart(c) || IsDigit(c) || c == '-' || c == '.'
  }

  /** A character an unquoted value may hold. */
  predicate BareChar(c: char) {
    !JsSpace(c) && c != '"' && c != '\'' && c != '=' && c != '<' && c != '>' && c != '`'
  }

  /** The character classes, written out. */
  lemma CharClasses(c: char)
    ensures NameStart(c) <==> 'a' <= c <= 'z' || 'A' <= c <= 'Z' || c in {'_', ':'}
    ensures NameChar(c) <==>
      'a' <= c <= 'z' || 'A' <= c <= 'Z' || '0' <= c <= '9' || c in {'_', ':', '-', '.'}
    ensures BareChar(c) <==> !JsSpace(c) && c !in {'"', '\'', '=', '<', '>', '`'}
    ensures WordChar(c) <==> 'a' <= c <= 'z' || 'A' <= c <= 'Z' || '0' <= c <= '9' || c == '_'
  {
  }

  // ---- one attribute ----

  /** A match at the start of a text: the name's end, the value's bounds and the end of the match. */
  datatype Found = Found(name: nat, from: nat, to: nat, end: nat)

  /** The part before the value: a name up to `n`, white space, `=` at `q`, white space up to `v`. */
  ghost predicate HeadMatch(s: string, n: nat, q: nat, v: nat) {
    && 0 < n <= q < v < |s| && NameStart(s[0]) && All(s[..n], NameChar)
    && All(s[n..q], JsSpace) && s[q] == '=' && All(s[q + 1..v], JsSpace) && !JsSpace(s[v])
  }

  ghost predicate QuotedMatch(s: string, v: nat, quote: char, m: Found) {
    v < |s| && s[v] == quote && m.from == v + 1 <= m.to && m.end == m.to + 1 <= |s|
    && quote !in s[m.from..m.to] && s[m.to] == quote
  }

  /** An unquoted value is as long as it can be. */
  ghost predicate BareMatch(s: string, v: nat, m: Found) {
    m.from == v < m.to == m.end <= |s| && All(s[v..m.to], BareChar) && (m.to < |s| ==> !BareChar(s[m.to]))
  }

  ghost predicate ValueMatch(s: string, v: nat, m: Found) {
    QuotedMatch(s, v, '"', m) || QuotedMatch(s, v, '\'', m) || BareMatch(s, v, m)
  }

  /** One match of the attribute expression at the start of `s`. */
  ghost predicate AttrMatch(s: string, q: nat, v: nat, m: Found) {
    HeadMatch(s, m.name, q, v) && ValueMatch(s, v, m)
  }

  function HeadAt(s: string): Option<(nat, nat)> {
    if s == "" || !NameStart(s[0]) then None
    else
      var name := RunEnd(s, 1, NameChar);
      var q := RunEnd(s, name, JsSpace);
      if q == |s| || s[q] != '=' then None
      else
        var v := RunEnd(s, q + 1, JsSpace);
        if v == |s| then None else Some((name, v))
  }

  function ValueAt(s: string, name: nat, v: nat): Option<Found>
    requires v < |s|
  {
    if s[v] == '"' || s[v] == '\'' then
      var to := RunEnd(s, v + 1, Not(s[v]));
      if to < |s| then Some(Found(name, v + 1, to, to + 1)) else None
    else
      var to := RunEnd(s, v, BareChar);
      if v < to then Some(Found(name, v, to, to)) else None
  }

  function AttrAt(s: string): Option<Found> {
    HeadAtBounds(s);
    match HeadAt(s)
    case None => None
    case Some((name, v)) => ValueAt(s, name, v)
  }

  lemma HeadAtBounds(s: string)
    ensures HeadAt(s).Some? ==> var (n, v) := HeadAt(s).value; 0 < n < v < |s|
  {
  }

  lemma AttrAtBounds(s: string)
    ensures AttrAt(s).Some? ==>
      var m := AttrAt(s).value; 0 < m.name < m.from <= m.to <= m.end <= |s|
  {
    hide HeadAt;
    HeadAtBounds(s);
  }

  lemma SpaceIsNoName()
    ensures !NameChar('=') && forall c :: JsSpace(c) ==> !NameChar(c) && !BareChar(c)
  {
  }

  lemma HeadMatchIsHeadAt(s: string, n: nat, q: nat, v: nat)
    requires HeadMatch(s, n, q, v)
    ensures HeadAt(s) == Some((n, v))
  {
    SpaceIsNoName();
    hide NameStart, NameChar;
    forall k | 0 <= k < n ensures NameChar(s[k]) { assert NameChar(s[..n][k]); }
    forall k | n <= k < q ensures JsSpace(s[k]) { assert JsSpace(s[n..q][k - n]); }
    forall k | q + 1 <= k < v ensures JsSpace(s[k]) { assert JsSpace(s[q + 1..v][k - q - 1]); }
    RunEndIs(s, 1, NameChar, n);
    RunEndIs(s, n, JsSpace, q);
    RunEndIs(s, q + 1, JsSpace, v);
  }

  lemma HeadAtMatches(s: string)
    requires HeadAt(s).Some?
    ensures var (n, v) := HeadAt(s).value; exists q: nat :: HeadMatch(s, n, q, v)
  {
    NameStartIsNameChar(s[0]);
    hide NameStart, NameChar;
    var n := RunEnd(s, 1, NameChar);
    RunEndSpec(s, 1, NameChar);
    RunEndSpec(s, n, JsSpace);
    var q := RunEnd(s, n, JsSpace);
    RunEndSpec(s, q + 1, JsSpace);
    assert HeadMatch(s, n, q, RunEnd(s, q + 1, JsSpace));
  }

  lemma NameStartIsNameChar(c: char)
    ensures NameStart(c) ==> NameChar(c)
  {
  }

  lemma ValueMatchIsValueAt(s: string, v: nat, m: Found)
    requires v < |s| && ValueMatch(s, v, m)
    ensures ValueAt(s, m.name, v) == Some(m)
  {
    if BareMatch(s, v, m) {
      forall k | v <= k < m.to ensures BareChar(s[k]) { assert BareChar(s[v..m.to][k - v]); }
      RunEndIs(s, v, BareChar, m.to);
    } else {
      forall k | v + 1 <= k < m.to ensures s[k] != s[v] { assert s[k] == s[m.from..m.to][k - m.from]; }
      RunEndIs(s, v + 1, Not(s[v]), m.to);
    }
  }

  lemma ValueAtMatches(s: string, v: nat, m: Found)
    requires v < |s| && ValueAt(s, m.name, v) == Some(m)
    ensures ValueMatch(s, v, m)
  {
    if s[v] == '"' || s[v] == '\'' {
      RunEndSpec(s, v + 1, Not(s[v]));
      assert s[v] !in s[m.from..m.to];
    } else {
      RunEndSpec(s, v, BareChar);
    }
  }

  /** The scanner is the regular expression, which can match in one way only. */
  lemma AttrAtIsRegex(s: string, m: Found)
    ensures AttrAt(s) == Some(m) <==> exists q: nat, v: nat :: AttrMatch(s, q, v, m)
  {
    hide HeadMatch, ValueMatch, HeadAt, ValueAt;
    HeadAtBounds(s);
    if AttrAt(s) == Some(m) {
      HeadAtMatches(s);
      var (n, v) := HeadAt(s).value;
      assert m.name == n by { ValueAtName(s, n, v); }
      ValueAtMatches(s, v, m);
      var q: nat :| HeadMatch(s, n, q, v);
      assert AttrMatch(s, q, v, m);
    }
    forall q: nat, v: nat | AttrMatch(s, q, v, m) ensures AttrAt(s) == Some(m) { AttrMatchIsAttrAt(s, q, v, m); }
  }

  lemma ValueAtName(s: string, n: nat, v: nat)
    requires v < |s|
    ensures ValueAt(s, n, v).Some? ==> ValueAt(s, n, v).value.name == n
  {
  }

  lemma AttrMatchIsAttrAt(s: string, q: nat, v: nat, m: Found)
    requires AttrMatch(s, q, v, m)
    ensures AttrAt(s) == Some(m)
  {
    HeadMatchIsHeadAt(s, m.name, q, v);
    ValueMatchIsValueAt(s, v, m);
  }

  // ---- all attributes of a tag ----

  /** Names and values of the successive matches. */
  function Pairs(s: string): seq<(string, string)>
    decreases |s|
  {
    if s == "" then []
    else
      AttrAtBounds(s);
      match AttrAt(s)
      case Some(m) => [(s[..m.name], s[m.from..m.to])] + Pairs(s[m.end..])
      case None => Pairs(s[1..])
  }

  /** Storing into the object: later names win, and `__proto__` is no ordinary key. */
  function Stored(attrs: map<string, string>, name: string, value: string): map<string, string> {
    if Lower(name) == "__proto__" then attrs else attrs[Lower(name) := value]
  }

  function ToMap(ps: seq<(string, string)>): map<string, string> {
    if ps == [] then map[]
    else Stored(ToMap(ps[..|ps| - 1]), ps[|ps| - 1].0, ps[|ps| - 1].1)
  }

  function Attributes(text: string): map<string, string> {
    ToMap(Pairs(text))
  }

  /** One turn of the `exec` loop, at position `i`. */
  lemma PairsFrom(text: string, i: nat)
    requires i < |text|
    ensures AttrAt(text[i..]).None? ==> Pairs(text[i..]) == Pairs(text[i + 1..])
    ensures AttrAt(text[i..]).Some? ==>
      var m, rest := AttrAt(text[i..]).value, text[i..];
      m.name <= |rest| && m.from <= m.to <= |rest| && 0 < m.end <= |rest| &&
      Pairs(rest) == [(rest[..m.name], rest[m.from..m.to])] + Pairs(text[i + m.end..])
  {
    hide AttrAt;
    var rest := text[i..];
    AttrAtBounds(rest);
    match AttrAt(rest)
    case Some(m) => assert rest[m.end..] == text[i + m.end..];
    case None => assert rest[1..] == text[i + 1..];
  }

  lemma ToMapSnoc(ps: seq<(string, string)>, name: string, value: string)
    ensures ToMap(ps + [(name, value)]) == Stored(ToMap(ps), name, value)
  {
    hide Stored;
    assert (ps + [(name, value)])[..|ps|] == ps;
  }

  method ParseAttributes(text: string) returns (attrs: map<string, string>)
    ensures attrs == Attributes(text)
  {
    hide AttrAt, Stored, Pairs, ToMap;
    attrs := map[];
    ghost var seen: seq<(string, string)> := [];
    var i := 0;
    assert text[0..] == text;
    NoPairs();
    while i < |text|
      invariant i <= |text|
      invariant Pairs(text) == seen + Pairs(text[i..]) && attrs == ToMap(seen)
    {
      var rest := text[i..];
      PairsFrom(text, i);
      match AttrAt(rest)
      case Some(m) =>
        var name, value := rest[..m.name], rest[m.from..m.to];
        ToMapSnoc(seen, name, value);
        attrs := Stored(attrs, name, value);
        seen := seen + [(name, value)];
        i := i + m.end;
      case None =>
        i := i + 1;
    }
    assert text[|text|..] == "";
    assert seen + [] == seen;
  }

  lemma NoPairs()
    ensures Pairs("") == [] && ToMap([]) == map[]
  {
  }

  // ---- printed attributes ----

  datatype Style = Double | Single | Bare

  /** An attribute as written: white space around `=`, a quoting style, and the white space after it. */
  datatype Attr = Attr(name: string, left: string, right: string, style: Style, value: string, gap: string)

  ghost predicate Legal(a: Attr) {
    && a.name != "" && NameStart(a.name[0]) && All(a.name, NameChar)
    && All(a.left, JsSpace) && All(a.right, JsSpace) && All(a.gap, JsSpace)
    && (match a.style
        case Double => '"' !in a.value
        case Single => '\'' !in a.value
        case Bare => a.value != "" && All(a.value, BareChar))
  }

  function PrintValue(a: Attr): string {
    match a.style
    case Double => "\"" + a.value + "\""
    case Single => "'" + a.value + "'"
    case Bare => a.value
  }

  function PrintAttr(a: Attr): string {
    a.name + a.left + "=" + a.right + PrintValue(a)
  }

  /** The attributes in order, then `tail`. */
  function PrintAttrs(attrs: seq<Attr>, tail: string): string {
    if attrs == [] then tail else PrintAttr(attrs[0]) + (attrs[0].gap + PrintAttrs(attrs[1..], tail))
  }

  /** An unquoted value is followed by white space or by nothing. */
  ghost predicate WellSpaced(attrs: seq<Attr>, tail: string) {
    forall i :: 0 <= i < |attrs| && attrs[i].style == Bare && attrs[i].gap == "" ==> i == |attrs| - 1 && tail == ""
  }

  function PairsOf(attrs: seq<Attr>): seq<(string, string)> {
    seq(|attrs|, i requires 0 <= i < |attrs| => (attrs[i].name, attrs[i].value))
  }

  lemma AttrPieces(a: Attr, rest: string)
    ensures var s := PrintAttr(a) + rest;
      var n := |a.name|;
      var q := n + |a.left|;
      var v := q + 1 + |a.right|;
      && v + |PrintValue(a)| + |rest| == |s|
      && s[..n] == a.name && s[n..q] == a.left && s[q] == '=' && s[q + 1..v] == a.right
      && s[v..v + |PrintValue(a)|] == PrintValue(a) && s[v + |PrintValue(a)|..] == rest
  {
    hide PrintValue;
  }

  lemma ValueMatches(s: string, v: nat, a: Attr, rest: string) returns (m: Found)
    requires Legal(a) && v + |PrintValue(a)| <= |s|
    requires s[v..v + |PrintValue(a)|] == PrintValue(a) && s[v + |PrintValue(a)|..] == rest
    requires a.style == Bare && rest != "" ==> JsSpace(rest[0])
    ensures m.name == |a.name| && m.end == v + |PrintValue(a)| && m.from <= m.to <= |s| && s[m.from..m.to] == a.value
    ensures ValueMatch(s, v, m) && !JsSpace(s[v])
  {
    hide NameStart, NameChar, IsDigit, IsLetter;
    var p := PrintValue(a);
    if a.style == Bare {
      m := Found(|a.name|, v, v + |p|, v + |p|);
      SpaceIsNoName();
      assert s[v] == s[v..v + |p|][0] == p[0];
      if rest != "" { assert s[v + |p|] == rest[0]; }
    } else {
      QuotedInside(a);
      m := Found(|a.name|, v + 1, v + |p| - 1, v + |p|);
      SliceOfSlice(s, v, v + |p|, 0, 1);
      SliceOfSlice(s, v, v + |p|, 1, |p| - 1);
      assert s[v] == p[0] && s[v + |p| - 1] == p[|p| - 1];
    }
  }

  lemma SliceOfSlice(s: string, lo: nat, hi: nat, a: nat, b: nat)
    requires lo <= hi <= |s| && a <= b <= hi - lo
    ensures s[lo..hi][a..b] == s[lo + a..lo + b]
    ensures forall i :: 0 <= i < hi - lo ==> s[lo..hi][i] == s[lo + i]
  {
    var t := s[lo..hi];
    assert |t[a..b]| == |s[lo + a..lo + b]|;
    forall i | 0 <= i < b - a ensures t[a..b][i] == s[lo + a..lo + b][i] {
      assert t[a..b][i] == t[a + i];
    }
    assert t[a..b] == s[lo + a..lo + b];
  }

  lemma QuotedInside(a: Attr)
    requires a.style != Bare
    ensures var p := PrintValue(a); |p| == |a.value| + 2 && p[1..|p| - 1] == a.value
    ensures PrintValue(a)[0] == PrintValue(a)[|a.value| + 1] == if a.style == Double then '"' else '\''
  {
    var q := if a.style == Double then "\"" else "'";
    assert PrintValue(a) == q + a.value + q;
  }

  lemma AttrMatches(a: Attr, rest: string)
    requires Legal(a) && (a.style == Bare && rest != "" ==> JsSpace(rest[0]))
    ensures var s := PrintAttr(a) + rest;
      && AttrAt(s).Some?
      && var m := AttrAt(s).value;
        m.name <= |s| && m.from <= m.to <= |s| && m.end <= |s| &&
        s[..m.name] == a.name && s[m.from..m.to] == a.value && s[m.end..] == rest
  {
    hide PrintAttr, PrintValue, AttrAt, NameStart, NameChar, ValueMatch, BareChar;
    var s := PrintAttr(a) + rest;
    AttrPieces(a, rest);
    var n := |a.name|;
    var q := n + |a.left|;
    var v := q + 1 + |a.right|;
    var m := ValueMatches(s, v, a, rest);
    assert s[0] == s[..n][0];
    ValueNotEmpty(a);
    assert AttrMatch(s, q, v, m);
    AttrMatchIsAttrAt(s, q, v, m);
  }

  lemma ValueNotEmpty(a: Attr)
    requires Legal(a)
    ensures PrintValue(a) != ""
  {
  }

  lemma {:induction false} PairsSkipSpace(gap: string, rest: string)
    requires All(gap, JsSpace)
    ensures Pairs(gap + rest) == Pairs(rest)
  {
    if gap == "" {
      assert gap + rest == rest;
    } else {
      assert (gap + rest)[1..] == gap[1..] + rest;
      PairsSkipSpace(gap[1..], rest);
    }
  }

  /** Text without `=` holds no attribute. */
  lemma {:induction false} NoEqualsNoPairs(s: string)
    requires '=' !in s
    ensures Pairs(s) == []
  {
    if s != "" { NoEqualsNoPairs(s[1..]); }
  }

  lemma {:induction false} PairsOfPrinted(attrs: seq<Attr>, tail: string)
    requires forall a :: a in attrs ==> Legal(a)
    requires WellSpaced(attrs, tail) && '=' !in tail
    ensures Pairs(PrintAttrs(attrs, tail)) == PairsOf(attrs)
  {
    hide AttrAt, Legal, PrintAttr;
    if attrs == [] {
      NoEqualsNoPairs(tail);
    } else {
      var a, rest := attrs[0], PrintAttrs(attrs[1..], tail);
      var s := PrintAttrs(attrs, tail);
      assert Legal(a) && s == PrintAttr(a) + (a.gap + rest);
      LegalGap(a);
      AttrMatches(a, a.gap + rest);
      AttrAtBounds(s);
      PairsSkipSpace(a.gap, rest);
      PairsOfPrinted(attrs[1..], tail);
    }
  }

  lemma LegalGap(a: Attr)
    requires Legal(a)
    ensures All(a.gap, JsSpace)
  {
  }

  /** No two attributes have the same name, whatever their case. */
  ghost predicate DistinctNames(attrs: seq<Attr>) {
    forall i, j :: 0 <= i < j < |attrs| ==> Lower(attrs[i].name) != Lower(attrs[j].name)
  }

  /** Some attribute gives key `k` the value `v`. */
  ghost predicate Gives(attrs: seq<Attr>, k: string, v: string) {
    exists i :: 0 <= i < |attrs| && Lower(attrs[i].name) == k && attrs[i].value == v && k != "__proto__"
  }

  /** `m` is the lowercase-keyed map the attributes stand for. */
  ghost predicate Denotes(attrs: seq<Attr>, m: map<string, string>) {
    forall k, v :: Gives(attrs, k, v) <==> k in m && m[k] == v
  }

  lemma GivesLast(front: seq<Attr>, last: Attr, k: string, v: string)
    ensures Gives(front + [last], k, v)
      <==> Gives(front, k, v) || (Lower(last.name) == k && last.value == v && k != "__proto__")
  {
    hide Lower;
    var all := front + [last];
    if Gives(front, k, v) {
      var i :| 0 <= i < |front| && Lower(front[i].name) == k && front[i].value == v && k != "__proto__";
      assert all[i] == front[i];
    }
    assert all[|front|] == last;
  }

  lemma {:induction false} MapOfPairs(attrs: seq<Attr>)
    requires DistinctNames(attrs)
    ensures Denotes(attrs, ToMap(PairsOf(attrs)))
  {
    hide Lower, Gives;
    if attrs == [] {
      forall k, v ensures !Gives(attrs, k, v) { NothingGiven(k, v); }
    } else {
      var front, last := attrs[..|attrs| - 1], attrs[|attrs| - 1];
      MapOfPairs(front);
      assert PairsOf(attrs)[..|attrs| - 1] == PairsOf(front);
      assert attrs == front + [last];
      forall k, v ensures Gives(attrs, k, v) <==> k in ToMap(PairsOf(attrs)) && ToMap(PairsOf(attrs))[k] == v {
        GivesLast(front, last, k, v);
        NotGivenBefore(attrs, v);
      }
    }
  }

  lemma NothingGiven(k: string, v: string)
    ensures !Gives([], k, v)
  {
  }

  lemma NotGivenBefore(attrs: seq<Attr>, v: string)
    requires attrs != [] && DistinctNames(attrs)
    ensures !Gives(attrs[..|attrs| - 1], Lower(attrs[|attrs| - 1].name), v)
  {
    hide Lower;
    var front := attrs[..|attrs| - 1];
    assert forall i :: 0 <= i < |front| ==> front[i] == attrs[i];
  }

  /** Parsing what was printed gives exactly the lowercase-keyed map, whatever the order, the quoting, the
      spacing and the rest of the tag. */
  lemma AttributesInvertPrinting(lead: string, attrs: seq<Attr>, tail: string)
    requires All(lead, JsSpace) && DistinctNames(attrs)
    requires (forall a :: a in attrs ==> Legal(a)) && WellSpaced(attrs, tail) && '=' !in tail
    ensures Denotes(attrs, Attributes(lead + PrintAttrs(attrs, tail)))
  {
    hide Denotes, Pairs;
    PairsSkipSpace(lead, PrintAttrs(attrs, tail));
    PairsOfPrinted(attrs, tail);
    MapOfPairs(attrs);
  }

  lemma DenotedOnce(as1: seq<Attr>, m1: map<string, string>, as2: seq<Attr>, m2: map<string, string>)
    requires Denotes(as1, m1) && Denotes(as2, m2)
    requires forall k, v :: Gives(as1, k, v) <==> Gives(as2, k, v)
    ensures m1 == m2
  {
    hide Gives;
    forall k | k in m1 ensures k in m2 && m1[k] == m2[k] { assert Gives(as1, k, m1[k]); }
    forall k | k in m2 ensures k in m1 { assert Gives(as2, k, m2[k]); }
    assert m1 == m2;
  }

  // ---- stylesheet links ----

  const LINK := "<link"

  predicate WordChar(c: char) {
    IsLetter(c) || IsDigit(c) || c == '_'
  }

  predicate AtLink(s: string) {
    |s| >= 5 && Lower(s[..5]) == LINK
  }

  /** The end of a match of `<link\b([^>]*)>` at the start of `s`, in either case of letters. */
  function LinkEnd(s: string): Option<nat> {
    if AtLink(s) && |s| > 5 && !WordChar(s[5]) then
      var close := RunEnd(s, 5, Not('>'));
      if close < |s| then Some(close + 1) else None
    else None
  }

  function SplitSpaces(s: string): seq<string>
    decreases |s|
  {
    var i := RunEnd(s, 0, c => !JsSpace(c));
    if i == |s| then [s] else [s[..i]] + SplitSpaces(s[RunEnd(s, i + 1, JsSpace)..])
  }

  /** What one link contributes: its trimmed href, if it is a stylesheet link with a non-blank one. */
  function LinkHref(attrs: map<string, string>): seq<string> {
    var rel := Lower(Trim(if "rel" in attrs then attrs["rel"] else ""));
    if "stylesheet" in SplitSpaces(rel) && "href" in attrs && Trim(attrs["href"]) != ""
    then [Trim(attrs["href"])] else []
  }

  ghost predicate Printable(lead: string, attrs: seq<Attr>, tail: string) {
    && All(lead, JsSpace) && DistinctNames(attrs) && (forall a :: a in attrs ==> Legal(a))
    && WellSpaced(attrs, tail) && '=' !in tail
  }

  /** Two printed tags whose attributes give the same keys the same values, in whatever order, quoting and
      spacing, parse to the same map and contribute the same href. */
  lemma OrderAndQuotingIrrelevant(
    lead1: string, as1: seq<Attr>, tail1: string, lead2: string, as2: seq<Attr>, tail2: string)
    requires Printable(lead1, as1, tail1) && Printable(lead2, as2, tail2)
    requires forall k, v :: Gives(as1, k, v) <==> Gives(as2, k, v)
    ensures Attributes(lead1 + PrintAttrs(as1, tail1)) == Attributes(lead2 + PrintAttrs(as2, tail2))
    ensures LinkHref(Attributes(lead1 + PrintAttrs(as1, tail1))) == LinkHref(Attributes(lead2 + PrintAttrs(as2, tail2)))
  {
    hide Gives, Denotes, Attributes, LinkHref, PrintAttrs, DistinctNames, Legal, WellSpaced;
    AttributesInvertPrinting(lead1, as1, tail1);
    AttributesInvertPrinting(lead2, as2, tail2);
    DenotedOnce(as1, Attributes(lead1 + PrintAttrs(as1, tail1)), as2, Attributes(lead2 + PrintAttrs(as2, tail2)));
  }

  function Hrefs(s: string): seq<string>
    decreases |s|
  {
    if s == "" then []
    else
      match LinkEnd(s)
      case Some(e) => LinkHref(Attributes(s[5..e - 1])) + Hrefs(s[e..])
      case None => Hrefs(s[1..])
  }

  method ExtractStylesheetHrefs(html: string) returns (hrefs: seq<string>)
    ensures hrefs == Hrefs(html)
  {
    hide LinkEnd, Attributes, LinkHref;
    hrefs := [];
    var i := 0;
    while i < |html|
      invariant i <= |html|
      invariant Hrefs(html) == hrefs + Hrefs(html[i..])
    {
      var rest := html[i..];
      LinkEndBounds(rest);
      match LinkEnd(rest)
      case Some(e) =>
        var attrs := ParseAttributes(rest[5..e - 1]);
        assert rest[e..] == html[i + e..];
        hrefs := hrefs + LinkHref(attrs);
        i := i + e;
      case None =>
        assert rest[1..] == html[i + 1..];
        i := i + 1;
    }
    assert html[|html|..] == "";
  }

  lemma LinkEndBounds(s: string)
    ensures LinkEnd(s).Some? ==> 6 <= LinkEnd(s).value <= |s|
  {
  }

  /** A link tag: its name in any case, white space, attributes, the rest of the tag, and the text up to
      the next link. */
  datatype Link = Link(tag: string, lead: string, attrs: seq<Attr>, tail: string, text: string)

  /** `<link` stands at `i`, in any case, and no letter, digit or underscore goes on with it. */
  ghost predicate OpensLink(t: string, i: nat) {
    && i + 5 <= |t| && SameLetters(t[i..i + 5], "<link")
    && (i + 5 < |t| ==>
      var c := t[i + 5]; !('a' <= c <= 'z' || 'A' <= c <= 'Z' || '0' <= c <= '9' || c == '_'))
  }

  ghost predicate NoLink(t: string) {
    forall i: nat :: !OpensLink(t, i)
  }

  ghost predicate WellFormedLink(l: Link) {
    && SameLetters(l.tag, "<link")
    && l.lead != "" && All(l.lead, JsSpace) && DistinctNames(l.attrs) && (forall a :: a in l.attrs ==> Legal(a))
    && WellSpaced(l.attrs, l.tail) && '=' !in l.tail && '>' !in PrintAttrs(l.attrs, l.tail) && NoLink(l.text)
  }

  function PrintLinks(ls: seq<Link>): string {
    if ls == [] then ""
    else ls[0].tag + (ls[0].lead + PrintAttrs(ls[0].attrs, ls[0].tail)) + ">" + ls[0].text + PrintLinks(ls[1..])
  }

  /** The maps the links stand for contribute these hrefs, link by link. */
  ghost predicate Contribute(ls: seq<Link>, hrefs: seq<string>) {
    if ls == [] then hrefs == []
    else
      exists m: map<string, string> :: Denotes(ls[0].attrs, m) && LinkHref(m) <= hrefs &&
        Contribute(ls[1..], hrefs[|LinkHref(m)|..])
  }

  lemma LinkEndOpens(s: string)
    ensures LinkEnd(s).Some? ==> OpensLink(s, 0)
  {
    if AtLink(s) {
      assert Lower(LINK) == LINK && s[..5] == s[0..5];
      SameCased(s[..5], LINK);
    }
  }

  /** The scanner is the regular expression of a link tag. */
  lemma LinkEndIsRegex(s: string, e: nat)
    ensures LinkEnd(s) == Some(e) <==> OpensLink(s, 0) && 5 < e <= |s| && s[e - 1] == '>' && '>' !in s[5..e - 1]
  {
    assert Lower(LINK) == LINK;
    if |s| > 5 {
      SameCased(s[..5], LINK);
      assert s[..5] == s[0..5];
      RunEndSpec(s, 5, Not('>'));
    }
    if OpensLink(s, 0) && 5 < e <= |s| && s[e - 1] == '>' && '>' !in s[5..e - 1] {
      forall k | 5 <= k < e - 1 ensures s[k] != '>' { assert s[k] == s[5..e - 1][k - 5]; }
      RunEndIs(s, 5, Not('>'), e - 1);
    }
  }

  /** A link tag that opens before text starting with `<` opens without it. */
  lemma OpensBefore(t: string, rest: string)
    requires t != "" && (rest != "" ==> rest[0] == '<')
    ensures OpensLink(t + rest, 0) ==> OpensLink(t, 0)
  {
    var s := t + rest;
    if |t| >= 5 {
      assert s[0..5] == t[0..5];
    } else if |s| >= 5 {
      assert s[0..5][|t|] == rest[0];
    }
  }

  lemma NoLinkThrough(t: string, rest: string)
    requires NoLink(t) && t != "" && (rest != "" ==> rest[0] == '<')
    ensures LinkEnd(t + rest) == None && NoLink(t[1..])
  {
    hide LinkEnd;
    LinkEndOpens(t + rest);
    OpensBefore(t, rest);
    assert !OpensLink(t, 0);
    forall i: nat ensures !OpensLink(t[1..], i) {
      assert !OpensLink(t, i + 1);
      if i + 6 <= |t| { assert t[1..][i..i + 5] == t[i + 1..i + 6]; }
    }
  }

  lemma {:induction false} HrefsSkip(t: string, rest: string)
    requires NoLink(t) && (rest != "" ==> rest[0] == '<')
    ensures Hrefs(t + rest) == Hrefs(rest)
  {
    hide NoLink, LinkEnd;
    if t == "" {
      assert t + rest == rest;
    } else {
      NoLinkThrough(t, rest);
      assert (t + rest)[1..] == t[1..] + rest;
      HrefsSkip(t[1..], rest);
    }
  }

  lemma LinkMatches(tag: string, inner: string, rest: string)
    requires SameLetters(tag, "<link")
    requires inner != "" && !WordChar(inner[0]) && '>' !in inner
    ensures var s := tag + inner + ">" + rest;
      var e := 5 + |inner| + 1;
      LinkEnd(s) == Some(e) && s[5..e - 1] == inner && s[e..] == rest
  {
    hide WordChar;
    var s := tag + inner + ">" + rest;
    var e := 5 + |inner| + 1;
    SameCased(tag, LINK);
    assert s[..5] == tag && s[5..e - 1] == inner && s[e - 1] == '>' && s[5] == inner[0];
    assert Lower(LINK) == LINK;
    forall k | 5 <= k < e - 1 ensures s[k] != '>' { assert s[k] == inner[k - 5]; }
    RunEndIs(s, 5, Not('>'), e - 1);
  }

  lemma {:induction false} HrefsOfLinks(ls: seq<Link>)
    requires forall l :: l in ls ==> WellFormedLink(l)
    ensures Contribute(ls, Hrefs(PrintLinks(ls)))
  {
    hide LinkEnd, Attributes, Denotes, LinkHref, PrintAttrs, NoLink, Legal, Lower;
    if ls != [] {
      var l, rest := ls[0], PrintLinks(ls[1..]);
      assert WellFormedLink(l);
      var inner := l.lead + PrintAttrs(l.attrs, l.tail);
      assert PrintLinks(ls) == l.tag + inner + ">" + (l.text + rest);
      LeadIsNoWord(l.lead);
      assert inner[0] == l.lead[0];
      LinkMatches(l.tag, inner, l.text + rest);
      AttributesInvertPrinting(l.lead, l.attrs, l.tail);
      StartsAtLink(ls[1..]);
      HrefsSkip(l.text, rest);
      HrefsOfLinks(ls[1..]);
      var h := LinkHref(Attributes(inner));
      assert Hrefs(PrintLinks(ls)) == h + Hrefs(rest);
      assert (h + Hrefs(rest))[|h|..] == Hrefs(rest);
    }
  }

  lemma LeadIsNoWord(lead: string)
    requires lead != "" && All(lead, JsSpace)
    ensures !WordChar(lead[0]) && '>' !in lead
  {
    assert forall i :: 0 <= i < |lead| ==> lead[i] != '>';
  }

  lemma StartsAtLink(ls: seq<Link>)
    requires forall l :: l in ls ==> WellFormedLink(l)
    ensures PrintLinks(ls) != "" ==> PrintLinks(ls)[0] == '<'
  {
    if ls != [] { assert WellFormedLink(ls[0]) && SameLetter(ls[0].tag[0], '<'); }
  }

  /** From a page of text and link tags the extractor returns, link by link and in order, exactly what the
      attribute maps of the stylesheet links say. */
  lemma HrefsInvertPrinting(before: string, ls: seq<Link>)
    requires NoLink(before) && forall l :: l in ls ==> WellFormedLink(l)
    ensures Contribute(ls, Hrefs(before + PrintLinks(ls)))
  {
    hide NoLink, WellFormedLink;
    StartsAtLink(ls);
    HrefsSkip(before, PrintLinks(ls));
    HrefsOfLinks(ls);
  }
}
