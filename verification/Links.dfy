/** Which stylesheets a page links, read off its tags: `rel` is a list of tokens in any letter case. */
module Links {
  import opened Markup
  import opened Stylesheets
  import opened Text

  /** `word` stands at `a` in any letter case, between white space or the ends of the text. */
  ghost predicate TokenAt(s: string, word: string, a: nat) {
    && a + |word| <= |s| && SameLetters(s[a..a + |word|], word)
    && (a > 0 ==> JsSpace(s[a - 1])) && (a + |word| < |s| ==> JsSpace(s[a + |word|]))
  }

  ghost predicate HasToken(s: string, word: string) {
    exists a: nat :: TokenAt(s, word, a)
  }

  /** A lowercase word of letters. */
  predicate Plain(word: string) {
    word != "" && All(word, c => 'a' <= c <= 'z')
  }

  function NoSpace(): char -> bool {
    (c: char) => !JsSpace(c)
  }

  lemma SpaceBetween(c: char, d: char)
    ensures JsSpace(LowerChar(c)) <==> JsSpace(c)
    ensures 'a' <= d <= 'z' && SameLetter(c, d) ==> !JsSpace(c)
  {
  }

  // ---- what splitting finds ----

  /** A token of a text is its first word or a token of what follows the white space after it. */
  lemma TokenSplits(s: string, word: string, i: nat, k: nat, a: nat)
    requires Plain(word) && i < k <= |s|
    requires (forall j :: 0 <= j < i ==> !JsSpace(s[j])) && (forall j :: i <= j < k ==> JsSpace(s[j]))
    ensures a < k ==> (TokenAt(s, word, a) <==> a == 0 && |word| == i && SameLetters(s[..i], word))
    ensures a >= k ==> (TokenAt(s, word, a) <==> TokenAt(s[k..], word, a - k))
  {
    hide JsSpace, SameLetters;
    var n := |word|;
    if a + n <= |s| {
      if a >= k {
        assert s[a..a + n] == s[k..][a - k..a - k + n];
      } else if SameLetters(s[a..a + n], word) {
        WordHasNoSpace(s, word, a);
        assert !JsSpace(s[a]) && a < i;
        assert JsSpace(s[i]);
        assert s[0..n] == s[..n];
      }
    }
  }

  lemma WordHasNoSpace(s: string, word: string, a: nat)
    requires Plain(word) && a + |word| <= |s| && SameLetters(s[a..a + |word|], word)
    ensures forall j :: a <= j < a + |word| ==> !JsSpace(s[j])
  {
    forall j | a <= j < a + |word| ensures !JsSpace(s[j]) {
      assert s[j] == s[a..a + |word|][j - a];
      SpaceBetween(s[j], word[j - a]);
    }
  }

  lemma LowerRuns(s: string, i: nat)
    requires i <= |s|
    ensures RunEnd(Lower(s), i, JsSpace) == RunEnd(s, i, JsSpace)
    ensures RunEnd(Lower(s), i, NoSpace()) == RunEnd(s, i, NoSpace())
  {
    forall j | 0 <= j < |s| ensures JsSpace(Lower(s)[j]) <==> JsSpace(s[j]) { SpaceBetween(s[j], 'a'); }
    RunEndSpec(s, i, JsSpace);
    RunEndSpec(s, i, NoSpace());
    RunEndIs(Lower(s), i, JsSpace, RunEnd(s, i, JsSpace));
    RunEndIs(Lower(s), i, NoSpace(), RunEnd(s, i, NoSpace()));
  }

  lemma SplitOf(s: string)
    ensures var i := RunEnd(s, 0, NoSpace());
      SplitSpaces(s) == if i == |s| then [s] else [s[..i]] + SplitSpaces(s[RunEnd(s, i + 1, JsSpace)..])
  {
    RunEndSpec(s, 0, NoSpace());
    RunEndIs(s, 0, c => !JsSpace(c), RunEnd(s, 0, NoSpace()));
  }

  lemma SplitLower(s: string, i: nat, k: nat)
    requires i == RunEnd(s, 0, NoSpace()) && (i < |s| ==> k == RunEnd(s, i + 1, JsSpace))
    ensures SplitSpaces(Lower(s)) ==
      if i == |s| then [Lower(s[..i])] else [Lower(s[..i])] + SplitSpaces(Lower(s[k..]))
  {
    hide SplitSpaces, JsSpace, LowerChar, RunEnd;
    SplitOf(Lower(s));
    LowerRuns(s, 0);
    if i < |s| {
      LowerRuns(s, i + 1);
      assert Lower(s)[k..] == Lower(s[k..]);
    } else {
      assert s[..i] == s;
    }
    assert Lower(s)[..i] == Lower(s[..i]);
  }

  /** Where the first word ends and the next one starts. */
  lemma FirstGap(s: string, i: nat)
    requires i == RunEnd(s, 0, NoSpace())
    ensures forall j :: 0 <= j < i ==> !JsSpace(s[j])
    ensures i < |s| ==> var k := RunEnd(s, i + 1, JsSpace); forall j :: i <= j < k ==> JsSpace(s[j])
  {
    RunEndSpec(s, 0, NoSpace());
    if i < |s| { RunEndSpec(s, i + 1, JsSpace); }
  }

  lemma {:induction false} SplitFinds(s: string, word: string)
    requires Plain(word)
    ensures word in SplitSpaces(Lower(s)) <==> HasToken(s, word)
    decreases |s|
  {
    hide SplitSpaces, JsSpace, SameLetters, HasToken, Plain, Lower, RunEnd;
    var i := RunEnd(s, 0, NoSpace());
    FirstGap(s, i);
    FirstToken(s, word, i);
    if i < |s| {
      var k := RunEnd(s, i + 1, JsSpace);
      SplitLower(s, i, k);
      SplitFinds(s[k..], word);
      TokensAround(s, word, i, k);
    } else {
      SplitLower(s, i, i);
      assert s[..i] == s;
      OnlyToken(s, word);
    }
  }

  lemma FirstToken(s: string, word: string, i: nat)
    requires Plain(word) && i <= |s|
    ensures Lower(s[..i]) == word <==> SameLetters(s[..i], word)
  {
    assert Lower(word) == word;
    SameCased(s[..i], word);
  }

  lemma OnlyToken(s: string, word: string)
    requires Plain(word) && forall j :: 0 <= j < |s| ==> !JsSpace(s[j])
    ensures HasToken(s, word) <==> SameLetters(s, word)
  {
    hide JsSpace;
    assert s[0..|s|] == s;
    if SameLetters(s, word) { assert TokenAt(s, word, 0); }
  }

  lemma TokensAround(s: string, word: string, i: nat, k: nat)
    requires Plain(word) && i < k <= |s|
    requires (forall j :: 0 <= j < i ==> !JsSpace(s[j])) && (forall j :: i <= j < k ==> JsSpace(s[j]))
    ensures HasToken(s, word) <==> SameLetters(s[..i], word) || HasToken(s[k..], word)
  {
    hide TokenAt, JsSpace, Plain;
    if SameLetters(s[..i], word) {
      TokenSplits(s, word, i, k, 0);
    } else if HasToken(s[k..], word) {
      var a: nat :| TokenAt(s[k..], word, a);
      TokenSplits(s, word, i, k, a + k);
    }
    if HasToken(s, word) {
      var a: nat :| TokenAt(s, word, a);
      TokenSplits(s, word, i, k, a);
      assert a >= k ==> TokenAt(s[k..], word, a - k);
    }
  }

  // ---- white space around the list ----

  /** All but the `m` characters from `k` on is white space. */
  ghost predicate Around(s: string, k: nat, m: nat) {
    && k + m <= |s|
    && (forall j :: 0 <= j < k ==> JsSpace(s[j])) && (forall j :: k + m <= j < |s| ==> JsSpace(s[j]))
  }

  /** Trimming takes the white space off both ends and nothing else. */
  lemma TrimCore(s: string) returns (k: nat, m: nat)
    ensures Around(s, k, m) && Trim(s) == s[k..k + m]
    ensures m > 0 ==> !JsSpace(s[k]) && !JsSpace(s[k + m - 1])
  {
    hide JsSpace;
    k := RunEnd(s, 0, JsSpace);
    RunEndSpec(s, 0, JsSpace);
    StripLeftSuffix(s, JsSpace, k);
    m := StripRightPrefix(s[k..], JsSpace);
    assert s[k..][..m] == s[k..k + m];
    forall j | k + m <= j < |s| ensures JsSpace(s[j]) { assert s[j] == s[k..][j - k]; }
    assert m > 0 ==> s[k..][m - 1] == s[k + m - 1];
  }

  lemma TokenInCore(s: string, k: nat, m: nat, word: string, a: nat)
    requires Plain(word) && Around(s, k, m) && TokenAt(s, word, a)
    ensures a >= k && TokenAt(s[k..k + m], word, a - k)
  {
    hide JsSpace, SameLetters, Plain;
    var core, n := s[k..k + m], |word|;
    WordHasNoSpace(s, word, a);
    PlainIsSomething(word);
    assert !JsSpace(s[a]) && !JsSpace(s[a + n - 1]);
    assert k <= a && a + n <= k + m;
    SliceOfSlice(s, k, k + m, a - k, a - k + n);
  }

  lemma PlainIsSomething(word: string)
    ensures Plain(word) ==> |word| > 0
  {
  }

  lemma TokenAround(s: string, k: nat, m: nat, word: string, a: nat)
    requires Around(s, k, m) && TokenAt(s[k..k + m], word, a)
    ensures TokenAt(s, word, a + k)
  {
    hide JsSpace, SameLetters;
    SliceOfSlice(s, k, k + m, a, a + |word|);
  }

  lemma TokenOfCore(s: string, k: nat, m: nat, word: string)
    requires Plain(word) && Around(s, k, m)
    ensures HasToken(s[k..k + m], word) <==> HasToken(s, word)
  {
    assert k + m <= |s|;
    hide Around, TokenAt, Plain;
    if HasToken(s[k..k + m], word) {
      var a: nat :| TokenAt(s[k..k + m], word, a);
      TokenAround(s, k, m, word, a);
    }
    if HasToken(s, word) {
      var a: nat :| TokenAt(s, word, a);
      TokenInCore(s, k, m, word, a);
    }
  }

  lemma TrimKeepsTokens(s: string, word: string)
    requires Plain(word)
    ensures HasToken(Trim(s), word) <==> HasToken(s, word)
  {
    hide HasToken, Plain, JsSpace;
    var k, m := TrimCore(s);
    TokenOfCore(s, k, m, word);
  }

  /** What the extractor asks of `rel`. */
  lemma RelHasToken(rel: string)
    ensures "stylesheet" in SplitSpaces(Lower(Trim(rel))) <==> HasToken(rel, "stylesheet")
  {
    hide HasToken, SplitSpaces, Strip, JsSpace;
    SplitFinds(Trim(rel), "stylesheet");
    TrimKeepsTokens(rel, "stylesheet");
  }

  // ---- a list of tokens as it is written ----

  /** Tokens without white space, each with the white space after it. */
  ghost predicate TokenList(ts: seq<(string, string)>) {
    forall i :: 0 <= i < |ts| ==>
      && ts[i].0 != "" && (forall j :: 0 <= j < |ts[i].0| ==> !JsSpace(ts[i].0[j]))
      && All(ts[i].1, JsSpace) && (ts[i].1 == "" ==> i == |ts| - 1)
  }

  function Joined(ts: seq<(string, string)>): string {
    if ts == [] then "" else ts[0].0 + ts[0].1 + Joined(ts[1..])
  }

  lemma {:induction false} JoinedTokens(ts: seq<(string, string)>, word: string)
    requires TokenList(ts) && Plain(word)
    ensures HasToken(Joined(ts), word) <==> exists t :: t in ts && SameLetters(t.0, word)
  {
    hide HasToken, SameLetters, Plain, JsSpace;
    if ts == [] {
      NoTokenInNothing(word);
    } else {
      var t, rest := ts[0], Joined(ts[1..]);
      var s, i, k := Joined(ts), |t.0|, |t.0| + |t.1|;
      assert ts == [t] + ts[1..];
      JoinedTokens(ts[1..], word);
      assert s[..i] == t.0 && s[i..k] == t.1 && s[k..] == rest;
      if t.1 == "" {
        assert ts[1..] == [] && s == t.0;
        OnlyToken(s, word);
      } else {
        forall j | i <= j < k ensures JsSpace(s[j]) { assert s[j] == t.1[j - i]; }
        TokensAround(s, word, i, k);
      }
    }
  }

  lemma NoTokenInNothing(word: string)
    requires Plain(word)
    ensures !HasToken("", word)
  {
  }

  /** In a list of tokens, separated and surrounded by any white space, the extractor finds "stylesheet"
      exactly when some token is that word in any letter case. */
  lemma RelListHasToken(lead: string, ts: seq<(string, string)>)
    requires All(lead, JsSpace) && TokenList(ts)
    ensures HasToken(lead + Joined(ts), "stylesheet") <==> exists t :: t in ts && SameLetters(t.0, "stylesheet")
  {
    hide HasToken, SameLetters, TokenList;
    var s := lead + Joined(ts);
    assert s[|lead|..|lead| + |Joined(ts)|] == Joined(ts);
    forall j | 0 <= j < |lead| ensures JsSpace(s[j]) { assert s[j] == lead[j]; }
    TokenOfCore(s, |lead|, |Joined(ts)|, "stylesheet");
    JoinedTokens(ts, "stylesheet");
  }

  // ---- what a page links ----

  /** From `a` to `b` stands all of `text` but the white space at its ends. */
  ghost predicate CoreAt(text: string, core: string, a: nat, b: nat) {
    && a < b <= |text| && core == text[a..b] && !JsSpace(text[a]) && !JsSpace(text[b - 1])
    && (forall j :: 0 <= j < a ==> JsSpace(text[j])) && (forall j :: b <= j < |text| ==> JsSpace(text[j]))
  }

  ghost predicate CoreOf(text: string, core: string) {
    exists a: nat, b: nat :: CoreAt(text, core, a, b)
  }

  /** `rel`, a list with the token "stylesheet", and `href`, which is not blank, in any letter case. */
  ghost predicate SheetBy(rel: Attr, href: Attr, core: string) {
    && SameLetters(rel.name, "rel") && HasToken(rel.value, "stylesheet")
    && SameLetters(href.name, "href") && CoreOf(href.value, core)
  }

  ghost predicate LinksSheet(attrs: seq<Attr>, core: string) {
    exists i, j :: 0 <= i < |attrs| && 0 <= j < |attrs| && SheetBy(attrs[i], attrs[j], core)
  }

  /** The stylesheets the tags link, in order: a tag that is no stylesheet link adds nothing. */
  ghost predicate PageLinks(ls: seq<Link>, hrefs: seq<string>) {
    if ls == [] then hrefs == []
    else
      || (hrefs != [] && LinksSheet(ls[0].attrs, hrefs[0]) && PageLinks(ls[1..], hrefs[1..]))
      || ((forall core :: !LinksSheet(ls[0].attrs, core)) && PageLinks(ls[1..], hrefs))
  }

  lemma CoreIsTrimmed(text: string, core: string)
    ensures CoreOf(text, core) <==> core != "" && Trim(text) == core
  {
    hide JsSpace, Strip;
    var k, m := TrimCore(text);
    if m > 0 { assert CoreAt(text, Trim(text), k, k + m); }
    forall a: nat, b: nat | CoreAt(text, core, a, b) ensures core != "" && Trim(text) == core {
      assert !JsSpace(text[a]) && !JsSpace(text[b - 1]);
      assert m > 0 && !JsSpace(text[k]) && !JsSpace(text[k + m - 1]);
      assert a == k && b == k + m;
    }
  }

  /** The map has key `key` with a value exactly when some attribute of that name, in any case, has it. */
  lemma NamedGives(attrs: seq<Attr>, m: map<string, string>, key: string, v: string)
    requires Denotes(attrs, m) && Lower(key) == key && key != "__proto__"
    ensures key in m && m[key] == v <==>
      exists i :: 0 <= i < |attrs| && SameLetters(attrs[i].name, key) && attrs[i].value == v
  {
    hide Lower, SameLetters;
    forall i | 0 <= i < |attrs| ensures Lower(attrs[i].name) == key <==> SameLetters(attrs[i].name, key) {
      SameCased(attrs[i].name, key);
    }
    assert Gives(attrs, key, v) <==> key in m && m[key] == v;
  }

  lemma LinkHrefIs(attrs: seq<Attr>, m: map<string, string>, core: string)
    requires Denotes(attrs, m)
    ensures LinksSheet(attrs, core) <==> LinkHref(m) == [core]
  {
    hide Denotes, SameLetters, HasToken, CoreOf, SplitSpaces, Strip, Lower;
    assert Lower("rel") == "rel" && Lower("href") == "href" by { LowerKeys(); }
    RelHasToken("");
    BlankRel();
    if LinksSheet(attrs, core) {
      var i, j :| 0 <= i < |attrs| && 0 <= j < |attrs| && SheetBy(attrs[i], attrs[j], core);
      NamedGives(attrs, m, "rel", attrs[i].value);
      NamedGives(attrs, m, "href", attrs[j].value);
      RelHasToken(attrs[i].value);
      CoreIsTrimmed(attrs[j].value, core);
    }
    if LinkHref(m) == [core] {
      assert "rel" in m;
      NamedGives(attrs, m, "rel", m["rel"]);
      NamedGives(attrs, m, "href", m["href"]);
      RelHasToken(m["rel"]);
      CoreIsTrimmed(m["href"], core);
      var i :| 0 <= i < |attrs| && SameLetters(attrs[i].name, "rel") && attrs[i].value == m["rel"];
      var j :| 0 <= j < |attrs| && SameLetters(attrs[j].name, "href") && attrs[j].value == m["href"];
      assert SheetBy(attrs[i], attrs[j], core);
    }
  }

  lemma LowerKeys()
    ensures Lower("rel") == "rel" && Lower("href") == "href"
  {
  }

  lemma BlankRel()
    ensures !HasToken("", "stylesheet")
  {
    NoTokenInNothing("stylesheet");
  }

  lemma LinkHrefIsShort(m: map<string, string>)
    ensures LinkHref(m) == [] || exists core :: LinkHref(m) == [core]
  {
    hide SplitSpaces, Strip, Lower;
  }

  lemma {:induction false} ContributedIsLinked(ls: seq<Link>, hrefs: seq<string>)
    requires Contribute(ls, hrefs)
    ensures PageLinks(ls, hrefs)
  {
    hide Denotes, LinkHref, LinksSheet;
    if ls != [] {
      var m: map<string, string> :|
        Denotes(ls[0].attrs, m) && LinkHref(m) <= hrefs && Contribute(ls[1..], hrefs[|LinkHref(m)|..]);
      LinkHrefIsShort(m);
      ContributedIsLinked(ls[1..], hrefs[|LinkHref(m)|..]);
      forall core ensures LinksSheet(ls[0].attrs, core) <==> LinkHref(m) == [core] {
        LinkHrefIs(ls[0].attrs, m, core);
      }
      if LinkHref(m) != [] { assert LinkHref(m) == [hrefs[0]]; }
    }
  }

  /** A page of text and link tags: the extractor returns, in order, the trimmed href of each tag whose rel
      has the token "stylesheet" and whose href is not blank, and of no other. */
  lemma HrefsExact(before: string, ls: seq<Link>)
    requires NoLink(before) && forall l :: l in ls ==> WellFormedLink(l)
    ensures PageLinks(ls, Hrefs(before + PrintLinks(ls)))
  {
    hide NoLink, WellFormedLink, Hrefs, PageLinks, Contribute;
    HrefsInvertPrinting(before, ls);
    ContributedIsLinked(ls, Hrefs(before + PrintLinks(ls)));
  }

  /** One tag: with its rel a list of tokens in any white space, it adds its trimmed href exactly when some
      token is "stylesheet" in any letter case and the href is not blank, and nothing otherwise. */
  lemma TokenListDecides(l: Link, i: nat, j: nat, lead: string, ts: seq<(string, string)>, core: string)
    requires WellFormedLink(l) && i < |l.attrs| && j < |l.attrs|
    requires SameLetters(l.attrs[i].name, "rel") && SameLetters(l.attrs[j].name, "href")
    requires All(lead, JsSpace) && TokenList(ts) && l.attrs[i].value == lead + Joined(ts)
    ensures Hrefs(PrintLinks([l])) == [core] <==>
      (exists t :: t in ts && SameLetters(t.0, "stylesheet")) && CoreOf(l.attrs[j].value, core)
  {
    hide WellFormedLink, Hrefs, CoreOf, HasToken, SameLetters, TokenList, Joined;
    NoLinkBefore();
    HrefsExact("", [l]);
    assert "" + PrintLinks([l]) == PrintLinks([l]);
    var hrefs := Hrefs(PrintLinks([l]));
    RelListHasToken(lead, ts);
    assert [l][1..] == [];
    assert [l][0] == l;
    OneName(l, i, j, core);
    if hrefs != [] { assert hrefs[1..] == [] ==> hrefs == [hrefs[0]]; }
    if LinksSheet(l.attrs, core) { OneName(l, i, j, hrefs[0]); SameCore(l.attrs[j].value, core, hrefs[0]); }
  }

  lemma NoLinkBefore()
    ensures NoLink("")
  {
  }

  lemma SameCore(text: string, core: string, other: string)
    ensures CoreOf(text, core) && CoreOf(text, other) ==> core == other
  {
    CoreIsTrimmed(text, core);
    CoreIsTrimmed(text, other);
  }

  /** Names are distinct, so the two attributes are the only ones of their names. */
  lemma OneName(l: Link, i: nat, j: nat, core: string)
    requires WellFormedLink(l) && i < |l.attrs| && j < |l.attrs|
    requires SameLetters(l.attrs[i].name, "rel") && SameLetters(l.attrs[j].name, "href")
    ensures LinksSheet(l.attrs, core) <==> SheetBy(l.attrs[i], l.attrs[j], core)
  {
    hide HasToken, CoreOf, SameLetters, Lower, Legal, NoLink, WellSpaced, PrintAttrs;
    forall x | 0 <= x < |l.attrs|
      ensures SameLetters(l.attrs[x].name, "rel") ==> x == i
      ensures SameLetters(l.attrs[x].name, "href") ==> x == j
    {
      SameCased(l.attrs[x].name, "rel");
      SameCased(l.attrs[x].name, "href");
      SameCased(l.attrs[i].name, "rel");
      SameCased(l.attrs[j].name, "href");
      assert x < i ==> Lower(l.attrs[x].name) != Lower(l.attrs[i].name);
      assert i < x ==> Lower(l.attrs[i].name) != Lower(l.attrs[x].name);
      assert x < j ==> Lower(l.attrs[x].name) != Lower(l.attrs[j].name);
      assert j < x ==> Lower(l.attrs[j].name) != Lower(l.attrs[x].name);
    }
  }
}
