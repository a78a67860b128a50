/** Extracting the body of `const NAME = { ... }` by balancing braces (`extractObjectBody`). */
module RouteContract {
  import opened Text

  function Declaration(name: string): string {
    "const " + name + " = {"
  }

  /** First position at which `pattern` stands in `s`; the length of `s` plus one when there is none. */
  function IndexOf(s: string, pattern: string, i: nat): (r: nat)
    requires i <= |s| + 1
    ensures i <= r <= |s| + 1 && (r <= |s| ==> At(s, r, pattern))
    ensures forall k: nat :: i <= k < r ==> !At(s, k, pattern)
    decreases |s| + 1 - i
  {
    if i == |s| + 1 || At(s, i, pattern) then i else IndexOf(s, pattern, i + 1)
  }

  function Weight(c: char): int {
    if c == '{' then 1 else if c == '}' then -1 else 0
  }

  /** Opening braces less closing ones. */
  function Depth(s: string): int {
    if s == "" then 0 else Depth(s[..|s| - 1]) + Weight(s[|s| - 1])
  }

  /** Every prefix has at least as many opening braces as closing ones, and the whole has as many. */
  ghost predicate Balanced(s: string) {
    Depth(s) == 0 && forall n :: 0 <= n <= |s| ==> Depth(s[..n]) >= 0
  }

  /** The two exceptions: no declaration, and a declaration never closed. */
  datatype Extraction = NotFound | NeverClosed | Body(text: string)

  /** The brace at `close` is the one closing the brace at `open`: what stands between is balanced. */
  ghost predicate ClosesAt(source: string, open: nat, close: nat) {
    open < close < |source| && source[close] == '}' && Balanced(source[open + 1..close])
  }

  /** What extraction must return: the text up to the closing brace of the first declaration, and an
      exception exactly when there is no declaration or it is never closed. */
  ghost predicate Extracts(source: string, name: string, result: Extraction) {
    var start := IndexOf(source, Declaration(name), 0);
    if start > |source| then
      result == NotFound
    else
      var open := IndexOf(source, "{", start);
      match result
      case NotFound => false
      case Body(text) => exists close: nat :: ClosesAt(source, open, close) && text == source[open + 1..close]
      case NeverClosed => forall close: nat :: !ClosesAt(source, open, close)
  }

  method ExtractObjectBody(source: string, name: string) returns (result: Extraction)
    ensures Extracts(source, name, result)
  {
    hide Balanced, Depth, IndexOf;
    var start := IndexOf(source, Declaration(name), 0);
    if start > |source| {
      return NotFound;
    }
    SomeBrace(source, name, start);
    var openBrace := IndexOf(source, "{", start);
    var depth := 0;
    ghost var a := openBrace + 1;
    var i := openBrace;
    while i < |source|
      invariant openBrace <= i <= |source|
      invariant if i == openBrace then depth == 0 else depth == 1 + Depth(source[a..i])
      invariant forall e :: a <= e <= i ==> Depth(source[a..e]) >= 0
    {
      NoDepth(source, a);
      if i > openBrace { DepthSnoc(source, a, i); }
      if source[i] == '{' {
        depth := depth + 1;
      } else if source[i] == '}' {
        depth := depth - 1;
        if depth == 0 {
          BalancedFromPrefixes(source, a, i);
          assert ClosesAt(source, openBrace, i);
          return Body(source[openBrace + 1..i]);
        }
      }
      i := i + 1;
    }
    forall close: nat ensures !ClosesAt(source, openBrace, close) {
      NeverNegative(source, openBrace, a, close);
    }
    result := NeverClosed;
  }

  lemma NoDepth(s: string, a: nat)
    requires a <= |s|
    ensures Depth(s[a..a]) == 0
  {
  }

  lemma NeverNegative(source: string, open: nat, a: nat, close: nat)
    requires a == open + 1 && forall e :: a <= e <= |source| ==> Depth(source[a..e]) >= 0
    ensures !ClosesAt(source, open, close)
  {
    if open < close < |source| && source[close] == '}' {
      DepthSnoc(source, a, close);
      assert Depth(source[a..close + 1]) >= 0;
    }
  }

  lemma DepthSnoc(s: string, a: nat, i: nat)
    requires a <= i < |s|
    ensures Depth(s[a..i + 1]) == Depth(s[a..i]) + Weight(s[i])
  {
    assert s[a..i + 1][..i - a] == s[a..i];
  }

  lemma BalancedFromPrefixes(s: string, a: nat, i: nat)
    requires a <= i <= |s| && Depth(s[a..i]) == 0
    requires forall e :: a <= e <= i ==> Depth(s[a..e]) >= 0
    ensures Balanced(s[a..i])
  {
    forall n | 0 <= n <= |s[a..i]| ensures Depth(s[a..i][..n]) >= 0 {
      assert s[a..i][..n] == s[a..a + n];
    }
  }

  lemma {:induction false} IndexOfIs(s: string, pattern: string, i: nat, r: nat)
    requires i <= r <= |s| && At(s, r, pattern) && forall k: nat :: i <= k < r ==> !At(s, k, pattern)
    ensures IndexOf(s, pattern, i) == r
    decreases r - i
  {
    if i < r { IndexOfIs(s, pattern, i + 1, r); }
  }

  /** A declaration has a brace in it, so the search for one succeeds and finds an opening brace. */
  lemma SomeBrace(source: string, name: string, start: nat)
    requires At(source, start, Declaration(name))
    ensures IndexOf(source, "{", start) < |source| && source[IndexOf(source, "{", start)] == '{'
  {
    hide Declaration;
    DeclarationEnds(name);
    var last := start + |Declaration(name)| - 1;
    assert source[last] == source[start..last + 1][last - start];
    assert source[last..last + 1] == "{";
    var r := IndexOf(source, "{", start);
    assert At(source, last, "{") && r <= last;
    assert source[r] == source[r..r + 1][0];
  }

  /** When the name holds no brace, the declaration's own brace is the first brace from its start on. */
  lemma FirstBrace(source: string, name: string, start: nat)
    requires '{' !in name && At(source, start, Declaration(name))
    ensures IndexOf(source, "{", start) == start + |Declaration(name)| - 1
    ensures start + |Declaration(name)| <= |source| && source[start + |Declaration(name)| - 1] == '{'
  {
    hide Declaration;
    var d := Declaration(name);
    DeclarationEnds(name);
    var open := start + |d| - 1;
    assert forall k :: start <= k < start + |d| ==> source[k] == source[start..start + |d|][k - start] == d[k - start];
    forall k: nat | start <= k < open ensures !At(source, k, "{") {
      NameHasNoBrace(name, k - start);
      NotAt(source, k, "{", 0);
    }
    assert source[open..open + 1] == "{";
    IndexOfIs(source, "{", start, open);
  }

  lemma DeclarationEnds(name: string)
    ensures |Declaration(name)| == |name| + 10 && Declaration(name)[|Declaration(name)| - 1] == '{'
  {
  }

  lemma NameHasNoBrace(name: string, k: nat)
    requires '{' !in name && k < |Declaration(name)| - 1
    ensures Declaration(name)[k] != '{'
  {
    var d := Declaration(name);
    assert d == "const " + name + " = {";
    if 6 <= k < 6 + |name| { assert d[k] == name[k - 6]; }
  }

  /** At most one brace closes the declaration: the first that brings the depth below zero. */
  lemma ClosesOnce(source: string, open: nat, a: nat, b: nat)
    requires ClosesAt(source, open, a) && ClosesAt(source, open, b)
    ensures a == b
  {
    if a < b {
      ClosesBefore(source, open, a, b);
    } else if b < a {
      ClosesBefore(source, open, b, a);
    }
  }

  lemma ClosesBefore(source: string, open: nat, a: nat, b: nat)
    requires ClosesAt(source, open, a) && a < b < |source|
    ensures !ClosesAt(source, open, b)
  {
    DepthSnoc(source, open + 1, a);
    var body := source[open + 1..b];
    assert body[..a - open] == source[open + 1..a + 1];
  }

  /** The declaration as it stands in the source. */
  lemma DeclarationIs(name: string)
    ensures Declaration(name) == "const " + name + " = {"
  {
  }

  /** Extraction inverts printing: for every balanced body, whatever follows it, and any text before in
      which the declaration does not yet stand, the result is exactly the body. */
  lemma ExtractsPrinted(before: string, name: string, body: string, rest: string, result: Extraction)
    requires '{' !in name && Balanced(body)
    requires var d := "const " + name + " = {";
      var source := before + d + body + "}" + rest;
      Extracts(source, name, result) && forall k: nat :: k < |before| ==> !At(source, k, d)
    ensures result == Body(body)
  {
    DeclarationIs(name);
    hide Balanced, Depth, Declaration, IndexOf;
    var d := Declaration(name);
    var source := before + d + body + "}" + rest;
    DeclarationEnds(name);
    assert source[|before|..|before| + |d|] == d;
    IndexOfIs(source, d, 0, |before|);
    FirstBrace(source, name, |before|);
    var open := |before| + |d| - 1;
    var close := open + 1 + |body|;
    assert source[open + 1..close] == body && source[close] == '}';
    assert ClosesAt(source, open, close);
    forall c: nat | ClosesAt(source, open, c) ensures c == close { ClosesOnce(source, open, c, close); }
  }

  /** A body that extraction returns is balanced, and the result is determined by the source. */
  lemma ExtractionUnique(source: string, name: string, r1: Extraction, r2: Extraction)
    requires Extracts(source, name, r1) && Extracts(source, name, r2)
    ensures r1 == r2 && (r1.Body? ==> Balanced(r1.text))
  {
    hide Balanced, Declaration, IndexOf;
    var start := IndexOf(source, Declaration(name), 0);
    var open := if start <= |source| then IndexOf(source, "{", start) else 0;
    forall a: nat, b: nat | ClosesAt(source, open, a) && ClosesAt(source, open, b) ensures a == b {
      ClosesOnce(source, open, a, b);
    }
  }
}
