/** Discovering stylesheets from the HTML entry points and gating them (`normalizeHref`,
    `discoverStylesheets`, `runContract`). */
module Contract {
  import opened Markup
  import opened Ordering
  import opened Stylesheets
  import opened Text

  // ---- one href ----

  datatype Target = Remote(href: string) | Local(name: string)

  predicate SchemeChar(c: char) {
    IsLetter(c) || IsDigit(c) || c == '+' || c == '.' || c == '-'
  }

  predicate HasScheme(href: string) {
    href != "" && IsLetter(href[0]) &&
    var colon := RunEnd(href, 1, SchemeChar);
    colon < |href| && href[colon] == ':'
  }

  function Before(s: string, c: char): string {
    s[..RunEnd(s, 0, Not(c))]
  }

  function DropRoot(s: string): string {
    if At(s, 0, "./") then s[2..] else if At(s, 0, "/") then s[1..] else s
  }

  function NormalizeHref(href: string): Option<Target> {
    if href == "" then None
    else if HasScheme(href) || At(href, 0, "//") then Some(Remote(href))
    else
      var name := DropRoot(Before(Before(href, '#'), '?'));
      if name == "" then None else Some(Local(name))
  }

  /** What one discovered sheet is known by: remote ones by a prefixed URL, local ones by their name. */
  function KeyOf(t: Target): string {
    if t.Remote? then "url:" + t.href else t.name
  }

  /** The characters of a scheme, written out (section 3.1 of RFC 3986). */
  lemma SchemeClass(c: char)
    ensures SchemeChar(c) <==>
      'a' <= c <= 'z' || 'A' <= c <= 'Z' || '0' <= c <= '9' || c in {'+', '.', '-'}
    ensures IsLetter(c) <==> 'a' <= c <= 'z' || 'A' <= c <= 'Z'
  {
  }

  /** Sheets share a key exactly when they are the same, or a local one is named like the prefixed URL of a
      remote one. */
  lemma SameKeyExactly(a: Target, b: Target)
    ensures KeyOf(a) == KeyOf(b) <==>
      || a == b
      || (a.Remote? && b.Local? && b.name == "url:" + a.href)
      || (b.Remote? && a.Local? && a.name == "url:" + b.href)
  {
    if a.Remote? && b.Remote? && KeyOf(a) == KeyOf(b) {
      assert KeyOf(a)[4..] == a.href && KeyOf(b)[4..] == b.href;
    }
  }

  /** An href is remote exactly when it starts with `//` or with a letter, further scheme characters and a
      colon; it is then kept whole. */
  lemma RemoteExactly(href: string)
    ensures (NormalizeHref(href).Some? && NormalizeHref(href).value.Remote?) <==>
      At(href, 0, "//") ||
      exists k :: 1 <= k < |href| && href[k] == ':' && IsLetter(href[0]) && All(href[1..k], SchemeChar)
    ensures NormalizeHref(href).Some? && NormalizeHref(href).value.Remote? ==> NormalizeHref(href).value.href == href
  {
    hide SchemeChar, Before, DropRoot;
    if href != "" {
      RunEndSpec(href, 1, SchemeChar);
      var colon := RunEnd(href, 1, SchemeChar);
      if HasScheme(href) {
        assert All(href[1..colon], SchemeChar);
      }
      if k :| 1 <= k < |href| && href[k] == ':' && IsLetter(href[0]) && All(href[1..k], SchemeChar) {
        assert forall i :: 1 <= i < k ==> href[i] == href[1..k][i - 1];
        ColonIsNoScheme();
        RunEndIs(href, 1, SchemeChar, k);
      }
    }
  }

  lemma ColonIsNoScheme()
    ensures !SchemeChar(':')
  {
  }

  lemma CutAt(s: string, c: char, rest: string)
    requires c !in s && (rest != "" ==> rest[0] == c)
    ensures Before(s + rest, c) == s
  {
    RunEndIs(s + rest, 0, Not(c), |s|);
    assert (s + rest)[..|s|] == s;
  }

  lemma CutBoth(s: string, suffix: string)
    requires '#' !in s && '?' !in s
    requires suffix == "" || suffix[0] == '?' || suffix[0] == '#'
    ensures Before(Before(s + suffix, '#'), '?') == s
  {
    hide Before;
    var n := RunEnd(suffix, 0, Not('#'));
    RunEndSpec(suffix, 0, Not('#'));
    assert suffix == suffix[..n] + suffix[n..] && s + suffix == (s + suffix[..n]) + suffix[n..];
    CutAt(s + suffix[..n], '#', suffix[n..]);
    CutAt(s, '?', suffix[..n]);
  }

  /** One local file under all its spellings: with or without a leading `/` or `./`, and with any query or
      fragment. A bare name must not itself look like a scheme or start with `./`. */
  lemma SameFile(root: string, name: string, suffix: string)
    requires root in {"", "/", "./"} && name != "" && '#' !in name && '?' !in name && name[0] != '/'
    requires root == "" ==> !HasScheme(name + suffix) && !At(name, 0, "./")
    requires suffix == "" || suffix[0] == '?' || suffix[0] == '#'
    ensures NormalizeHref(root + name + suffix) == Some(Local(name))
  {
    hide Before, RunEnd;
    var href := root + name + suffix;
    CutBoth(root + name, suffix);
    RootDropped(root, name);
    if root == "" {
      assert href == name + suffix;
      NotAt(href, 0, "//", 0);
    } else if root == "/" {
      assert href[0] == '/' && href[1] == name[0];
      NotAt(href, 0, "//", 1);
    } else {
      assert href[0] == '.';
      NotAt(href, 0, "//", 0);
    }
  }

  /** The root alone, with any query or fragment, names nothing. */
  lemma NothingNamed(root: string, suffix: string)
    requires root in {"", "/", "./"} && (suffix == "" || suffix[0] == '?' || suffix[0] == '#')
    ensures NormalizeHref(root + suffix) == None
  {
    hide Before, RunEnd;
    var href := root + suffix;
    CutBoth(root, suffix);
    if root == "" {
      assert href == suffix;
      NotAt(href, 0, "//", 0);
      NotAt(root, 0, "./", 0);
      NotAt(root, 0, "/", 0);
    } else if root == "/" {
      NotAt(href, 0, "//", 1);
      NotAt(root, 0, "./", 0);
      assert root[0..1] == "/";
    } else {
      NotAt(href, 0, "//", 0);
      assert root[0..2] == "./";
    }
  }

  lemma RootDropped(root: string, name: string)
    requires root in {"", "/", "./"} && name != "" && name[0] != '/' && (root == "" ==> !At(name, 0, "./"))
    ensures DropRoot(root + name) == name
  {
    var s := root + name;
    if root == "" {
      assert s == name;
      NotAt(s, 0, "/", 0);
    } else if root == "/" {
      assert s[0] == '/';
      NotAt(s, 0, "./", 0);
      assert s[0..1] == "/";
    } else {
      assert s[0..2] == "./";
    }
  }

  // ---- discovery ----

  /** The files of the static directory by name; nothing else of the file system is used. */
  type Files = map<string, string>

  datatype Sheet = Sheet(target: Target, from: string)

  function SheetKey(s: Sheet): string {
    KeyOf(s.target)
  }

  datatype Failure =
    | MissingEntry(entry: string)
    | NothingDiscovered
    | MissingSheet(name: string, from: string)
    | Width(name: string, violation: Violation)

  /** The hrefs of a page that name something, in order. */
  function Targets(hrefs: seq<string>, from: string): seq<Sheet> {
    if hrefs == [] then []
    else
      Targets(Init(hrefs), from) + match NormalizeHref(Last(hrefs))
        case Some(t) => [Sheet(t, from)]
        case None => []
  }

  function LinksOf(fs: Files, entry: string): seq<Sheet> {
    if entry in fs then Targets(Hrefs(fs[entry]), entry) else []
  }

  /** Every sheet linked from the entry points, in order and with repetitions. */
  function Linked(fs: Files, entries: seq<string>): seq<Sheet> {
    if entries == [] then [] else Linked(fs, Init(entries)) + LinksOf(fs, Last(entries))
  }

  function MissingEntries(fs: Files, entries: seq<string>): seq<Failure> {
    if entries == [] then []
    else MissingEntries(fs, Init(entries)) + (if Last(entries) in fs then [] else [MissingEntry(Last(entries))])
  }

  ghost predicate HasKey(sheets: seq<Sheet>, key: string) {
    exists i :: 0 <= i < |sheets| && SheetKey(sheets[i]) == key
  }

  /** The sheets left when later ones with a known key are dropped. */
  ghost function Deduplicated(sheets: seq<Sheet>): seq<Sheet> {
    if sheets == [] then []
    else
      var front := Deduplicated(Init(sheets));
      if HasKey(Init(sheets), SheetKey(Last(sheets))) then front else front + [Last(sheets)]
  }

  method DiscoverStylesheets(fs: Files, entries: seq<string>) returns (found: seq<Sheet>, failures: seq<Failure>)
    ensures found == Deduplicated(Linked(fs, entries)) && failures == MissingEntries(fs, entries)
  {
    hide NormalizeHref, Hrefs, HasKey, Deduplicated;
    found, failures := [], [];
    var seen: set<string> := {};
    NoKeys();
    for i := 0 to |entries|
      invariant failures == MissingEntries(fs, entries[..i])
      invariant found == Deduplicated(Linked(fs, entries[..i]))
      invariant forall key :: key in seen <==> HasKey(Linked(fs, entries[..i]), key)
    {
      var entry := entries[i];
      ghost var before := Linked(fs, entries[..i]);
      assert Init(entries[..i + 1]) == entries[..i] && Last(entries[..i + 1]) == entry;
      if entry !in fs {
        failures := failures + [MissingEntry(entry)];
        assert before + [] == before;
      } else {
        var hrefs := ExtractStylesheetHrefs(fs[entry]);
        found, seen := DiscoverIn(hrefs, entry, found, seen, before);
      }
    }
    assert entries[..|entries|] == entries;
  }

  method DiscoverIn(hrefs: seq<string>, entry: string, found0: seq<Sheet>, seen0: set<string>, ghost before: seq<Sheet>)
    returns (found: seq<Sheet>, seen: set<string>)
    requires found0 == Deduplicated(before) && forall key :: key in seen0 <==> HasKey(before, key)
    ensures found == Deduplicated(before + Targets(hrefs, entry))
    ensures forall key :: key in seen <==> HasKey(before + Targets(hrefs, entry), key)
  {
    hide NormalizeHref, SheetKey, HasKey, Deduplicated;
    found, seen := found0, seen0;
    assert before + [] == before;
    for j := 0 to |hrefs|
      invariant found == Deduplicated(before + Targets(hrefs[..j], entry))
      invariant forall key :: key in seen <==> HasKey(before + Targets(hrefs[..j], entry), key)
    {
      assert Init(hrefs[..j + 1]) == hrefs[..j] && Last(hrefs[..j + 1]) == hrefs[j];
      ghost var sheets := before + Targets(hrefs[..j], entry);
      match NormalizeHref(hrefs[j])
      case None =>
        assert Targets(hrefs[..j + 1], entry) == Targets(hrefs[..j], entry);
      case Some(t) =>
        var sheet := Sheet(t, entry);
        assert before + Targets(hrefs[..j + 1], entry) == sheets + [sheet];
        DeduplicatedSnoc(sheets, sheet);
        if SheetKey(sheet) !in seen {
          seen := seen + {SheetKey(sheet)};
          found := found + [sheet];
        }
    }
    assert hrefs[..|hrefs|] == hrefs;
  }

  lemma NoKeys()
    ensures forall key :: !HasKey([], key)
    ensures Deduplicated([]) == []
  {
  }

  lemma DeduplicatedSnoc(sheets: seq<Sheet>, sheet: Sheet)
    ensures Deduplicated(sheets + [sheet])
      == if HasKey(sheets, SheetKey(sheet)) then Deduplicated(sheets) else Deduplicated(sheets) + [sheet]
    ensures forall key :: HasKey(sheets + [sheet], key) <==> HasKey(sheets, key) || key == SheetKey(sheet)
  {
    hide SheetKey;
    var all := sheets + [sheet];
    assert Init(all) == sheets && Last(all) == sheet;
    forall key ensures HasKey(all, key) <==> HasKey(sheets, key) || key == SheetKey(sheet) {
      if HasKey(sheets, key) {
        var i :| 0 <= i < |sheets| && SheetKey(sheets[i]) == key;
        assert all[i] == sheets[i];
      }
      assert all[|sheets|] == sheet;
    }
  }

  /** `s` is the first of `sheets` with its key. */
  ghost predicate FirstOfItsKey(sheets: seq<Sheet>, s: Sheet) {
    exists i :: 0 <= i < |sheets| && sheets[i] == s && !HasKey(sheets[..i], SheetKey(s))
  }

  lemma FirstStays(sheets: seq<Sheet>, x: Sheet, s: Sheet)
    ensures FirstOfItsKey(sheets + [x], s) <==>
      FirstOfItsKey(sheets, s) || (s == x && !HasKey(sheets, SheetKey(x)))
  {
    hide HasKey, SheetKey;
    var all := sheets + [x];
    assert all[..|sheets|] == sheets;
    forall i | 0 <= i < |sheets| ensures all[..i] == sheets[..i] && all[i] == sheets[i] {}
    if FirstOfItsKey(sheets, s) {
      var i :| 0 <= i < |sheets| && sheets[i] == s && !HasKey(sheets[..i], SheetKey(s));
      assert all[i] == s && !HasKey(all[..i], SheetKey(s));
    }
    if s == x && !HasKey(sheets, SheetKey(x)) { assert all[|sheets|] == s && !HasKey(all[..|sheets|], SheetKey(s)); }
  }

  /** Discovery lists exactly the first sheet of every key, each once. */
  lemma {:induction false} DiscoveryIsExact(sheets: seq<Sheet>)
    ensures Distinct(Deduplicated(sheets), SheetKey)
    ensures forall s :: s in Deduplicated(sheets) <==> FirstOfItsKey(sheets, s)
    ensures forall key :: HasKey(Deduplicated(sheets), key) <==> HasKey(sheets, key)
  {
    hide SheetKey, HasKey, FirstOfItsKey;
    if sheets == [] {
      NothingFirst();
    } else {
      var front, last := Init(sheets), Last(sheets);
      assert sheets == front + [last];
      DiscoveryIsExact(front);
      DeduplicatedSnoc(front, last);
      DeduplicatedSnoc(Deduplicated(front), last);
      forall s ensures s in Deduplicated(sheets) <==> FirstOfItsKey(sheets, s) { FirstStays(front, last, s); }
      if !HasKey(front, SheetKey(last)) { DistinctSnoc(Deduplicated(front), last); }
    }
  }

  lemma NothingFirst()
    ensures forall s :: !FirstOfItsKey([], s)
    ensures forall key :: !HasKey([], key)
  {
  }

  lemma DistinctSnoc(sheets: seq<Sheet>, last: Sheet)
    requires Distinct(sheets, SheetKey) && !HasKey(sheets, SheetKey(last))
    ensures Distinct(sheets + [last], SheetKey)
  {
    hide SheetKey;
  }

  // ---- the gate ----

  function FailuresOf(fs: Files, s: Sheet): seq<Failure> {
    if s.target.Remote? then []
    else if s.target.name !in fs then [MissingSheet(s.target.name, s.from)]
    else WidthFailures(s.target.name, Violations(fs[s.target.name]))
  }

  function WidthFailures(name: string, vs: seq<Violation>): seq<Failure> {
    seq(|vs|, i requires 0 <= i < |vs| => Width(name, vs[i]))
  }

  function SheetFailures(fs: Files, sheets: seq<Sheet>): seq<Failure> {
    if sheets == [] then [] else SheetFailures(fs, Init(sheets)) + FailuresOf(fs, Last(sheets))
  }

  ghost function ContractFailures(fs: Files, entries: seq<string>): seq<Failure> {
    var found := Deduplicated(Linked(fs, entries));
    MissingEntries(fs, entries) + if found == [] then [NothingDiscovered] else SheetFailures(fs, found)
  }

  method RunContract(fs: Files, entries: seq<string>) returns (failures: seq<Failure>)
    ensures failures == ContractFailures(fs, entries)
  {
    hide Violations, Linked, MissingEntries, Deduplicated, WidthFailures, NormalizeHref;
    var sheets;
    sheets, failures := DiscoverStylesheets(fs, entries);
    if |sheets| == 0 {
      return failures + [NothingDiscovered];
    }
    for i := 0 to |sheets|
      invariant failures == MissingEntries(fs, entries) + SheetFailures(fs, sheets[..i])
    {
      assert Init(sheets[..i + 1]) == sheets[..i] && Last(sheets[..i + 1]) == sheets[i];
      if sheets[i].target.Local? {
        var name := sheets[i].target.name;
        if name !in fs {
          failures := failures + [MissingSheet(name, sheets[i].from)];
        } else {
          var violations := CheckSource(fs[name]);
          failures := failures + WidthFailures(name, violations);
        }
      }
    }
    assert sheets[..|sheets|] == sheets;
  }

  /** A sheet that raises no failure: remote, or on disk with a media rule and approved widths only. */
  predicate Good(fs: Files, s: Sheet) {
    s.target.Local? ==> s.target.name in fs && Violations(fs[s.target.name]) == []
  }

  lemma GoodHasNoFailures(fs: Files, s: Sheet)
    ensures FailuresOf(fs, s) == [] <==> Good(fs, s)
  {
    hide Violations;
  }

  lemma {:induction false} NoSheetFailures(fs: Files, sheets: seq<Sheet>)
    ensures SheetFailures(fs, sheets) == [] <==> forall s :: s in sheets ==> Good(fs, s)
  {
    hide FailuresOf, Good;
    if sheets != [] {
      NoSheetFailures(fs, Init(sheets));
      GoodHasNoFailures(fs, Last(sheets));
      InitLast(sheets);
      assert forall s :: s in sheets <==> s in Init(sheets) || s == Last(sheets);
      assert SheetFailures(fs, sheets) == [] <==>
        SheetFailures(fs, Init(sheets)) == [] && FailuresOf(fs, Last(sheets)) == [];
    }
  }

  lemma {:induction false} NoMissingEntries(fs: Files, entries: seq<string>)
    ensures MissingEntries(fs, entries) == [] <==> forall e :: e in entries ==> e in fs
  {
    if entries != [] {
      NoMissingEntries(fs, Init(entries));
      InitLast(entries);
      assert forall e :: e in entries <==> e in Init(entries) || e == Last(entries);
    }
  }

  /** What is reported of one sheet, by name: that it is missing, or each of its violations. */
  lemma {:induction false} SheetReports(fs: Files, sheets: seq<Sheet>, n: string, entry: string, v: Violation)
    ensures MissingSheet(n, entry) in SheetFailures(fs, sheets) <==> Sheet(Local(n), entry) in sheets && n !in fs
    ensures Width(n, v) in SheetFailures(fs, sheets) <==>
      n in fs && v in Violations(fs[n]) && exists s :: s in sheets && s.target == Local(n)
    ensures NothingDiscovered !in SheetFailures(fs, sheets) && MissingEntry(entry) !in SheetFailures(fs, sheets)
  {
    hide FailuresOf, Violations;
    if sheets != [] {
      SheetReports(fs, Init(sheets), n, entry, v);
      OneSheetReports(fs, Last(sheets), n, entry, v);
      InitLast(sheets);
      assert forall s :: s in sheets <==> s in Init(sheets) || s == Last(sheets);
    }
  }

  lemma OneSheetReports(fs: Files, s: Sheet, n: string, entry: string, v: Violation)
    ensures MissingSheet(n, entry) in FailuresOf(fs, s) <==> s == Sheet(Local(n), entry) && n !in fs
    ensures Width(n, v) in FailuresOf(fs, s) <==> n in fs && v in Violations(fs[n]) && s.target == Local(n)
    ensures NothingDiscovered !in FailuresOf(fs, s) && MissingEntry(entry) !in FailuresOf(fs, s)
  {
    hide Violations;
    if s.target.Local? && s.target.name in fs {
      var vs := Violations(fs[s.target.name]);
      if s.target.name == n && v in vs {
        var i :| 0 <= i < |vs| && vs[i] == v;
        assert WidthFailures(n, vs)[i] == Width(n, v);
      }
    }
  }

  lemma {:induction false} EntryReports(fs: Files, entries: seq<string>, entry: string)
    ensures MissingEntry(entry) in MissingEntries(fs, entries) <==> entry in entries && entry !in fs
    ensures forall f :: f in MissingEntries(fs, entries) ==> f.MissingEntry?
  {
    if entries != [] {
      EntryReports(fs, Init(entries), entry);
      InitLast(entries);
      assert forall e :: e in entries <==> e in Init(entries) || e == Last(entries);
    }
  }

  /** Every failure by name: the entry points that are missing, that nothing is linked, and, of the first
      sheet linked under each key, that it is missing or each width it must not use. */
  lemma FailuresExactly(fs: Files, entries: seq<string>, n: string, entry: string, v: Violation)
    ensures var all, failures := Linked(fs, entries), ContractFailures(fs, entries);
      && (MissingEntry(entry) in failures <==> entry in entries && entry !in fs)
      && (NothingDiscovered in failures <==> all == [])
      && (MissingSheet(n, entry) in failures <==> FirstOfItsKey(all, Sheet(Local(n), entry)) && n !in fs)
      && (Width(n, v) in failures <==>
          n in fs && v in Violations(fs[n]) && exists s :: FirstOfItsKey(all, s) && s.target == Local(n))
  {
    hide Linked, Violations, FirstOfItsKey, SheetFailures, HasKey, MissingEntries, Deduplicated;
    var all := Linked(fs, entries);
    DiscoveryIsExact(all);
    EntryReports(fs, entries, entry);
    SheetReports(fs, Deduplicated(all), n, entry, v);
    if all != [] { LinkedIsFound(all); } else { NoKeys(); }
  }

  /** The gate passes exactly when every entry point exists, something is linked, and the first sheet
      linked under each key is good. */
  lemma GateExact(fs: Files, entries: seq<string>)
    ensures ContractFailures(fs, entries) == [] <==>
      && (forall e :: e in entries ==> e in fs)
      && Linked(fs, entries) != []
      && forall s :: FirstOfItsKey(Linked(fs, entries), s) ==> Good(fs, s)
  {
    hide Linked, Good, FirstOfItsKey, SheetFailures, HasKey, MissingEntries;
    var all := Linked(fs, entries);
    NoMissingEntries(fs, entries);
    NoSheetFailures(fs, Deduplicated(all));
    DiscoveryIsExact(all);
    if all != [] { LinkedIsFound(all); }
  }

  lemma LinkedIsFound(sheets: seq<Sheet>)
    requires sheets != []
    ensures Deduplicated(sheets) != []
  {
    DiscoveryIsExact(sheets);
    assert HasKey(sheets, SheetKey(sheets[0]));
    assert HasKey(Deduplicated(sheets), SheetKey(sheets[0]));
  }

  /** The first sheet linked under the key of `s` is local. */
  ghost predicate LedByLocal(sheets: seq<Sheet>, s: Sheet) {
    exists f :: FirstOfItsKey(sheets, f) && SheetKey(f) == SheetKey(s) && f.target.Local?
  }

  /** Some sheet is the first with the key of `s`, and only one. */
  lemma FirstLike(sheets: seq<Sheet>, s: Sheet) returns (f: Sheet)
    requires s in sheets
    ensures FirstOfItsKey(sheets, f) && f in sheets && SheetKey(f) == SheetKey(s)
    ensures forall g :: FirstOfItsKey(sheets, g) && SheetKey(g) == SheetKey(s) ==> g == f
  {
    hide SheetKey;
    var i :| 0 <= i < |sheets| && sheets[i] == s;
    DiscoveryIsExact(sheets);
    assert HasKey(sheets, SheetKey(s));
    var j :| 0 <= j < |Deduplicated(sheets)| && SheetKey(Deduplicated(sheets)[j]) == SheetKey(s);
    f := Deduplicated(sheets)[j];
    assert f in Deduplicated(sheets);
    forall g | FirstOfItsKey(sheets, g) && SheetKey(g) == SheetKey(s) ensures g == f {
      DistinctDetermines(Deduplicated(sheets), SheetKey, g, f);
    }
  }

  /** A linked local sheet is among the sheets the gate judges if and only if the first sheet of its key is
      local: a remote sheet of that key linked first takes its place. */
  lemma JudgedExactly(sheets: seq<Sheet>, s: Sheet)
    requires s in sheets && s.target.Local?
    ensures (exists d :: d in Deduplicated(sheets) && d.target == s.target) <==> LedByLocal(sheets, s)
  {
    hide FirstOfItsKey, Deduplicated;
    DiscoveryIsExact(sheets);
    var f := FirstLike(sheets, s);
    if f.target.Local? {
      assert f in Deduplicated(sheets) && f.target == s.target;
    }
    forall d | d in Deduplicated(sheets) && d.target == s.target ensures d == f { assert FirstOfItsKey(sheets, d); }
  }

  /** On every page the gate passes exactly when the entry points exist, something is linked, and every linked
      sheet is good whose key is not first linked by a remote sheet. */
  lemma GateJudges(fs: Files, entries: seq<string>)
    ensures ContractFailures(fs, entries) == [] <==>
      && (forall e :: e in entries ==> e in fs)
      && Linked(fs, entries) != []
      && forall s :: s in Linked(fs, entries) && LedByLocal(Linked(fs, entries), s) ==> Good(fs, s)
  {
    hide Linked, Violations, ContractFailures, FirstOfItsKey;
    var all := Linked(fs, entries);
    GateExact(fs, entries);
    forall s | s in all && LedByLocal(all, s)
      ensures exists f :: FirstOfItsKey(all, f) && (Good(fs, f) ==> Good(fs, s))
    {
      var f := FirstLike(all, s);
      if s.target.Local? { assert f.target == s.target; }
    }
    forall f | FirstOfItsKey(all, f) ensures f in all && (LedByLocal(all, f) || Good(fs, f)) {
      FirstIsLinked(all, f);
    }
  }

  lemma FirstIsLinked(sheets: seq<Sheet>, f: Sheet)
    requires FirstOfItsKey(sheets, f)
    ensures f in sheets
  {
  }

  /** A local sheet is shadowed when its key is first linked by a remote one. */
  ghost predicate Shadowed(sheets: seq<Sheet>) {
    exists l, r :: l in sheets && l.target.Local? &&
      FirstOfItsKey(sheets, r) && SheetKey(r) == SheetKey(l) && r.target.Remote?
  }

  /** When no local sheet's key is first linked by a remote one, the gate judges every linked sheet. */
  lemma GateCoversAllLinks(fs: Files, entries: seq<string>)
    requires !Shadowed(Linked(fs, entries))
    ensures ContractFailures(fs, entries) == [] <==>
      && (forall e :: e in entries ==> e in fs)
      && Linked(fs, entries) != []
      && forall s :: s in Linked(fs, entries) ==> Good(fs, s)
  {
    hide Linked, Violations, ContractFailures, FirstOfItsKey;
    var all := Linked(fs, entries);
    GateJudges(fs, entries);
    forall s | s in all && s.target.Local? ensures LedByLocal(all, s) { var f := FirstLike(all, s); }
  }

  // ---- a page on which they differ ----

  /** `<link rel="stylesheet" href="h">` */
  function StylesheetLink(h: string): Link {
    Link("<link", " ", [Attr("rel", "", "", Double, "stylesheet", " "), Attr("href", "", "", Double, h, "")], "", "")
  }

  lemma StylesheetLinkIsWellFormed(h: string)
    requires '"' !in h && '>' !in h
    ensures WellFormedLink(StylesheetLink(h))
  {
    hide Lower, NoLink, PrintAttrs, Legal;
    RelIsNotHref();
    NoLinkInNothing();
    AttrsAreLegal(h);
    PrintsNoAngle(h);
  }

  lemma AttrsAreLegal(h: string)
    requires '"' !in h
    ensures Legal(Attr("rel", "", "", Double, "stylesheet", " ")) && Legal(Attr("href", "", "", Double, h, ""))
  {
  }

  lemma PrintsNoAngle(h: string)
    requires '>' !in h
    ensures '>' !in PrintAttrs(StylesheetLink(h).attrs, "")
  {
    var attrs := StylesheetLink(h).attrs;
    assert attrs[1..] == [attrs[1]] && attrs[1..][1..] == [];
    assert '>' !in PrintAttr(attrs[0]) && '>' !in PrintAttr(attrs[1]);
    assert PrintAttrs([], "") == "";
    assert PrintAttrs(attrs[1..], "") == PrintAttr(attrs[1]) + ("" + "");
  }

  lemma RelIsNotHref()
    ensures Lower("rel") == "rel" && Lower("href") == "href" && Lower("stylesheet") == "stylesheet"
  {
  }

  lemma NoLinkInNothing()
    ensures NoLink("")
  {
  }

  lemma OneWord(word: string)
    requires word != "" && All(word, c => !JsSpace(c))
    ensures SplitSpaces(word) == [word] && Trim(word) == word
  {
    RunEndIs(word, 0, c => !JsSpace(c), |word|);
    assert !JsSpace(word[0]) && !JsSpace(word[|word| - 1]);
    StripOfTrimmed(word, JsSpace);
  }

  lemma StylesheetLinkGives(h: string, m: map<string, string>)
    requires h != "" && Trimmed(h, JsSpace) && Denotes(StylesheetLink(h).attrs, m)
    ensures LinkHref(m) == [h]
  {
    hide Lower, Strip, SplitSpaces;
    var attrs := StylesheetLink(h).attrs;
    RelIsNotHref();
    assert attrs[0].value == "stylesheet" && attrs[1].value == h;
    assert Gives(attrs, "rel", "stylesheet") && Gives(attrs, "href", h);
    OneWord("stylesheet");
    StripOfTrimmed(h, JsSpace);
  }

  lemma FirstLink(ls: seq<Link>, h: string, hrefs: seq<string>)
    requires h != "" && Trimmed(h, JsSpace) && ls != [] && ls[0] == StylesheetLink(h) && Contribute(ls, hrefs)
    ensures hrefs != [] && hrefs[0] == h && Contribute(ls[1..], hrefs[1..])
  {
    hide StylesheetLink, Denotes, LinkHref, Strip;
    var m: map<string, string> :|
      Denotes(ls[0].attrs, m) && LinkHref(m) <= hrefs && Contribute(ls[1..], hrefs[|LinkHref(m)|..]);
    StylesheetLinkGives(h, m);
  }

  lemma TwoLinks(g: string, h: string)
    requires '"' !in g && '>' !in g && g != "" && Trimmed(g, JsSpace)
    requires '"' !in h && '>' !in h && h != "" && Trimmed(h, JsSpace)
    ensures Hrefs(PrintLinks([StylesheetLink(g), StylesheetLink(h)])) == [g, h]
  {
    hide WellFormedLink, StylesheetLink, Hrefs, PrintLinks, Strip, Trimmed, Contribute;
    var ls := [StylesheetLink(g), StylesheetLink(h)];
    StylesheetLinkIsWellFormed(g);
    StylesheetLinkIsWellFormed(h);
    HrefsOfLinks(ls);
    var hrefs := Hrefs(PrintLinks(ls));
    FirstLink(ls, g, hrefs);
    FirstLink(ls[1..], h, hrefs[1..]);
    NoMoreLinks(hrefs[1..][1..]);
    assert ls[1..][1..] == [];
  }

  lemma NoMoreLinks(hrefs: seq<string>)
    ensures Contribute([], hrefs) ==> hrefs == []
  {
  }

  /** Without that condition a sheet can escape: a page that links a remote sheet and then, by a relative
      href, a local one of the same key passes although the local file does not exist. */
  lemma ShadowedSheetEscapes(fs: Files, entry: string)
    requires entry in fs && "url://x" !in fs
    requires fs[entry] == PrintLinks([StylesheetLink("//x"), StylesheetLink("./url://x")])
    ensures ContractFailures(fs, [entry]) == [] && exists s :: s in Linked(fs, [entry]) && !Good(fs, s)
  {
    hide Violations, ContractFailures, PrintLinks, StylesheetLink, Hrefs, Linked, NormalizeHref, Targets;
    var all := [Sheet(Remote("//x"), entry), Sheet(Local("url://x"), entry)];
    TwoLinks("//x", "./url://x");
    TwoTargets(entry);
    LinkedAlone(fs, entry);
    GateExact(fs, [entry]);
    assert all[1] in all && !Good(fs, all[1]);
    var one := all[..1];
    assert SheetKey(one[0]) == SheetKey(all[1]);
    assert HasKey(one, SheetKey(all[1]));
    forall s | FirstOfItsKey(all, s) ensures Good(fs, s) {}
  }

  lemma TwoTargets(entry: string)
    ensures Targets(["//x", "./url://x"], entry) == [Sheet(Remote("//x"), entry), Sheet(Local("url://x"), entry)]
  {
    hide NormalizeHref;
    NormalizedExamples();
    assert Init(["//x"]) == [] && Targets([], entry) == [];
    assert Targets(["//x"], entry) == [Sheet(Remote("//x"), entry)];
    assert Init(["//x", "./url://x"]) == ["//x"] && Last(["//x", "./url://x"]) == "./url://x";
  }

  lemma LinkedAlone(fs: Files, entry: string)
    ensures Linked(fs, [entry]) == LinksOf(fs, entry)
  {
    assert Init([entry]) == [];
  }

  lemma NormalizedExamples()
    ensures NormalizeHref("//x") == Some(Remote("//x"))
    ensures NormalizeHref("./url://x") == Some(Local("url://x"))
  {
    assert "//x"[..2] == "//";
    assert "./url://x" == "./" + "url://x" + "";
    SameFile("./", "url://x", "");
  }
}
