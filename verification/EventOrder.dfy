/** Which event of a group is selected, and how the two result lists are ordered, read off the fields of the
    events (`_apply_final_state_wins`). */
module EventOrder {
  import opened FinalState
  import opened InputOrder
  import opened Ordering
  import opened Scenarios
  import opened Text

  /** Python's `a < b` on texts: the first differing character decides, and a proper prefix comes first. */
  ghost predicate Precedes(a: string, b: string) {
    || (|a| < |b| && b[..|a|] == a)
    || exists k: nat :: DiffersAt(a, b, k) && a[k] < b[k]
  }

  predicate DiffersAt(a: string, b: string, k: nat) {
    k < |a| && k < |b| && a[..k] == b[..k] && a[k] != b[k]
  }

  /** Python's `a < b` on tuples of texts: the first differing component decides. */
  ghost predicate FieldsPrecede(a: seq<string>, b: seq<string>) {
    exists k: nat :: SameUpTo(a, b, k) && Precedes(a[k], b[k])
  }

  predicate SameUpTo(a: seq<string>, b: seq<string>, k: nat) {
    k < |a| && k < |b| && a[..k] == b[..k]
  }

  lemma {:induction false} TextLess(a: string, b: string)
    ensures Precedes(a, b) <==> TextLeq(a, b) && a != b
  {
    forall k: nat | DiffersAt(a, b, k) && k > 0 ensures a[0] == b[0] { SameHead(a, b, k); }
    if a != [] && b != [] && a[0] == b[0] {
      TextLess(a[1..], b[1..]);
      assert a == [a[0]] + a[1..] && b == [b[0]] + b[1..];
      PrecedesTail(a, b);
    } else if a != [] && b != [] {
      assert DiffersAt(a, b, 0);
      assert |a| < |b| ==> b[..|a|][0] == b[0];
    }
  }

  lemma SameHead(a: string, b: string, k: nat)
    requires DiffersAt(a, b, k) && k > 0
    ensures a[0] == b[0]
  {
    assert a[..k][0] == a[0] && b[..k][0] == b[0];
  }

  lemma PrecedesTail(a: string, b: string)
    requires a != [] && b != [] && a[0] == b[0]
    ensures Precedes(a, b) <==> Precedes(a[1..], b[1..])
  {
    var c, d := a[1..], b[1..];
    assert a == [a[0]] + c && b == [b[0]] + d;
    if |a| < |b| {
      assert b[..|a|] == [b[0]] + d[..|c|];
      assert b[..|a|] == a <==> d[..|c|] == c;
    }
    forall k: nat ensures DiffersAt(a, b, k + 1) <==> DiffersAt(c, d, k) {
      if k < |c| && k < |d| { assert a[..k + 1] == [a[0]] + c[..k] && b[..k + 1] == [b[0]] + d[..k]; }
    }
    if k: nat :| DiffersAt(a, b, k) && a[k] < b[k] {
      assert k > 0;
      assert DiffersAt(c, d, k - 1) && c[k - 1] < d[k - 1];
    }
    if k: nat :| DiffersAt(c, d, k) && c[k] < d[k] {
      assert DiffersAt(a, b, k + 1) && a[k + 1] < b[k + 1];
    }
  }

  lemma {:induction false} FieldsLess(a: seq<string>, b: seq<string>)
    requires |a| == |b|
    ensures FieldsPrecede(a, b) <==> TextsLeq(a, b) && a != b
  {
    hide Precedes;
    if a != [] {
      var c, d := a[1..], b[1..];
      assert a == [a[0]] + c && b == [b[0]] + d;
      FieldsLess(c, d);
      TextLess(a[0], b[0]);
      forall k: nat ensures a[0] == b[0] ==> (SameUpTo(a, b, k + 1) <==> SameUpTo(c, d, k)) {
        if k < |c| { assert a[..k + 1] == [a[0]] + c[..k] && b[..k + 1] == [b[0]] + d[..k]; }
      }
      if k: nat :| SameUpTo(a, b, k) && Precedes(a[k], b[k]) {
        if k > 0 {
          assert a[..k][0] == b[..k][0];
          assert SameUpTo(c, d, k - 1) && Precedes(c[k - 1], d[k - 1]);
        }
      }
      if a[0] == b[0] {
        if k: nat :| SameUpTo(c, d, k) && Precedes(c[k], d[k]) {
          assert SameUpTo(a, b, k + 1) && Precedes(a[k + 1], b[k + 1]);
        }
      } else if Precedes(a[0], b[0]) {
        assert SameUpTo(a, b, 0);
      }
    }
  }

  // ---- reading the fields ----

  predicate Numbered(x: Scenario, n: int) {
    x.sequence == Whole(n) || (x.sequence == Unset && n == 0)
  }

  /** The name an event is grouped by: its event group, else its asset number, else its case id. */
  predicate NamedBy(x: Scenario, g: string) {
    || (x.eventGroup == Str(g) && g != "")
    || (Blank(x.eventGroup) && x.source.assetNumber == Str(g) && g != "")
    || (Blank(x.eventGroup) && Blank(x.source.assetNumber) &&
        (x.caseId == Str(g) || ((x.caseId == Missing || x.caseId == Null) && g == "None")))
  }

  lemma GroupIsName(x: Scenario, g: string)
    ensures GroupOf(x) == g <==> NamedBy(x, g)
  {
  }

  // ---- the selected event ----

  lemma EventKeyIs(x: Scenario, n: int, date: string, caseId: string)
    requires Numbered(x, n) && Shows(x.dff.transferDate, date) && Shows(x.caseId, caseId)
    ensures EventKey(x) == Key(n, [date, caseId])
  {
    FieldTexts(x.dff.transferDate, date);
    FieldTexts(x.caseId, caseId);
  }

  lemma PairPrecedes(a: string, b: string, a': string, b': string)
    ensures Precedes(a, a') || (a == a' && Precedes(b, b')) ==> FieldsPrecede([a, b], [a', b'])
  {
    hide Precedes;
    if Precedes(a, a') {
      assert SameUpTo([a, b], [a', b'], 0);
    } else if a == a' && Precedes(b, b') {
      assert [a, b][..1] == [a] && [a', b'][..1] == [a'];
      assert SameUpTo([a, b], [a', b'], 1);
    }
  }

  /** Of two events grouped under one name the one with the smaller sequence is not selected; with equal
      sequences the one with the earlier date is not; with equal dates the one with the smaller case id is not. */
  lemma EarlierLoses(s: seq<Scenario>, m: EntityMap, g: string, x: Scenario, n: int, date: string, caseId: string,
                     y: Scenario, n': int, date': string, caseId': string)
    requires x in s && y in s && NamedBy(x, g) && NamedBy(y, g)
    requires Numbered(x, n) && Shows(x.dff.transferDate, date) && Shows(x.caseId, caseId)
    requires Numbered(y, n') && Shows(y.dff.transferDate, date') && Shows(y.caseId, caseId')
    requires n < n' || (n == n' && (Precedes(date, date') || (date == date' && Precedes(caseId, caseId'))))
    ensures x !in Selected(s, m)
  {
    hide Selected, Precedes, Shows, Numbered, NamedBy, GroupOf, EventKey, FieldsPrecede;
    EventKeyIs(x, n, date, caseId);
    EventKeyIs(y, n', date', caseId');
    GroupIsName(x, g);
    GroupIsName(y, g);
    PairPrecedes(date, caseId, date', caseId');
    FieldsLess([date, caseId], [date', caseId']);
    Order(EventKey(x), EventKey(y), EventKey(x));
    if x in Selected(s, m) { SelectedIsTop(s, m, x); }
  }

  /** Every name that some event is grouped by has exactly one selected event. */
  lemma OnePerName(s: seq<Scenario>, m: EntityMap, x: Scenario, g: string) returns (w: Scenario)
    requires x in s && NamedBy(x, g)
    ensures w in s && w in Selected(s, m) && NamedBy(w, g)
    ensures forall v :: v in Selected(s, m) && NamedBy(v, g) ==> v == w
  {
    hide Selected, NamedBy, GroupOf, Wins, Distinct;
    GroupIsName(x, g);
    w := WinnerOfGroup(s, m, x);
    GroupIsName(w, g);
    OneWinnerPerGroup(s, m);
    forall v | v in Selected(s, m) && NamedBy(v, g) ensures v == w {
      GroupIsName(v, g);
      OnlyOneOfItsGroup(Selected(s, m), v, w);
    }
  }

  // ---- the order of the two lists ----

  /** The selected events are listed by book, then asset number, date, location and target book. */
  lemma SelectedOrder(s: seq<Scenario>, m: EntityMap, i: nat, j: nat)
    requires i < j < |Selected(s, m)|
    ensures var x, y := Selected(s, m)[i], Selected(s, m)[j];
      !FieldsPrecede(
        [OrEmpty(y.source.bookTypeCode), OrEmpty(y.source.assetNumber), OrEmpty(y.dff.transferDate),
         if Blank(y.dff.targetLocationId) then OrEmpty(y.dff.transferToLocation) else OrEmpty(y.dff.targetLocationId),
         ResolvedTargetBook(y, m)],
        [OrEmpty(x.source.bookTypeCode), OrEmpty(x.source.assetNumber), OrEmpty(x.dff.transferDate),
         if Blank(x.dff.targetLocationId) then OrEmpty(x.dff.transferToLocation) else OrEmpty(x.dff.targetLocationId),
         ResolvedTargetBook(x, m)])
  {
    hide Selected, FieldsPrecede, ResolvedTargetBook, GroupOf;
    SelectedFacts(s, m);
    var x, y := Selected(s, m)[i], Selected(s, m)[j];
    var a, b := ByBook(m)(x), ByBook(m)(y);
    assert Leq(a, b);
    Order(a, b, a);
    FieldsLess(b.texts, a.texts);
  }

  /** The collapsed events are listed by case id. */
  lemma CollapsedOrder(s: seq<Scenario>, i: nat, j: nat)
    requires i < j < |Collapsed(s)|
    ensures !Precedes(OrEmpty(Collapsed(s)[j].caseId), OrEmpty(Collapsed(s)[i].caseId))
  {
    hide Collapsed, Precedes;
    CollapsedSorted(s);
    var a, b := CaseKey(Collapsed(s)[i]), CaseKey(Collapsed(s)[j]);
    Order(a, b, a);
    TextLess(b.texts[0], a.texts[0]);
    assert a.texts[1..] == [] && b.texts[1..] == [];
    assert a.texts == [a.texts[0]] && b.texts == [b.texts[0]];
  }
}
