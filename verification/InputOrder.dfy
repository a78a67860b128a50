/** When the order of the events matters to `_apply_final_state_wins`, and when it does not. */
module InputOrder {
  import opened FinalState
  import opened Ordering
  import opened Scenarios

  /** Every reordering of the events has the same outcome. */
  ghost predicate OrderFree(s: seq<Scenario>, m: EntityMap) {
    forall t :: multiset(t) == multiset(s) ==> FinalStateWins(t, m) == FinalStateWins(s, m)
  }

  /** No event of its group is greater than `x`. */
  ghost predicate Top(s: seq<Scenario>, x: Scenario) {
    forall z :: z in s && GroupOf(z) == GroupOf(x) ==> Leq(EventKey(z), EventKey(x))
  }

  /** No group has two different events at its top. */
  ghost predicate TopsApart(s: seq<Scenario>) {
    forall x, y :: x in s && y in s && GroupOf(x) == GroupOf(y) && EventKey(x) == EventKey(y) && Top(s, x) ==> x == y
  }

  /** Different collapsed events of one case id are different events of one group, ranked apart. */
  ghost predicate LosersApart(s: seq<Scenario>) {
    forall x, y :: x in Collapsed(s) && y in Collapsed(s) && CaseKey(x) == CaseKey(y) && x != y ==>
      GroupOf(x) == GroupOf(y) && EventKey(x) != EventKey(y)
  }

  lemma SameElements(s: seq<Scenario>, t: seq<Scenario>)
    requires multiset(s) == multiset(t)
    ensures forall x :: x in s <==> x in t
  {
    forall x ensures x in s <==> x in t { assert x in multiset(s) <==> x in multiset(t); }
  }

  lemma ComparablePermute(s: seq<Scenario>, t: seq<Scenario>)
    requires multiset(s) == multiset(t)
    ensures Comparable(s) <==> Comparable(t)
  {
    SameElements(s, t);
    assert Comparable(s) <==> forall x :: x in s ==> !x.sequence.Rejected?;
    assert Comparable(t) <==> forall x :: x in t ==> !x.sequence.Rejected?;
  }

  lemma SelectedIsTop(s: seq<Scenario>, m: EntityMap, w: Scenario)
    requires w in Selected(s, m)
    ensures w in s && Top(s, w)
  {
    hide GroupOf, EventKey, Leq, Members, Selected, Distinct, Wins;
    OneWinnerPerGroup(s, m);
    forall z | z in s && GroupOf(z) == GroupOf(w) ensures Leq(EventKey(z), EventKey(w)) { WinnerGreatest(s, w, z); }
  }

  lemma WinnerGreatest(s: seq<Scenario>, w: Scenario, x: Scenario)
    requires Wins(s, w) && x in s && GroupOf(x) == GroupOf(w)
    ensures Leq(EventKey(x), EventKey(w))
  {
    hide GroupOf, EventKey, Leq, Members;
    MembersBelong(s, GroupOf(w), x);
    var j :| 0 <= j < |Members(s, GroupOf(w))| && Members(s, GroupOf(w))[j] == x;
  }

  // ---- sufficiency: the winners ----

  lemma TopsApartPermute(s: seq<Scenario>, t: seq<Scenario>)
    requires multiset(s) == multiset(t) && TopsApart(s)
    ensures TopsApart(t)
  {
    hide GroupOf, EventKey, Leq;
    SameElements(s, t);
    forall x ensures Top(s, x) <==> Top(t, x) {}
  }

  lemma SelectedPermute(s: seq<Scenario>, t: seq<Scenario>, m: EntityMap, x: Scenario)
    requires TopsApart(s) && multiset(s) == multiset(t) && x in Selected(s, m)
    ensures x in Selected(t, m)
  {
    hide GroupOf, EventKey, Leq, Selected, Wins, Distinct;
    SelectedIsTop(s, m, x);
    OneWinnerPerGroup(t, m);
    SameElements(s, t);
    var w :| w in Selected(t, m) && GroupOf(w) == GroupOf(x);
    SelectedIsTop(t, m, w);
    Order(EventKey(x), EventKey(w), EventKey(x));
  }

  lemma SelectedSame(s: seq<Scenario>, t: seq<Scenario>, m: EntityMap)
    requires TopsApart(s) && multiset(s) == multiset(t)
    ensures multiset(Selected(s, m)) == multiset(Selected(t, m))
  {
    hide GroupOf, Selected, Wins, TopsApart, Distinct;
    TopsApartPermute(s, t);
    OneWinnerPerGroup(s, m);
    OneWinnerPerGroup(t, m);
    var a, b := Selected(s, m), Selected(t, m);
    forall x: Scenario ensures multiset(a)[x] == multiset(b)[x] {
      DistinctCount(a, GroupOf, x);
      DistinctCount(b, GroupOf, x);
      if x in a { SelectedPermute(s, t, m, x); }
      if x in b { SelectedPermute(t, s, m, x); }
    }
  }

  // ---- sufficiency: the collapsed events ----

  /** Events of one group stand in the order of their rank. */
  ghost predicate GroupSorted(s: seq<Scenario>) {
    forall i, j :: 0 <= i < j < |s| && GroupOf(s[i]) == GroupOf(s[j]) ==> Leq(EventKey(s[i]), EventKey(s[j]))
  }

  lemma RankedLosers(s: seq<Scenario>, g: string)
    requires Members(s, g) != []
    ensures GroupSorted(Init(Ranked(s, g))) && forall x :: x in Init(Ranked(s, g)) ==> GroupOf(x) == g && x in s
  {
    hide GroupOf, EventKey, Leq, Members;
    SortBySpec(Members(s, g), EventKey, Key(0, []));
    forall x | x in Init(Ranked(s, g)) ensures GroupOf(x) == g && x in s {
      InitLast(Ranked(s, g));
      assert x in multiset(Ranked(s, g));
      MembersBelong(s, g, x);
    }
  }

  lemma ConcatGroupSorted(a: seq<Scenario>, b: seq<Scenario>)
    requires GroupSorted(a) && GroupSorted(b)
    requires forall i, j :: 0 <= i < |a| && 0 <= j < |b| ==> GroupOf(a[i]) != GroupOf(b[j])
    ensures GroupSorted(a + b)
  {
    hide GroupOf, EventKey, Leq;
  }

  lemma {:induction false} LosersGroupSorted(s: seq<Scenario>, gs: seq<string>)
    requires Inhabited(s, gs) && Distinct(gs, (g: string) => g)
    ensures GroupSorted(Losers(s, gs)) && forall x :: x in Losers(s, gs) ==> GroupOf(x) in gs && x in s
  {
    hide GroupOf, EventKey, Leq, Members, Ranked;
    if gs != [] {
      var front, last := Losers(s, Init(gs)), Init(Ranked(s, Last(gs)));
      LosersGroupSorted(s, Init(gs));
      RankedLosers(s, Last(gs));
      InitLast(gs);
      assert forall g :: g in Init(gs) ==> g != Last(gs);
      forall i, j | 0 <= i < |front| && 0 <= j < |last| ensures GroupOf(front[i]) != GroupOf(last[j]) {
        assert front[i] in front && last[j] in last;
      }
      ConcatGroupSorted(front, last);
    }
  }

  lemma {:induction false} WithGroupSorted(s: seq<Scenario>, k: Key, key: Scenario -> Key)
    requires GroupSorted(s)
    ensures GroupSorted(With(s, k, key))
  {
    hide GroupOf, EventKey, Leq;
    if s != [] {
      var front := With(Init(s), k, key);
      WithGroupSorted(Init(s), k, key);
      forall i | 0 <= i < |front| && GroupOf(front[i]) == GroupOf(Last(s))
        ensures Leq(EventKey(front[i]), EventKey(Last(s)))
      {
        WithMember(Init(s), k, key, front[i]);
        var p :| 0 <= p < |Init(s)| && Init(s)[p] == front[i];
        assert s[p] == front[i];
      }
    }
  }

  lemma {:induction false} WithCount<T>(s: seq<T>, k: Key, key: T -> Key, x: T)
    ensures multiset(With(s, k, key))[x] == if key(x) == k then multiset(s)[x] else 0
  {
    if s != [] {
      WithCount(Init(s), k, key, x);
      InitLast(s);
    }
  }

  /** Events of one case id come out in the same order, whatever order they came in. */
  lemma CaseClassSame(s: seq<Scenario>, t: seq<Scenario>, k: Key)
    requires multiset(Collapsed(s)) == multiset(Collapsed(t)) && LosersApart(s)
    ensures With(Collapsed(s), k, CaseKey) == With(Collapsed(t), k, CaseKey)
  {
    hide GroupOf, EventKey, Leq, CaseKey, Collapsed, LosersApart;
    var a, b := With(Collapsed(s), k, CaseKey), With(Collapsed(t), k, CaseKey);
    forall x: Scenario ensures multiset(a)[x] == multiset(b)[x] {
      WithCount(Collapsed(s), k, CaseKey, x);
      WithCount(Collapsed(t), k, CaseKey, x);
    }
    SameElements(a, b);
    ClassApart(s, k);
    ClassGroupSorted(s, k);
    ClassGroupSorted(t, k);
    RankedApart(a);
    RankedApart(b);
    SortedIsUnique(a, b, EventKey);
  }

  lemma ClassApart(s: seq<Scenario>, k: Key)
    requires LosersApart(s)
    ensures forall x, y :: x in With(Collapsed(s), k, CaseKey) && y in With(Collapsed(s), k, CaseKey) && x != y ==>
      GroupOf(x) == GroupOf(y) && EventKey(x) != EventKey(y)
  {
    hide GroupOf, EventKey, CaseKey, Collapsed;
    forall x | x in With(Collapsed(s), k, CaseKey) ensures x in Collapsed(s) && CaseKey(x) == k {
      WithMember(Collapsed(s), k, CaseKey, x);
    }
  }

  lemma ClassGroupSorted(s: seq<Scenario>, k: Key)
    ensures GroupSorted(With(Collapsed(s), k, CaseKey))
  {
    hide GroupOf, EventKey, Leq, CaseKey, Losers, Groups, GroupSorted;
    GroupsInhabited(s);
    LosersGroupSorted(s, Groups(s));
    WithGroupSorted(Losers(s, Groups(s)), k, CaseKey);
    SortBySpec(Losers(s, Groups(s)), CaseKey, k);
  }

  lemma RankedApart(a: seq<Scenario>)
    requires GroupSorted(a)
    requires forall x, y :: x in a && y in a && x != y ==> GroupOf(x) == GroupOf(y) && EventKey(x) != EventKey(y)
    ensures Sorted(a, EventKey) && InjectiveOn(a, EventKey)
  {
    hide GroupOf, EventKey, Leq;
    forall i, j | 0 <= i < j < |a| ensures Leq(EventKey(a[i]), EventKey(a[j])) {
      if a[i] == a[j] { Order(EventKey(a[i]), EventKey(a[i]), EventKey(a[i])); }
    }
  }

  lemma CollapsedSame(s: seq<Scenario>, t: seq<Scenario>, m: EntityMap)
    requires multiset(s) == multiset(t) && LosersApart(s)
    requires multiset(Selected(s, m)) == multiset(Selected(t, m))
    ensures Collapsed(s) == Collapsed(t)
  {
    hide Selected, Collapsed, LosersApart, Sorted;
    Conservation(s, m);
    Conservation(t, m);
    assert multiset(Collapsed(s)) == multiset(s) - multiset(Selected(s, m)) == multiset(Collapsed(t));
    forall k ensures With(Collapsed(s), k, CaseKey) == With(Collapsed(t), k, CaseKey) { CaseClassSame(s, t, k); }
    CollapsedSorted(s);
    CollapsedSorted(t);
    SameClassesSameList(Collapsed(s), Collapsed(t), CaseKey);
  }

  lemma CollapsedSorted(s: seq<Scenario>)
    ensures Sorted(Collapsed(s), CaseKey)
  {
    GroupsInhabited(s);
    SortBySpec(Losers(s, Groups(s)), CaseKey, Key(0, []));
  }

  lemma ApartIsFree(s: seq<Scenario>, m: EntityMap)
    requires TopsApart(s) && InjectiveOn(Selected(s, m), ByBook(m)) && LosersApart(s)
    ensures OrderFree(s, m)
  {
    hide Selected, Collapsed, ByBook, Comparable, TopsApart, LosersApart, Sorted;
    forall t | multiset(t) == multiset(s) ensures FinalStateWins(t, m) == FinalStateWins(s, m) {
      ComparablePermute(s, t);
      SelectedSame(s, t, m);
      SelectedFacts(s, m);
      SelectedFacts(t, m);
      SortedIsUnique(Selected(s, m), Selected(t, m), ByBook(m));
      CollapsedSame(s, t, m);
    }
  }

  // ---- necessity: moving one event to the back or to the front ----

  function Without(s: seq<Scenario>, x: Scenario): (r: seq<Scenario>)
    requires x in s
    ensures multiset(r) == multiset(s) - multiset{x}
  {
    assert s == [s[0]] + s[1..];
    if s[0] == x then s[1..] else [s[0]] + Without(s[1..], x)
  }

  function ToBack(s: seq<Scenario>, x: Scenario): (r: seq<Scenario>)
    requires x in s
    ensures multiset(r) == multiset(s)
  {
    Without(s, x) + [x]
  }

  function ToFront(s: seq<Scenario>, x: Scenario): (r: seq<Scenario>)
    requires x in s
    ensures multiset(r) == multiset(s) && r != [] && r[0] == x
  {
    [x] + Without(s, x)
  }

  lemma LastInItsGroup(s: seq<Scenario>, w: Scenario, x: Scenario)
    requires Wins(s, w) && GroupOf(w) == GroupOf(x) && s != [] && Last(s) == x
    requires Leq(EventKey(w), EventKey(x))
    ensures w == x
  {
    hide GroupOf, EventKey, Leq;
    var all := Members(s, GroupOf(x));
    assert all == Members(Init(s), GroupOf(x)) + [x];
    var n := |all| - 1;
    assert all[n] == x;
    Order(EventKey(x), EventKey(w), EventKey(x));
  }

  lemma WinnerOfGroup(s: seq<Scenario>, m: EntityMap, x: Scenario) returns (w: Scenario)
    requires x in s
    ensures w in Selected(s, m) && GroupOf(w) == GroupOf(x) && w in s && Wins(s, w)
  {
    hide GroupOf, Selected, Distinct, Wins;
    OneWinnerPerGroup(s, m);
    w :| w in Selected(s, m) && GroupOf(w) == GroupOf(x);
  }

  lemma BackIsLast(s: seq<Scenario>, x: Scenario)
    requires x in s
    ensures ToBack(s, x) != [] && Last(ToBack(s, x)) == x
    ensures forall z :: z in ToBack(s, x) <==> z in s
  {
    SameElements(s, ToBack(s, x));
  }

  /** A tie at the top of a group goes to the event that comes last. */
  lemma LastOfTheTopWins(s: seq<Scenario>, m: EntityMap, x: Scenario)
    requires x in s && Top(s, x)
    ensures x in Selected(ToBack(s, x), m)
  {
    hide GroupOf, EventKey, Leq, Selected, ToBack, Wins;
    BackIsLast(s, x);
    var w := WinnerOfGroup(ToBack(s, x), m, x);
    assert Leq(EventKey(w), EventKey(x));
    LastInItsGroup(ToBack(s, x), w, x);
  }

  /** First kind of tie: two different events at the top of one group. Whichever comes last is selected. */
  lemma TopTieMatters(s: seq<Scenario>, m: EntityMap, x: Scenario, y: Scenario)
    requires x in s && y in s && x != y && GroupOf(x) == GroupOf(y) && EventKey(x) == EventKey(y) && Top(s, x)
    ensures x in Selected(ToBack(s, x), m) && x !in Selected(ToBack(s, y), m)
  {
    hide GroupOf, EventKey, Leq, Selected, ToBack, Wins;
    LastOfTheTopWins(s, m, x);
    assert Top(s, y);
    LastOfTheTopWins(s, m, y);
    OneWinnerPerGroup(ToBack(s, y), m);
    var a := Selected(ToBack(s, y), m);
    var i :| 0 <= i < |a| && a[i] == y;
    forall j | 0 <= j < |a| ensures a[j] != x {
      assert i < j ==> GroupOf(a[i]) != GroupOf(a[j]);
      assert j < i ==> GroupOf(a[j]) != GroupOf(a[i]);
    }
  }

  lemma {:induction false} GroupsHead(s: seq<Scenario>)
    requires s != []
    ensures Groups(s) != [] && Groups(s)[0] == GroupOf(s[0])
  {
    hide GroupOf;
    if |s| > 1 { GroupsHead(Init(s)); }
  }

  lemma {:induction false} HeadOfClass<T>(s: seq<T>, k: Key, key: T -> Key)
    requires s != [] && key(s[0]) == k
    ensures With(s, k, key) != [] && With(s, k, key)[0] == s[0]
  {
    if |s| > 1 { HeadOfClass(Init(s), k, key); }
  }

  /** A winner whose group comes first heads the winners of its sort key. */
  lemma FrontWinnerLeads(s: seq<Scenario>, m: EntityMap, w: Scenario)
    requires w in s && w in Selected(ToFront(s, w), m)
    ensures var c := With(Selected(ToFront(s, w), m), ByBook(m)(w), ByBook(m)); c != [] && c[0] == w
  {
    hide GroupOf, ByBook, Winners, Groups, Members, ToFront, Wins;
    var t := ToFront(s, w);
    var k := ByBook(m)(w);
    GroupsHead(t);
    GroupsInhabited(t);
    var ws := Winners(t, Groups(t));
    WinnersByGroup(t, Groups(t));
    SortBySpec(ws, ByBook(m), k);
    OneWinnerPerGroup(t, m);
    assert ws[0] in multiset(Selected(t, m));
    OnlyOneOfItsGroup(Selected(t, m), w, ws[0]);
    HeadOfClass(ws, k, ByBook(m));
  }

  lemma OnlyOneOfItsGroup(s: seq<Scenario>, x: Scenario, y: Scenario)
    requires Distinct(s, GroupOf) && x in s && y in s && GroupOf(x) == GroupOf(y)
    ensures x == y
  {
    hide GroupOf;
    DistinctDetermines(s, GroupOf, x, y);
  }

  /** Second kind of tie: two winners of one sort key. The one whose group comes first is listed first. */
  lemma WinnerTieMatters(s: seq<Scenario>, m: EntityMap, x: Scenario, y: Scenario)
    requires x in s && y in s && x != y && ByBook(m)(x) == ByBook(m)(y)
    requires x in Selected(ToFront(s, x), m) && y in Selected(ToFront(s, y), m)
    ensures Selected(ToFront(s, x), m) != Selected(ToFront(s, y), m)
  {
    hide ByBook, Selected, ToFront, With;
    FrontWinnerLeads(s, m, x);
    FrontWinnerLeads(s, m, y);
  }

  lemma {:induction false} WithConcat<T>(a: seq<T>, b: seq<T>, k: Key, key: T -> Key)
    ensures With(a + b, k, key) == With(a, k, key) + With(b, k, key)
  {
    if b == [] {
      assert a + b == a;
    } else {
      assert Init(a + b) == a + Init(b) && Last(a + b) == Last(b);
      WithConcat(a, Init(b), k, key);
    }
  }

  lemma {:induction false} WithHas<T>(s: seq<T>, key: T -> Key, x: T)
    requires x in s
    ensures x in With(s, key(x), key)
  {
    WithCount(s, key(x), key, x);
    assert x in multiset(s);
    assert x in multiset(With(s, key(x), key));
  }

  /** Among the losers of one case id those of the first group come first. */
  lemma {:induction false} FirstGroupLeads(s: seq<Scenario>, gs: seq<string>, x: Scenario)
    requires Inhabited(s, gs) && Distinct(gs, (g: string) => g)
    requires gs != [] && x in Losers(s, gs) && GroupOf(x) == gs[0]
    ensures var c := With(Losers(s, gs), CaseKey(x), CaseKey); c != [] && GroupOf(c[0]) == gs[0]
  {
    hide GroupOf, CaseKey, Members, Ranked, GroupSorted;
    var front, last := Losers(s, Init(gs)), Init(Ranked(s, Last(gs)));
    var k := CaseKey(x);
    RankedLosers(s, Last(gs));
    WithConcat(front, last, k, CaseKey);
    if |gs| == 1 {
      assert front == [];
      WithHas(last, CaseKey, x);
      WithMember(last, k, CaseKey, With(last, k, CaseKey)[0]);
    } else {
      assert x in front;
      FirstGroupLeads(s, Init(gs), x);
    }
  }

  /** A collapsed event whose group comes first has an event of its group heading its case id. */
  lemma FrontLoserLeads(s: seq<Scenario>, x: Scenario)
    requires x in s && x in Collapsed(ToFront(s, x))
    ensures var c := With(Collapsed(ToFront(s, x)), CaseKey(x), CaseKey); c != [] && GroupOf(c[0]) == GroupOf(x)
  {
    hide GroupOf, CaseKey, Losers, Groups, ToFront;
    var t := ToFront(s, x);
    GroupsHead(t);
    GroupsInhabited(t);
    SortBySpec(Losers(t, Groups(t)), CaseKey, CaseKey(x));
    assert x in multiset(Losers(t, Groups(t)));
    FirstGroupLeads(t, Groups(t), x);
  }

  /** Third kind of tie: two collapsed events of one case id from different groups. The group that comes
      first is listed first. */
  lemma LoserTieMatters(s: seq<Scenario>, x: Scenario, y: Scenario)
    requires x in s && y in s && GroupOf(x) != GroupOf(y) && CaseKey(x) == CaseKey(y)
    requires x in Collapsed(ToFront(s, x)) && y in Collapsed(ToFront(s, y))
    ensures Collapsed(ToFront(s, x)) != Collapsed(ToFront(s, y))
  {
    hide GroupOf, CaseKey, Collapsed, ToFront, With;
    FrontLoserLeads(s, x);
    FrontLoserLeads(s, y);
  }

  // ---- collapsed events alike in group and rank ----

  /** Group and rank together. */
  function Tag(x: Scenario): Key {
    Key(EventKey(x).rank, [GroupOf(x)] + EventKey(x).texts)
  }

  lemma TagIs(x: Scenario, y: Scenario)
    ensures Tag(x) == Tag(y) <==> GroupOf(x) == GroupOf(y) && EventKey(x) == EventKey(y)
    ensures Tag(x) == Tag(y) ==> CaseKey(x) == CaseKey(y)
  {
    hide GroupOf;
    if Tag(x) == Tag(y) {
      assert Tag(x).texts[0] == GroupOf(x) && Tag(y).texts[0] == GroupOf(y);
      assert Tag(x).texts[1..] == EventKey(x).texts && Tag(y).texts[1..] == EventKey(y).texts;
      assert EventKey(x).texts[1] == EventKey(y).texts[1];
    }
  }

  /** A coarser class keeps a finer one whole and in order. */
  lemma {:induction false} WithWithin<T>(s: seq<T>, k: Key, key: T -> Key, c: Key, coarse: T -> Key)
    requires forall x :: x in s && key(x) == k ==> coarse(x) == c
    ensures With(With(s, c, coarse), k, key) == With(s, k, key)
  {
    if s != [] {
      InitLast(s);
      WithWithin(Init(s), k, key, c, coarse);
      WithConcat(With(Init(s), c, coarse), if coarse(Last(s)) == c then [Last(s)] else [], k, key);
      WithOne(Last(s), k, key);
    }
  }

  lemma WithOne<T>(x: T, k: Key, key: T -> Key)
    ensures With([x], k, key) == if key(x) == k then [x] else []
  {
    assert Init([x]) == [];
  }

  lemma {:induction false} WithNone<T>(s: seq<T>, k: Key, key: T -> Key)
    requires forall x :: x in s ==> key(x) != k
    ensures With(s, k, key) == []
  {
    if s != [] {
      InitLast(s);
      WithNone(Init(s), k, key);
    }
  }

  lemma {:induction false} MembersTagged(s: seq<Scenario>, x: Scenario)
    ensures With(Members(s, GroupOf(x)), Tag(x), Tag) == With(s, Tag(x), Tag)
  {
    hide GroupOf, Tag;
    if s != [] {
      MembersTagged(Init(s), x);
      TagIs(Last(s), x);
      var more := if GroupOf(Last(s)) == GroupOf(x) then [Last(s)] else [];
      WithConcat(Members(Init(s), GroupOf(x)), more, Tag(x), Tag);
      WithOne(Last(s), Tag(x), Tag);
    }
  }

  lemma RankedTagged(s: seq<Scenario>, x: Scenario)
    requires x in s && !Top(s, x)
    ensures Members(s, GroupOf(x)) != []
    ensures With(Init(Ranked(s, GroupOf(x))), Tag(x), Tag) == With(s, Tag(x), Tag)
  {
    hide GroupOf, EventKey, Leq, Members, Tag;
    var g := GroupOf(x);
    var r := Ranked(s, g);
    MembersBelong(s, g, x);
    SortBySpec(Members(s, g), EventKey, EventKey(x));
    forall z ensures Tag(z) == Tag(x) ==> EventKey(z) == EventKey(x) { TagIs(z, x); }
    WithWithin(r, Tag(x), Tag, EventKey(x), EventKey);
    WithWithin(Members(s, g), Tag(x), Tag, EventKey(x), EventKey);
    MembersTagged(s, x);
    LastRankedIsTop(s, g);
    TagIs(Last(r), x);
    assert Tag(Last(r)) != Tag(x);
    DropLast(r, Tag(x), Tag);
  }

  lemma LastRankedIsTop(s: seq<Scenario>, g: string)
    requires Members(s, g) != []
    ensures GroupOf(Last(Ranked(s, g))) == g && Top(s, Last(Ranked(s, g)))
  {
    hide GroupOf, EventKey, Leq, Ranked, Wins;
    RankedLastWins(s, g);
    var w := Last(Ranked(s, g));
    forall z | z in s && GroupOf(z) == GroupOf(w) ensures Leq(EventKey(z), EventKey(w)) { WinnerGreatest(s, w, z); }
  }

  lemma {:induction false} LosersTagged(s: seq<Scenario>, gs: seq<string>, x: Scenario)
    requires Inhabited(s, gs) && Distinct(gs, (g: string) => g) && x in s && !Top(s, x)
    ensures With(Losers(s, gs), Tag(x), Tag) == if GroupOf(x) in gs then With(s, Tag(x), Tag) else []
  {
    hide GroupOf, EventKey, Leq, Members, Tag, Ranked, GroupSorted, Top;
    if gs != [] {
      var front, last := Losers(s, Init(gs)), Init(Ranked(s, Last(gs)));
      LosersTagged(s, Init(gs), x);
      WithConcat(front, last, Tag(x), Tag);
      InitLast(gs);
      assert Last(gs) !in Init(gs);
      RankedLosers(s, Last(gs));
      if Last(gs) == GroupOf(x) {
        RankedTagged(s, x);
      } else {
        forall z | z in last ensures Tag(z) != Tag(x) { TagIs(z, x); }
        WithNone(last, Tag(x), Tag);
      }
    }
  }

  /** Collapsed events alike in group and rank keep their input order. */
  lemma CollapsedTagged(s: seq<Scenario>, x: Scenario)
    requires x in s && !Top(s, x)
    ensures With(Collapsed(s), Tag(x), Tag) == With(s, Tag(x), Tag)
  {
    hide GroupOf, EventKey, CaseKey, Losers, Groups, Tag, Top;
    GroupsInhabited(s);
    GroupsCover(s, x);
    LosersTagged(s, Groups(s), x);
    SortBySpec(Losers(s, Groups(s)), CaseKey, CaseKey(x));
    forall z ensures Tag(z) == Tag(x) ==> CaseKey(z) == CaseKey(x) { TagIs(z, x); }
    WithWithin(Collapsed(s), Tag(x), Tag, CaseKey(x), CaseKey);
    WithWithin(Losers(s, Groups(s)), Tag(x), Tag, CaseKey(x), CaseKey);
  }

  /** Fourth kind of tie, inside one group: two different events of equal rank below its top. */
  lemma RankTieMatters(s: seq<Scenario>, x: Scenario, y: Scenario)
    requires x in s && y in s && x != y && GroupOf(x) == GroupOf(y) && EventKey(x) == EventKey(y) && !Top(s, x)
    ensures Collapsed(ToFront(s, x)) != Collapsed(ToFront(s, y))
  {
    hide GroupOf, EventKey, Leq, Collapsed, ToFront, Tag;
    TagIs(x, y);
    SameElements(s, ToFront(s, x));
    SameElements(s, ToFront(s, y));
    CollapsedTagged(ToFront(s, x), x);
    CollapsedTagged(ToFront(s, y), y);
    HeadOfClass(ToFront(s, x), Tag(x), Tag);
    HeadOfClass(ToFront(s, y), Tag(y), Tag);
  }

  // ---- the exact condition ----

  lemma FreeTops(s: seq<Scenario>, m: EntityMap)
    requires Comparable(s) && OrderFree(s, m)
    ensures TopsApart(s)
  {
    hide GroupOf, EventKey, Selected, Collapsed, ToBack, Top, Comparable;
    forall x, y | x in s && y in s && GroupOf(x) == GroupOf(y) && EventKey(x) == EventKey(y) && Top(s, x)
      ensures x == y
    {
      SameOutcome(s, ToBack(s, x), m);
      SameOutcome(s, ToBack(s, y), m);
      if x != y { TopTieMatters(s, m, x, y); }
    }
  }

  lemma SameOutcome(s: seq<Scenario>, t: seq<Scenario>, m: EntityMap)
    requires Comparable(s) && OrderFree(s, m) && multiset(t) == multiset(s)
    ensures Selected(t, m) == Selected(s, m) && Collapsed(t) == Collapsed(s)
  {
    hide Selected, Collapsed, Comparable;
    ComparablePermute(s, t);
    assert FinalStateWins(t, m) == FinalStateWins(s, m);
  }

  lemma FreeWinners(s: seq<Scenario>, m: EntityMap)
    requires Comparable(s) && OrderFree(s, m)
    ensures InjectiveOn(Selected(s, m), ByBook(m))
  {
    hide ByBook, Selected, Collapsed, ToFront, Top, Comparable, OrderFree;
    forall x, y | x in Selected(s, m) && y in Selected(s, m) && ByBook(m)(x) == ByBook(m)(y) ensures x == y {
      SelectedIsTop(s, m, x);
      SelectedIsTop(s, m, y);
      SameOutcome(s, ToFront(s, x), m);
      SameOutcome(s, ToFront(s, y), m);
      if x != y { WinnerTieMatters(s, m, x, y); }
    }
  }

  lemma FreeLosers(s: seq<Scenario>, m: EntityMap)
    requires Comparable(s) && OrderFree(s, m)
    ensures LosersApart(s)
  {
    hide GroupOf, EventKey, CaseKey, Selected, Collapsed, ToFront, Top, Comparable, OrderFree;
    FreeTops(s, m);
    forall x, y | x in Collapsed(s) && y in Collapsed(s) && CaseKey(x) == CaseKey(y) && x != y
      ensures GroupOf(x) == GroupOf(y) && EventKey(x) != EventKey(y)
    {
      CollapsedIsInput(s, m, x);
      CollapsedIsInput(s, m, y);
      SameOutcome(s, ToFront(s, x), m);
      SameOutcome(s, ToFront(s, y), m);
      if GroupOf(x) != GroupOf(y) {
        LoserTieMatters(s, x, y);
      } else if EventKey(x) == EventKey(y) {
        RankTieMatters(s, x, y);
      }
    }
  }

  lemma CollapsedIsInput(s: seq<Scenario>, m: EntityMap, x: Scenario)
    requires x in Collapsed(s)
    ensures x in s
  {
    hide Selected, Collapsed;
    Conservation(s, m);
    assert x in multiset(Collapsed(s));
    assert x in multiset(s);
  }

  /** The order of the events is immaterial if and only if some sequence cannot be read, so that every order
      raises, or there is no tie of any kind: no group has two different events at its top, no two winners
      share a sort key, and different collapsed events of one case id are ranked apart in one group. */
  lemma OrderFreeExactly(s: seq<Scenario>, m: EntityMap)
    ensures OrderFree(s, m) <==>
      !Comparable(s) || (TopsApart(s) && InjectiveOn(Selected(s, m), ByBook(m)) && LosersApart(s))
  {
    hide Selected, Collapsed, ByBook, TopsApart, LosersApart, InjectiveOn;
    if Comparable(s) {
      if OrderFree(s, m) {
        FreeTops(s, m);
        FreeWinners(s, m);
        FreeLosers(s, m);
      } else if TopsApart(s) && InjectiveOn(Selected(s, m), ByBook(m)) && LosersApart(s) {
        ApartIsFree(s, m);
      }
    } else {
      forall t | multiset(t) == multiset(s) ensures FinalStateWins(t, m) == FinalStateWins(s, m) {
        ComparablePermute(s, t);
      }
    }
  }

  // ---- the smallest inputs on which the order matters ----

  lemma OneGroup(a: Scenario, b: Scenario)
    requires GroupOf(a) == GroupOf(b)
    ensures Groups([a, b]) == [GroupOf(b)]
  {
    hide GroupOf;
    assert Init([a, b]) == [a] && Init([a]) == [];
    assert Groups([a]) == [GroupOf(a)];
  }

  /** Two events of one group with the same rank: the second wins. */
  lemma LastOfTwoWins(a: Scenario, b: Scenario, m: EntityMap)
    requires GroupOf(a) == GroupOf(b) && EventKey(a) == EventKey(b)
    ensures Selected([a, b], m) == [b]
  {
    hide GroupOf, EventKey, Leq, Selected, ByBook, Wins, Groups, Winners;
    var s := [a, b];
    var w := WinnerOfGroup(s, m, b);
    Order(EventKey(b), EventKey(b), EventKey(b));
    LastInItsGroup(s, w, b);
    OneGroup(a, b);
    SelectedFacts(s, m);
    WinnersByGroup(s, Groups(s));
    assert |multiset(Selected(s, m))| == |multiset(Winners(s, Groups(s)))| == 1;
    assert |Selected(s, m)| == 1 && b in Selected(s, m);
  }

  /** Two assets alike in every sort field keep their input order. */
  lemma OrderMattersOnTies(a: Scenario, b: Scenario, m: EntityMap)
    requires GroupOf(a) != GroupOf(b) && ByBook(m)(a) == ByBook(m)(b)
    ensures Selected([a, b], m) == [a, b] && Selected([b, a], m) == [b, a]
  {
    hide GroupOf, ByBook, Selected;
    Order(ByBook(m)(a), ByBook(m)(a), ByBook(m)(a));
    SortOfSelected([a, b], m);
    SortOfSelected([b, a], m);
  }

  // ---- distinct case ids ----

  function CaseOf(s: Scenario): string {
    OrEmpty(s.caseId)
  }

  lemma CaseOfKeys(x: Scenario, y: Scenario)
    ensures EventKey(x) == EventKey(y) ==> CaseOf(x) == CaseOf(y)
    ensures CaseKey(x) == CaseKey(y) ==> CaseOf(x) == CaseOf(y)
  {
    assert EventKey(x) == EventKey(y) ==> EventKey(x).texts[1] == EventKey(y).texts[1];
    assert CaseKey(x) == CaseKey(y) ==> CaseKey(x).texts[0] == CaseKey(y).texts[0];
  }

  /** Reordering the input cannot change the outcome when case ids are distinct and no two winners
      share a sort key. */
  lemma OrderIndependent(s: seq<Scenario>, t: seq<Scenario>, m: EntityMap)
    requires multiset(s) == multiset(t)
    requires Distinct(s, CaseOf) && InjectiveOn(Selected(s, m), ByBook(m))
    ensures FinalStateWins(s, m) == FinalStateWins(t, m)
  {
    hide Selected, Collapsed, ByBook, CaseOf, EventKey, CaseKey, GroupOf, FinalStateWins, Top, InjectiveOn;
    forall x, y | x in s && y in s && CaseOf(x) == CaseOf(y) ensures x == y { DistinctDetermines(s, CaseOf, x, y); }
    forall x, y ensures EventKey(x) == EventKey(y) || CaseKey(x) == CaseKey(y) ==> CaseOf(x) == CaseOf(y) {
      CaseOfKeys(x, y);
    }
    forall x | x in Collapsed(s) ensures x in s { CollapsedIsInput(s, m, x); }
    ApartIsFree(s, m);
  }
}
