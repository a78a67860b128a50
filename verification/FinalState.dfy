/** Collapsing events to the final state of each group (`_apply_final_state_wins`). */
module FinalState {
  import opened Ordering
  import opened Scenarios
  import opened Text

  function GroupOf(s: Scenario): string {
    PyStr(Or(Or(s.eventGroup, s.source.assetNumber), s.caseId))
  }

  /** Events of one group compare by sequence, then transfer date, then case id. */
  function EventKey(s: Scenario): Key {
    Key(if s.sequence.Whole? then s.sequence.n else 0, [OrEmpty(s.dff.transferDate), OrEmpty(s.caseId)])
  }

  function ByBook(m: EntityMap): Scenario -> Key {
    (s: Scenario) => Key(0, [
      OrEmpty(s.source.bookTypeCode), OrEmpty(s.source.assetNumber), OrEmpty(s.dff.transferDate),
      OrEmpty(Or(s.dff.targetLocationId, s.dff.transferToLocation)), ResolvedTargetBook(s, m)])
  }

  function CaseKey(s: Scenario): Key {
    Key(0, [OrEmpty(s.caseId)])
  }

  /** The groups in order of first appearance, as a Python dict keeps them. */
  function Groups(s: seq<Scenario>): seq<string> {
    if s == [] then []
    else
      var g := Groups(Init(s));
      if GroupOf(Last(s)) in g then g else g + [GroupOf(Last(s))]
  }

  function Members(s: seq<Scenario>, g: string): seq<Scenario> {
    if s == [] then []
    else Members(Init(s), g) + (if GroupOf(Last(s)) == g then [Last(s)] else [])
  }

  /** The members of a group, ranked; the last one wins. */
  function Ranked(s: seq<Scenario>, g: string): (r: seq<Scenario>)
    ensures |r| == |Members(s, g)|
  {
    SortBySpec(Members(s, g), EventKey, Key(0, []));
    SortBy(Members(s, g), EventKey)
  }

  ghost predicate Inhabited(s: seq<Scenario>, gs: seq<string>) {
    forall g :: g in gs ==> Members(s, g) != []
  }

  function Winners(s: seq<Scenario>, gs: seq<string>): seq<Scenario>
    requires Inhabited(s, gs)
  {
    if gs == [] then [] else Winners(s, Init(gs)) + [Last(Ranked(s, Last(gs)))]
  }

  function Losers(s: seq<Scenario>, gs: seq<string>): seq<Scenario>
    requires Inhabited(s, gs)
  {
    if gs == [] then [] else Losers(s, Init(gs)) + Init(Ranked(s, Last(gs)))
  }

  function Selected(s: seq<Scenario>, m: EntityMap): seq<Scenario> {
    GroupsInhabited(s);
    SortBy(Winners(s, Groups(s)), ByBook(m))
  }

  function Collapsed(s: seq<Scenario>): seq<Scenario> {
    GroupsInhabited(s);
    SortBy(Losers(s, Groups(s)), CaseKey)
  }

  predicate Comparable(s: seq<Scenario>) {
    forall i :: 0 <= i < |s| ==> !s[i].sequence.Rejected?
  }

  /** `None` stands for the exception `int` raises on a sequence it rejects. */
  function FinalStateWins(s: seq<Scenario>, m: EntityMap): Option<(seq<Scenario>, seq<Scenario>)> {
    if Comparable(s) then Some((Selected(s, m), Collapsed(s))) else None
  }

  method GroupEvents(scenarios: seq<Scenario>) returns (order: seq<string>, grouped: map<string, seq<Scenario>>)
    ensures order == Groups(scenarios)
    ensures forall g :: g in grouped <==> g in order
    ensures forall g :: Members(scenarios, g) == if g in grouped then grouped[g] else []
  {
    hide GroupOf;
    order, grouped := [], map[];
    for i := 0 to |scenarios|
      invariant order == Groups(scenarios[..i])
      invariant forall g :: g in grouped <==> g in order
      invariant forall g :: Members(scenarios[..i], g) == if g in grouped then grouped[g] else []
    {
      var s := scenarios[i];
      assert Last(scenarios[..i + 1]) == s && Init(scenarios[..i + 1]) == scenarios[..i];
      var group := GroupOf(s);
      if group !in grouped {
        order := order + [group];
        grouped := grouped[group := []];
      }
      grouped := grouped[group := grouped[group] + [s]];
    }
    assert scenarios[..|scenarios|] == scenarios;
  }

  method ApplyFinalStateWins(scenarios: seq<Scenario>, m: EntityMap)
    returns (result: Option<(seq<Scenario>, seq<Scenario>)>)
    ensures result == FinalStateWins(scenarios, m)
    ensures result == None <==> exists x :: x in scenarios && x.sequence == Rejected
  {
    hide GroupOf, Members, Groups, ByBook, EventKey, CaseKey, SortBy;
    ComparableIs(scenarios);
    var order, grouped := GroupEvents(scenarios);
    GroupsInhabited(scenarios);
    var selected: seq<Scenario> := [];
    var collapsed: seq<Scenario> := [];
    for i := 0 to |order|
      invariant forall j :: 0 <= j < i ==> Comparable(grouped[order[j]])
      invariant selected == Winners(scenarios, order[..i]) && collapsed == Losers(scenarios, order[..i])
    {
      var items := grouped[order[i]];
      if !Comparable(items) {
        RejectedIsInput(scenarios, order[i]);
        return None;
      }
      var ranked := SortBy(items, EventKey);
      assert Last(order[..i + 1]) == order[i] && Init(order[..i + 1]) == order[..i];
      assert ranked == Ranked(scenarios, order[i]);
      selected := selected + [Last(ranked)];
      collapsed := collapsed + Init(ranked);
    }
    assert order[..|order|] == order;
    AllComparable(scenarios, order, grouped);
    result := Some((SortBy(selected, ByBook(m)), SortBy(collapsed, CaseKey)));
  }

  lemma ComparableIs(s: seq<Scenario>)
    ensures Comparable(s) <==> !exists x :: x in s && x.sequence == Rejected
  {
    if !Comparable(s) {
      var i :| 0 <= i < |s| && s[i].sequence.Rejected?;
      assert s[i] in s;
    }
  }

  lemma RejectedIsInput(s: seq<Scenario>, g: string)
    requires !Comparable(Members(s, g))
    ensures !Comparable(s)
  {
    hide GroupOf, Members;
    var j :| 0 <= j < |Members(s, g)| && Members(s, g)[j].sequence.Rejected?;
    MembersBelong(s, g, Members(s, g)[j]);
  }

  lemma AllComparable(s: seq<Scenario>, order: seq<string>, grouped: map<string, seq<Scenario>>)
    requires order == Groups(s) && forall g :: g in order ==> g in grouped && grouped[g] == Members(s, g)
    requires forall j :: 0 <= j < |order| ==> Comparable(grouped[order[j]])
    ensures Comparable(s)
  {
    hide GroupOf, Members, Groups;
    forall i | 0 <= i < |s| ensures !s[i].sequence.Rejected? {
      var g := GroupOf(s[i]);
      GroupsCover(s, s[i]);
      MembersBelong(s, g, s[i]);
      var j :| 0 <= j < |order| && order[j] == g;
      var p :| 0 <= p < |Members(s, g)| && Members(s, g)[p] == s[i];
      assert !grouped[order[j]][p].sequence.Rejected?;
    }
  }

  // ---- groups ----

  lemma MembersBelong(s: seq<Scenario>, g: string, x: Scenario)
    ensures x in Members(s, g) <==> x in s && GroupOf(x) == g
  {
    if s != [] {
      MembersBelong(Init(s), g, x);
      InitLast(s);
    }
  }

  lemma MembersCount(s: seq<Scenario>, g: string, x: Scenario)
    ensures multiset(Members(s, g))[x] == if GroupOf(x) == g then multiset(s)[x] else 0
  {
    if s != [] {
      MembersCount(Init(s), g, x);
      InitLast(s);
    }
  }

  lemma GroupsCover(s: seq<Scenario>, x: Scenario)
    requires x in s
    ensures GroupOf(x) in Groups(s)
  {
    if x != Last(s) {
      InitLast(s);
      assert x in Init(s);
    }
  }

  lemma GroupsInhabited(s: seq<Scenario>)
    ensures Inhabited(s, Groups(s))
    ensures forall i, j :: 0 <= i < j < |Groups(s)| ==> Groups(s)[i] != Groups(s)[j]
  {
  }

  /** Winners and losers of the groups `gs` together are the events of those groups. */
  lemma {:induction false} GroupsCount(s: seq<Scenario>, gs: seq<string>, x: Scenario)
    requires Inhabited(s, gs) && forall i, j :: 0 <= i < j < |gs| ==> gs[i] != gs[j]
    ensures multiset(Winners(s, gs))[x] + multiset(Losers(s, gs))[x]
         == if GroupOf(x) in gs then multiset(s)[x] else 0
  {
    if gs != [] {
      var g := Last(gs);
      GroupsCount(s, Init(gs), x);
      InitLast(gs);
      MembersCount(s, g, x);
      SortBySpec(Members(s, g), EventKey, Key(0, []));
      InitLast(Ranked(s, g));
      assert forall i :: 0 <= i < |Init(gs)| ==> Init(gs)[i] == gs[i] && gs[i] != gs[|gs| - 1];
    }
  }

  /** Nothing is lost and nothing appears: the two lists together are the input. */
  lemma Conservation(s: seq<Scenario>, m: EntityMap)
    ensures multiset(Selected(s, m)) + multiset(Collapsed(s)) == multiset(s)
  {
    GroupsInhabited(s);
    SortBySpec(Winners(s, Groups(s)), ByBook(m), Key(0, []));
    SortBySpec(Losers(s, Groups(s)), CaseKey, Key(0, []));
    forall x: Scenario
      ensures multiset(Winners(s, Groups(s)))[x] + multiset(Losers(s, Groups(s)))[x] == multiset(s)[x]
    {
      GroupsCount(s, Groups(s), x);
      if x in s { GroupsCover(s, x); }
    }
  }

  // ---- winners ----

  /** `w` is the greatest event of its group in `s`, and the last of those that tie. */
  ghost predicate Wins(s: seq<Scenario>, w: Scenario) {
    var all := Members(s, GroupOf(w));
    exists i :: 0 <= i < |all| && all[i] == w &&
      forall j :: 0 <= j < |all| ==>
        Leq(EventKey(all[j]), EventKey(w)) && (i < j ==> EventKey(all[j]) != EventKey(w))
  }

  lemma LastOfClass<T>(s: seq<T>, k: Key, key: T -> Key) returns (i: nat)
    requires With(s, k, key) != []
    ensures i < |s| && s[i] == Last(With(s, k, key)) && key(s[i]) == k
    ensures forall j :: i < j < |s| ==> key(s[j]) != k
  {
    if key(Last(s)) == k {
      i := |s| - 1;
    } else {
      i := LastOfClass(Init(s), k, key);
    }
  }

  lemma RankedLastWins(s: seq<Scenario>, g: string)
    requires Members(s, g) != []
    ensures var w := Last(Ranked(s, g)); w in s && GroupOf(w) == g && Wins(s, w)
  {
    var all := Members(s, g);
    var w := Last(Ranked(s, g));
    SortBySpec(all, EventKey, EventKey(w));
    assert w in multiset(Ranked(s, g));
    MembersBelong(s, g, w);
    LastCarriesItsKey(Ranked(s, g), EventKey);
    var i := LastOfClass(all, EventKey(w), EventKey);
    forall j | 0 <= j < |all| ensures Leq(EventKey(all[j]), EventKey(w)) {
      assert all[j] in multiset(all);
      LastIsGreatest(Ranked(s, g), EventKey, all[j]);
    }
  }

  lemma {:induction false} WinnersByGroup(s: seq<Scenario>, gs: seq<string>)
    requires Inhabited(s, gs)
    ensures |Winners(s, gs)| == |gs|
    ensures forall i :: 0 <= i < |gs| ==>
      var w := Winners(s, gs)[i]; w in s && GroupOf(w) == gs[i] && Wins(s, w)
  {
    hide GroupOf, Wins, Members, Ranked;
    if gs != [] {
      WinnersByGroup(s, Init(gs));
      RankedLastWins(s, Last(gs));
      forall i | 0 <= i < |gs| - 1 ensures Winners(s, gs)[i] == Winners(s, Init(gs))[i] && Init(gs)[i] == gs[i] {}
    }
  }

  /** The facts about `Selected` that the results below use. */
  lemma SelectedFacts(s: seq<Scenario>, m: EntityMap)
    ensures Inhabited(s, Groups(s)) && Sorted(Selected(s, m), ByBook(m))
    ensures multiset(Selected(s, m)) == multiset(Winners(s, Groups(s)))
    ensures Distinct(Groups(s), (g: string) => g)
  {
    GroupsInhabited(s);
    SortBySpec(Winners(s, Groups(s)), ByBook(m), Key(0, []));
  }

  /** Exactly one event of every group is selected, and it is the one that wins its group. */
  lemma OneWinnerPerGroup(s: seq<Scenario>, m: EntityMap)
    ensures Distinct(Selected(s, m), GroupOf)
    ensures forall w :: w in Selected(s, m) ==> w in s && Wins(s, w)
    ensures forall x :: x in s ==> exists w :: w in Selected(s, m) && GroupOf(w) == GroupOf(x)
  {
    hide GroupOf, Wins, Members, Selected, Winners, Groups, ByBook, Inhabited, Sorted, Distinct;
    SelectedFacts(s, m);
    WinnersByGroup(s, Groups(s));
    WinnersDistinct(s);
    DistinctPermute(Winners(s, Groups(s)), Selected(s, m), GroupOf);
    forall w | w in Selected(s, m) ensures w in s && Wins(s, w) {
      assert w in multiset(Winners(s, Groups(s)));
    }
    forall x | x in s ensures exists w :: w in Selected(s, m) && GroupOf(w) == GroupOf(x) {
      var w := WinnerOf(s, x);
      assert w in multiset(Selected(s, m));
    }
  }

  lemma WinnersDistinct(s: seq<Scenario>)
    requires Inhabited(s, Groups(s)) && Distinct(Groups(s), (g: string) => g)
    ensures Distinct(Winners(s, Groups(s)), GroupOf)
  {
    hide GroupOf, Wins, Members, Winners, Groups, Inhabited;
    var ws := Winners(s, Groups(s));
    WinnersByGroup(s, Groups(s));
    forall i, j | 0 <= i < j < |ws| ensures GroupOf(ws[i]) != GroupOf(ws[j]) {
      assert Groups(s)[i] != Groups(s)[j];
    }
  }

  lemma WinnerOf(s: seq<Scenario>, x: Scenario) returns (w: Scenario)
    requires Inhabited(s, Groups(s)) && x in s
    ensures w in Winners(s, Groups(s)) && GroupOf(w) == GroupOf(x)
  {
    hide GroupOf, Wins, Members, Winners, Groups, Inhabited;
    WinnersByGroup(s, Groups(s));
    GroupsCover(s, x);
    var i :| 0 <= i < |Groups(s)| && Groups(s)[i] == GroupOf(x);
    w := Winners(s, Groups(s))[i];
  }

  // ---- re-running the policy ----

  lemma {:induction false} MembersAbsent(s: seq<Scenario>, g: string)
    requires forall i :: 0 <= i < |s| ==> GroupOf(s[i]) != g
    ensures Members(s, g) == [] && g !in Groups(s)
  {
    hide GroupOf;
    if s != [] { MembersAbsent(Init(s), g); }
  }

  lemma {:induction false} SingletonGroups(s: seq<Scenario>, i: nat)
    requires Distinct(s, GroupOf) && i < |s|
    ensures |Groups(s)| == |s|
    ensures Groups(s)[i] == GroupOf(s[i]) && Members(s, GroupOf(s[i])) == [s[i]]
  {
    hide GroupOf;
    var t := Init(s);
    assert forall j :: 0 <= j < |t| ==> t[j] == s[j] && GroupOf(s[j]) != GroupOf(s[|s| - 1]);
    MembersAbsent(t, GroupOf(Last(s)));
    if t != [] { SingletonGroups(t, if i < |t| then i else 0); }
  }

  lemma {:induction false} SingletonWinners(s: seq<Scenario>, n: nat)
    requires Distinct(s, GroupOf) && n <= |s| == |Groups(s)|
    requires forall i :: 0 <= i < |s| ==> Groups(s)[i] == GroupOf(s[i]) && Members(s, Groups(s)[i]) == [s[i]]
    ensures Inhabited(s, Groups(s)[..n])
    ensures Winners(s, Groups(s)[..n]) == s[..n] && Losers(s, Groups(s)[..n]) == []
  {
    hide GroupOf, Members, Groups;
    if n > 0 {
      SingletonWinners(s, n - 1);
      var gs := Groups(s)[..n];
      assert Init(gs) == Groups(s)[..n - 1] && Last(gs) == Groups(s)[n - 1];
      SortOne(s[n - 1], EventKey);
      assert Ranked(s, Last(gs)) == SortBy([s[n - 1]], EventKey);
      assert s[..n] == s[..n - 1] + [s[n - 1]];
    }
  }

  lemma SortOfSelected(t: seq<Scenario>, m: EntityMap)
    requires Distinct(t, GroupOf) && Sorted(t, ByBook(m))
    ensures Selected(t, m) == t && Collapsed(t) == []
  {
    hide GroupOf, ByBook, Groups, Winners, Losers, Members, CaseKey;
    if t == [] {
      NoGroups();
    } else {
      forall i | 0 <= i < |t|
        ensures |Groups(t)| == |t| && Groups(t)[i] == GroupOf(t[i]) && Members(t, Groups(t)[i]) == [t[i]]
      {
        SingletonGroups(t, i);
      }
      SingletonGroups(t, 0);
      SingletonWinners(t, |t|);
      assert Groups(t)[..|t|] == Groups(t) && t[..|t|] == t;
      SortOfSorted(t, ByBook(m));
    }
  }

  lemma NoGroups()
    ensures Winners([], Groups([])) == [] && Losers([], Groups([])) == []
  {
  }

  lemma SelectedComparable(s: seq<Scenario>, m: EntityMap)
    requires Comparable(s)
    ensures Comparable(Selected(s, m))
  {
    hide GroupOf, Selected, Wins, Distinct;
    OneWinnerPerGroup(s, m);
    forall i | 0 <= i < |Selected(s, m)| ensures !Selected(s, m)[i].sequence.Rejected? {
      assert Selected(s, m)[i] in s;
    }
  }

  lemma WinsOf(s: seq<Scenario>, m: EntityMap)
    requires Comparable(s)
    ensures FinalStateWins(s, m) == Some((Selected(s, m), Collapsed(s)))
  {
  }

  /** Applying the policy to what it selected changes nothing. */
  lemma Idempotent(s: seq<Scenario>, m: EntityMap)
    requires Comparable(s)
    ensures FinalStateWins(Selected(s, m), m) == Some((Selected(s, m), []))
  {
    hide GroupOf, ByBook, Selected, Collapsed, FinalStateWins, Comparable, Distinct, Sorted, Wins, Inhabited;
    OneWinnerPerGroup(s, m);
    SelectedFacts(s, m);
    SelectedComparable(s, m);
    SortOfSelected(Selected(s, m), m);
    WinsOf(Selected(s, m), m);
  }
}
