/** Scoped reads and context switches in runs in which waits may expire: which answers keep the arrival
    order, and a run in which one does not. */
module ContextExpiry {
  import opened ContextGate
  import opened ContextSwitch
  import opened Text

  /** The switch with ticket `w` belongs to `user` and has committed. */
  predicate Landed(s: Sys, user: string, w: nat) {
    w in s.commits && s.commits[w].user == user
  }

  /** What the last commit of `user` to land chose. */
  function LastChoice(s: Sys, user: string): Option<Selection> {
    if user in s.latest && s.latest[user] in s.commits then Some(s.commits[s.latest[user]].selection) else None
  }

  /** Of the commits of `user` that landed, `w` arrived last. */
  ghost predicate Newest(s: Sys, user: string, w: nat) {
    Landed(s, user, w) && forall v: nat :: Landed(s, user, v) ==> v <= w
  }

  /** Up to now the commits of `user` look, from ticket `t`, as if made in order of arrival: none arrived at
      `t` or later, and the last to land chose what the last to arrive chose. */
  ghost predicate InTurnSoFar(s: Sys, user: string, t: nat) {
    && (forall w: nat :: Landed(s, user, w) ==> w < t)
    && (forall w: nat :: Newest(s, user, w) ==> LastChoice(s, user) == Some(s.commits[w].selection))
  }

  /** No switch of `user` that arrived before `t` can still commit. */
  ghost predicate Done(s: Sys, user: string, t: nat) {
    forall w :: w in s.gate.writers && w < t && s.gate.writers[w] == user ==> w in s.commits
  }

  ghost predicate InTurn(s: Sys, user: string, t: nat) {
    InTurnSoFar(s, user, t) && Done(s, user, t)
  }

  // ---- what the stored context is, whatever the order of the commits ----

  /** A context counts its user's commits and holds what the last of them chose. */
  ghost predicate Counted(s: Sys, user: string) {
    && ContextOf(s, user).generation == SerialContext(s.commits, user, s.gate.seqNo + 1).generation
    && (user in s.latest ==>
        Landed(s, user, s.latest[user]) && LastChoice(s, user) == Some(ContextOf(s, user).selection))
    && (user !in s.latest ==> ContextOf(s, user) == Unselected)
    && (user !in s.latest ==> forall w: nat :: !Landed(s, user, w))
  }

  lemma {:induction false} OneMoreCommit(commits: map<nat, Switch>, w: nat, x: Switch, user: string, t: nat)
    requires w !in commits
    ensures SerialContext(commits[w := x], user, t).generation
      == SerialContext(commits, user, t).generation + (if w < t && x.user == user then 1 else 0)
  {
    if t > 0 { OneMoreCommit(commits, w, x, user, t - 1); }
  }

  lemma CountedKept(s: Sys, a: Step, epoch: (string, Context) -> string, user: string)
    requires Tidy(s) && Enabled(s, a) && Counted(s, user)
    ensures Counted(Apply(s, a, epoch), user)
  {
    hide SerialContext, GateAfter, PhasesAfter, EnteredAfter, AnswersAfter, PagesAfter, TidyPhases, TidyAnswers;
    var s' := Apply(s, a, epoch);
    SeqNoGrows(s, a, epoch);
    SerialSkips(s.commits, user, s.gate.seqNo + 1, s'.gate.seqNo + 1);
    if a.Commit? {
      OneMoreCommit(s.commits, a.w, Switch(s.gate.writers[a.w], a.selection), user, s'.gate.seqNo + 1);
      if s.gate.writers[a.w] != user {
        assert user in s'.contexts <==> user in s.contexts;
        assert forall w: nat :: Landed(s', user, w) <==> Landed(s, user, w);
      } else {
        assert Landed(s', user, a.w) && s'.latest[user] == a.w;
      }
    } else {
      assert s'.contexts == s.contexts && s'.commits == s.commits && s'.latest == s.latest;
      assert forall w: nat :: Landed(s', user, w) <==> Landed(s, user, w);
    }
  }

  lemma SeqNoGrows(s: Sys, a: Step, epoch: (string, Context) -> string)
    requires Enabled(s, a)
    ensures s.gate.seqNo <= Apply(s, a, epoch).gate.seqNo
  {
    hide Blockers, PhasesAfter, EnteredAfter, ContextsAfter, CommitsAfter, LatestAfter, AnswersAfter, PagesAfter;
  }

  lemma {:induction false} RunsCount(run: seq<Step>, epoch: (string, Context) -> string, user: string)
    ensures Counted(Execute(run, epoch), user)
  {
    hide Apply, Enabled, Counted, Tidy;
    if run == [] {
      StartCounts(user);
    } else {
      RunsTidy(run[..|run| - 1], epoch);
      RunsCount(run[..|run| - 1], epoch, user);
      if Enabled(Execute(run[..|run| - 1], epoch), run[|run| - 1]) {
        CountedKept(Execute(run[..|run| - 1], epoch), run[|run| - 1], epoch, user);
      }
    }
  }

  lemma RunsTidy(run: seq<Step>, epoch: (string, Context) -> string)
    ensures Tidy(Execute(run, epoch))
  {
    hide Tidy, Execute;
    RunsAreTidy(run, epoch);
  }

  lemma StartCounts(user: string)
    ensures Counted(Start, user)
  {
    assert SerialContext(map[], user, 1) == SerialContext(map[], user, 0);
  }

  // ---- the exact condition for one look at the context ----

  /** Between two tickets the serial context changes exactly when a commit of the user lies between. */
  lemma {:induction false} SerialGrows(commits: map<nat, Switch>, user: string, t: nat, t': nat)
    requires t <= t'
    ensures SerialContext(commits, user, t).generation <= SerialContext(commits, user, t').generation
    ensures SerialContext(commits, user, t).generation == SerialContext(commits, user, t').generation <==>
      (forall w :: w in commits && t <= w < t' ==> commits[w].user != user)
  {
    if t < t' { SerialGrows(commits, user, t, t' - 1); }
  }

  /** The last commit of the user before a ticket, if there is one, chose the serial selection there. */
  lemma {:induction false} SerialLast(commits: map<nat, Switch>, user: string, t: nat) returns (w: int)
    ensures -1 <= w < t && forall v :: w < v < t && v in commits ==> commits[v].user != user
    ensures w >= 0 ==> w in commits && commits[w].user == user
    ensures w >= 0 ==> SerialContext(commits, user, t).selection == commits[w].selection
    ensures w < 0 ==> SerialContext(commits, user, t) == Unselected
  {
    if t == 0 {
      w := -1;
    } else if t - 1 in commits && commits[t - 1].user == user {
      w := t - 1;
    } else {
      w := SerialLast(commits, user, t - 1);
    }
  }

  /** In every run, at every moment: a user's context is the one that serial order gives at a ticket if and
      only if the user's commits so far look, from that ticket, as if made in order of arrival. */
  lemma SeenInOrderExactly(run: seq<Step>, epoch: (string, Context) -> string, user: string, t: nat)
    requires t <= Execute(run, epoch).gate.seqNo
    ensures var s := Execute(run, epoch);
      ContextOf(s, user) == SerialContext(s.commits, user, t) <==> InTurnSoFar(s, user, t)
  {
    hide Execute, Tidy;
    RunsTidy(run, epoch);
    RunsCount(run, epoch, user);
    InTurnByCount(Execute(run, epoch), user, t);
  }

  lemma InTurnByCount(s: Sys, user: string, t: nat)
    requires Tidy(s) && Counted(s, user) && t <= s.gate.seqNo
    ensures ContextOf(s, user) == SerialContext(s.commits, user, t) <==> InTurnSoFar(s, user, t)
  {
    hide SerialContext, ContextOf, TidyPhases, TidyAnswers, LastChoice;
    SerialGrows(s.commits, user, t, s.gate.seqNo + 1);
    if forall w: nat :: Landed(s, user, w) ==> w < t {
      var w := SerialLast(s.commits, user, t);
      assert forall v :: v in s.commits && t <= v < s.gate.seqNo + 1 ==> !Landed(s, user, v);
      if w >= 0 {
        assert Landed(s, user, w) && Newest(s, user, w);
      } else {
        assert forall v: nat :: !Landed(s, user, v);
      }
    } else {
      var w: nat :| Landed(s, user, w) && t <= w;
      assert w in s.commits && t <= w < s.gate.seqNo + 1;
    }
  }

  // ---- every answer, in every run ----

  /** A step at which the read `r` looks at its user's context. */
  predicate Looks(s: Sys, a: Step, r: nat) {
    Enabled(s, a) && (a.Compare? || a.Produce?) && a.r == r
  }

  /** Whenever the read looked, its user's switches were in turn. */
  ghost predicate LookedInTurn(run: seq<Step>, epoch: (string, Context) -> string, r: nat) {
    forall k :: 0 <= k < |run| && Looks(Execute(run[..k], epoch), run[k], r) ==>
      r in Execute(run[..k], epoch).phases &&
      InTurn(Execute(run[..k], epoch), PhaseUser(Execute(run[..k], epoch).phases[r]), r)
  }

  /** What the read was told, or has passed, is what the serial order gives, and nothing can change that. */
  ghost predicate ToldInOrder(s: Sys, epoch: (string, Context) -> string, r: nat) {
    && (r in s.answers ==>
        var q := s.answers[r].request;
        Done(s, q.user, r) &&
        s.answers[r].status == Judge(q.season, q.echo, q.user, SerialContext(s.commits, q.user, r), epoch))
    && (r in s.phases && s.phases[r].Compared? ==>
        var q := s.phases[r].request;
        Done(s, q.user, r) &&
        EpochVerdict(q.echo, epoch(q.user, SerialContext(s.commits, q.user, r))) != Mismatch)
  }

  lemma LooksAtPhase(s: Sys, a: Step, r: nat)
    requires Looks(s, a, r)
    ensures r in s.phases
  {
  }

  lemma DoneStays(s: Sys, a: Step, epoch: (string, Context) -> string, user: string, t: nat)
    requires Tidy(s) && Enabled(s, a) && Done(s, user, t) && t <= s.gate.seqNo
    ensures Done(Apply(s, a, epoch), user, t)
    ensures SerialContext(Apply(s, a, epoch).commits, user, t) == SerialContext(s.commits, user, t)
  {
    hide Blockers, SerialContext, PhasesAfter, EnteredAfter, ContextsAfter, LatestAfter, AnswersAfter, PagesAfter;
    hide TidyPhases, TidyAnswers;
    if a.Commit? {
      SerialIgnores(s.commits, a.w, Switch(s.gate.writers[a.w], a.selection), user, t);
    }
  }

  /** A step that is not a look of the read leaves its answer and its comparison as they were. */
  lemma NotLooking(s: Sys, a: Step, epoch: (string, Context) -> string, r: nat)
    requires Enabled(s, a) && !Looks(s, a, r)
    ensures var s' := Apply(s, a, epoch);
      && (r in s'.answers <==> r in s.answers) && (r in s.answers ==> s'.answers[r] == s.answers[r])
      && (r in s'.phases && s'.phases[r].Compared? ==> r in s.phases && s'.phases[r] == s.phases[r])
  {
    hide Discards, GateAfter, EnteredAfter, ContextsAfter, CommitsAfter, LatestAfter, PagesAfter, ContextOf, Ceiling;
  }

  lemma LookTells(s: Sys, a: Step, epoch: (string, Context) -> string, r: nat)
    requires Tidy(s) && Looks(s, a, r) && Counted(s, PhaseUser(s.phases[r])) && ToldInOrder(s, epoch, r)
    requires InTurn(s, PhaseUser(s.phases[r]), r)
    ensures ToldInOrder(Apply(s, a, epoch), epoch, r)
  {
    hide SerialContext, ContextOf, EpochVerdict, Ceiling, InTurnSoFar, Counted, TidySwitches, TidyAnswers;
    hide EnteredAfter, ContextsAfter, LatestAfter, PagesAfter;
    var user := PhaseUser(s.phases[r]);
    InTurnByCount(s, user, r);
  }

  lemma ToldStays(s: Sys, a: Step, epoch: (string, Context) -> string, r: nat)
    requires Tidy(s) && Enabled(s, a) && !Looks(s, a, r) && ToldInOrder(s, epoch, r)
    ensures ToldInOrder(Apply(s, a, epoch), epoch, r)
  {
    hide Apply, Done, SerialContext, Judge, EpochVerdict, TidySwitches;
    NotLooking(s, a, epoch, r);
    if r in s.answers { DoneStays(s, a, epoch, s.answers[r].request.user, r); }
    if r in s.phases && s.phases[r].Compared? { DoneStays(s, a, epoch, s.phases[r].request.user, r); }
  }

  lemma {:induction false} RunsTellInOrder(run: seq<Step>, epoch: (string, Context) -> string, r: nat)
    requires LookedInTurn(run, epoch, r)
    ensures ToldInOrder(Execute(run, epoch), epoch, r)
  {
    hide Apply, Enabled, ToldInOrder, Tidy, Counted, InTurn;
    if run == [] {
      NobodyTold(epoch, r);
    } else {
      var front, n := run[..|run| - 1], |run| - 1;
      assert forall k :: 0 <= k < n ==> front[..k] == run[..k] && front[k] == run[k];
      var s := Execute(front, epoch);
      RunsTellInOrder(front, epoch, r);
      RunsTidy(front, epoch);
      if Looks(s, run[n], r) {
        LooksAtPhase(s, run[n], r);
        RunsCount(front, epoch, PhaseUser(s.phases[r]));
        LookTells(s, run[n], epoch, r);
      } else if Enabled(s, run[n]) {
        ToldStays(s, run[n], epoch, r);
      }
    }
  }

  lemma NobodyTold(epoch: (string, Context) -> string, r: nat)
    ensures ToldInOrder(Start, epoch, r)
  {
  }

  /** In every run, expired waits or not, a read whose user's switches were in turn whenever it looked is
      answered as if reads and switches had run one at a time in order of arrival. */
  lemma AnsweredInTurn(run: seq<Step>, epoch: (string, Context) -> string, r: nat)
    requires LookedInTurn(run, epoch, r) && r in Execute(run, epoch).answers
    ensures var s := Execute(run, epoch);
      var q := s.answers[r].request;
      s.answers[r].status == Judge(q.season, q.echo, q.user, SerialContext(s.commits, q.user, r), epoch)
  {
    hide Execute, LookedInTurn, SerialContext, Judge;
    RunsTellInOrder(run, epoch, r);
  }

  // ---- runs without an expired wait ----

  lemma {:induction false} PrefixExpiries(run: seq<Step>, epoch: (string, Context) -> string, k: nat)
    requires k <= |run|
    ensures Execute(run[..k], epoch).gate.timeouts <= Execute(run, epoch).gate.timeouts
  {
    hide Apply, Enabled;
    if k == |run| {
      assert run[..k] == run;
    } else {
      var front := run[..|run| - 1];
      assert front[..k] == run[..k];
      PrefixExpiries(front, epoch, k);
      if Enabled(Execute(front, epoch), run[|run| - 1]) {
        ExpiriesOnlyGrow(Execute(front, epoch), run[|run| - 1], epoch);
      }
    }
  }

  /** Where no wait expired every read looks in turn. */
  lemma NoExpiryNoOvertaking(run: seq<Step>, epoch: (string, Context) -> string, r: nat)
    requires Execute(run, epoch).gate.timeouts == 0
    ensures LookedInTurn(run, epoch, r)
  {
    hide Execute, Looks, InTurn, Tidy, Ordered, Counted;
    forall k | 0 <= k < |run| && Looks(Execute(run[..k], epoch), run[k], r)
      ensures r in Execute(run[..k], epoch).phases
      ensures InTurn(Execute(run[..k], epoch), PhaseUser(Execute(run[..k], epoch).phases[r]), r)
    {
      var s := Execute(run[..k], epoch);
      PrefixExpiries(run, epoch, k);
      LooksAtPhase(s, run[k], r);
      RunsAreOrdered(run[..k], epoch);
      RunsTidy(run[..k], epoch);
      RunsCount(run[..k], epoch, PhaseUser(s.phases[r]));
      OrderedLooksInTurn(s, run[k], epoch, r);
    }
  }

  lemma OrderedLooksInTurn(s: Sys, a: Step, epoch: (string, Context) -> string, r: nat)
    requires Tidy(s) && Ordered(s, epoch) && Looks(s, a, r)
    requires r in s.phases && Counted(s, PhaseUser(s.phases[r]))
    ensures InTurn(s, PhaseUser(s.phases[r]), r)
  {
    hide SerialContext, ContextOf, InTurnSoFar, Counted, SwitchesAlone, CommitsInOrder, ContextsSerial;
    hide AnswersSerial, ComparisonsSerial, TidySwitches, TidyAnswers;
    var user := PhaseUser(s.phases[r]);
    assert Settled(s, user, r);
    SettledSees(s, r, user);
    InTurnByCount(s, user, r);
  }

  // ---- a run out of order ----

  lemma Advanced(run: seq<Step>, i: nat, epoch: (string, Context) -> string)
    requires i < |run| && Enabled(Execute(run[..i], epoch), run[i])
    ensures Execute(run[..i + 1], epoch) == Apply(Execute(run[..i], epoch), run[i], epoch)
  {
    hide Apply, Enabled;
    assert run[..i + 1][..i] == run[..i];
  }

  ghost predicate Quiet(s: Sys) {
    s.gate.readers == map[] && s.gate.writers == map[] && s.entered == {}
  }

  lemma NobodyBlocks(g: Gate, ticket: nat)
    requires g.readers.Keys + g.writers.Keys <= {ticket}
    ensures Blockers(g, ticket) == {}
  {
    assert forall x :: x in g.readers || x in g.writers ==> x in g.readers.Keys + g.writers.Keys;
  }

  function SwitchSteps(w: nat, user: string, selection: Selection): seq<Step> {
    [Register(user), EnterSwitch(w), Commit(w, selection), LeaveSwitch(w)]
  }

  function Switched(s: Sys, user: string, selection: Selection): Sys {
    var w := s.gate.seqNo + 1;
    s.(gate := s.gate.(seqNo := w),
       contexts := s.contexts[user := Context(ContextOf(s, user).generation + 1, selection)],
       commits := s.commits[w := Switch(user, selection)], latest := s.latest[user := w])
  }

  lemma SwitchEnters(s: Sys, user: string, epoch: (string, Context) -> string)
    requires Quiet(s) && user != ""
    ensures var w := s.gate.seqNo + 1;
      var t := Apply(s, Register(user), epoch);
      Enabled(t, EnterSwitch(w)) &&
      Apply(t, EnterSwitch(w), epoch) == s.(gate := Registered(s.gate, user), entered := {w})
  {
    hide Blockers;
    NobodyBlocks(Registered(s.gate, user), s.gate.seqNo + 1);
  }

  lemma SwitchCommits(s: Sys, user: string, selection: Selection, epoch: (string, Context) -> string)
    requires Quiet(s) && s.gate.seqNo + 1 !in s.commits
    ensures var w := s.gate.seqNo + 1;
      var t := s.(gate := Registered(s.gate, user), entered := {w});
      Enabled(t, Commit(w, selection)) && Enabled(Apply(t, Commit(w, selection), epoch), LeaveSwitch(w)) &&
      Apply(Apply(t, Commit(w, selection), epoch), LeaveSwitch(w), epoch) == Switched(s, user, selection)
    ensures Quiet(Switched(s, user, selection))
  {
    hide Blockers;
    var w := s.gate.seqNo + 1;
    var t := s.(gate := Registered(s.gate, user), entered := {w});
    assert ContextOf(t, user) == ContextOf(s, user);
    assert t.gate.writers == map[w := user] && t.gate.writers - {w} == map[] && t.entered - {w} == {};
  }

  /** A switch with nobody else inside commits and leaves. */
  lemma LoneSwitch(run: seq<Step>, i: nat, user: string, selection: Selection, epoch: (string, Context) -> string)
    requires i + 4 <= |run| && Quiet(Execute(run[..i], epoch)) && user != ""
    requires Execute(run[..i], epoch).gate.seqNo + 1 !in Execute(run[..i], epoch).commits
    requires run[i..i + 4] == SwitchSteps(Execute(run[..i], epoch).gate.seqNo + 1, user, selection)
    ensures Execute(run[..i + 4], epoch) == Switched(Execute(run[..i], epoch), user, selection)
    ensures Quiet(Execute(run[..i + 4], epoch))
  {
    hide Execute, Apply, Quiet, Switched;
    var s := Execute(run[..i], epoch);
    var four := run[i..i + 4];
    assert run[i] == four[0] && run[i + 1] == four[1] && run[i + 2] == four[2] && run[i + 3] == four[3];
    SwitchEnters(s, user, epoch);
    SwitchCommits(s, user, selection, epoch);
    Advanced(run, i, epoch);
    Advanced(run, i + 1, epoch);
    Advanced(run, i + 2, epoch);
    Advanced(run, i + 3, epoch);
  }

  function ReadSteps(r: nat, user: string): seq<Step> {
    [Arrive, Identify(r, user), EnterRead(r)]
  }

  function WithRead(s: Sys, user: string): Sys {
    var r := s.gate.seqNo + 1;
    s.(gate := s.gate.(seqNo := r, readers := map[r := Some(user)]), phases := s.phases[r := Inside(user)])
  }

  /** A read with nobody else inside arrives and enters. */
  lemma LoneRead(run: seq<Step>, i: nat, user: string, epoch: (string, Context) -> string)
    requires i + 3 <= |run| && Quiet(Execute(run[..i], epoch)) && user != ""
    requires run[i..i + 3] == ReadSteps(Execute(run[..i], epoch).gate.seqNo + 1, user)
    ensures Execute(run[..i + 3], epoch) == WithRead(Execute(run[..i], epoch), user)
  {
    hide Execute, Blockers;
    var s := Execute(run[..i], epoch);
    var r := s.gate.seqNo + 1;
    var three := run[i..i + 3];
    assert run[i] == three[0] && run[i + 1] == three[1] && run[i + 2] == three[2];
    Advanced(run, i, epoch);
    Advanced(run, i + 1, epoch);
    var s2 := Execute(run[..i + 2], epoch);
    assert s2.gate.readers == map[r := Some(user)];
    NobodyBlocks(s2.gate, r);
    Advanced(run, i + 2, epoch);
  }

  lemma StartsThere(epoch: (string, Context) -> string)
    ensures Execute([], epoch) == Start && Quiet(Start)
  {
  }

  const First := Selection("p", "s1")
  const Second := Selection("p", "s2")

  const AfterFirst := Sys(Gate(1, map[], map[], 0), map[], {}, map["u" := Context(1, First)],
                          map[1 := Switch("u", First)], map["u" := 1], map[], map[])

  lemma FirstSwitchDone(run: seq<Step>, epoch: (string, Context) -> string)
    requires SwitchSteps(1, "u", First) <= run
    ensures Execute(run[..4], epoch) == AfterFirst && Quiet(AfterFirst)
  {
    hide Execute, SwitchSteps;
    StartsThere(epoch);
    assert run[..0] == [];
    assert |SwitchSteps(1, "u", First)| == 4 by { FourSteps(1, "u", First); }
    LoneSwitch(run, 0, "u", First, epoch);
  }

  lemma FourSteps(w: nat, user: string, selection: Selection)
    ensures |SwitchSteps(w, user, selection)| == 4
  {
  }

  /** With the first Season selected, a read naming it arrives and enters; a second switch gives up waiting
      for it and commits before it looks. */
  const Overtaking := SwitchSteps(1, "u", First) + ReadSteps(2, "u") +
    [Register("u"), EnterSwitch(3), Commit(3, Second), Compare(2, "s1", None), Produce(2)]

  lemma OvertakingWaits(epoch: (string, Context) -> string)
    ensures Execute(Overtaking[..8], epoch) ==
      AfterFirst.(gate := Gate(3, map[2 := Some("u")], map[3 := "u"], 0), phases := map[2 := Inside("u")])
  {
    hide Execute;
    FirstSwitchDone(Overtaking, epoch);
    assert Overtaking[4..7] == ReadSteps(2, "u");
    LoneRead(Overtaking, 4, "u", epoch);
    assert Overtaking[7] == Register("u");
    Advanced(Overtaking, 7, epoch);
  }

  lemma OvertakingCommits(epoch: (string, Context) -> string)
    ensures var s := Execute(Overtaking[..10], epoch);
      && s.gate.timeouts == 1 && s.phases == map[2 := Inside("u")] && s.answers == map[]
      && s.contexts == map["u" := Context(2, Second)]
      && s.commits == map[1 := Switch("u", First), 3 := Switch("u", Second)]
  {
    hide Execute;
    OvertakingWaits(epoch);
    assert 2 in Blockers(Execute(Overtaking[..8], epoch).gate, 3);
    assert Overtaking[8] == EnterSwitch(3) && Overtaking[9] == Commit(3, Second);
    Advanced(Overtaking, 8, epoch);
    Advanced(Overtaking, 9, epoch);
  }

  /** A switch that gives up waiting breaks the order: the read it overtakes is refused, where in order of
      arrival it would have been answered. */
  lemma ExpiryBreaksOrder(epoch: (string, Context) -> string)
    ensures var s := Execute(Overtaking, epoch);
      && s.gate.timeouts == 1 && 2 in s.answers && s.answers[2] == Answer(Request("u", "s1", None), 404)
      && Judge("s1", None, "u", SerialContext(s.commits, "u", 2), epoch) == 200
  {
    hide Execute;
    OvertakingCommits(epoch);
    assert Overtaking[10] == Compare(2, "s1", None) && Overtaking[11] == Produce(2);
    Advanced(Overtaking, 10, epoch);
    Advanced(Overtaking, 11, epoch);
    assert Overtaking[..12] == Overtaking;
    SerialAtTwo(Execute(Overtaking, epoch).commits);
  }

  lemma SerialAtTwo(commits: map<nat, Switch>)
    requires 1 in commits && commits[1] == Switch("u", First) && 0 !in commits
    ensures SerialContext(commits, "u", 2) == Context(1, First)
  {
    assert SerialContext(commits, "u", 0) == Unselected;
    assert SerialContext(commits, "u", 1) == Unselected;
  }

  // ---- a run in which the epoch does not tell two contexts apart ----

  /** With the first Season selected a page is rendered; a second switch commits and leaves; then the page's
      read arrives. */
  function LateRead(token: string): seq<Step> {
    SwitchSteps(1, "u", First) + [DeriveEpoch(7, "u"), ReadTuple(7)] + SwitchSteps(2, "u", Second) +
    ReadSteps(3, "u") + [Compare(3, "s1", Some(token)), Produce(3)]
  }

  const Rendered := AfterFirst.(pages := map[7 := Page("u", Context(1, First), Some(First))])

  lemma LateReadRenders(token: string, epoch: (string, Context) -> string)
    ensures Execute(LateRead(token)[..6], epoch) == Rendered && Quiet(Rendered)
  {
    hide Execute;
    var run := LateRead(token);
    FirstSwitchDone(run, epoch);
    assert run[4] == DeriveEpoch(7, "u") && run[5] == ReadTuple(7);
    Advanced(run, 4, epoch);
    Advanced(run, 5, epoch);
  }

  lemma LateReadArrives(token: string, epoch: (string, Context) -> string)
    ensures Execute(LateRead(token)[..13], epoch) == WithRead(Switched(Rendered, "u", Second), "u")
  {
    hide Execute;
    var run := LateRead(token);
    LateReadRenders(token, epoch);
    assert run[6..10] == SwitchSteps(2, "u", Second) && run[10..13] == ReadSteps(3, "u");
    LoneSwitch(run, 6, "u", Second, epoch);
    LoneRead(run, 10, "u", epoch);
  }

  /** A colliding epoch refuses: if the two contexts share a token, the page's own read is answered 404. */
  lemma CollisionRefuses(epoch: (string, Context) -> string)
    requires Tokens(epoch) && epoch("u", Context(1, First)) == epoch("u", Context(2, Second))
    ensures var run := LateRead(epoch("u", Context(1, First)));
      var s := Execute(run, epoch);
      && s.gate.timeouts == 0 && 7 in Execute(run[..6], epoch).pages && 3 in s.answers
      && RenderedUnder(s.answers[3].request, Execute(run[..6], epoch).pages[7], epoch)
      && s.answers[3].status == 404
  {
    hide Execute, EpochVerdict, IsToken, Tokens;
    var token := epoch("u", Context(1, First));
    var run := LateRead(token);
    LateReadRenders(token, epoch);
    LateReadArrives(token, epoch);
    assert ContextOf(Execute(run[..13], epoch), "u") == Context(2, Second);
    assert run[13] == Compare(3, "s1", Some(token)) && run[14] == Produce(3);
    TokenVerdict("u", Context(1, First), Context(2, Second), epoch);
    Advanced(run, 13, epoch);
    Advanced(run, 14, epoch);
    assert run[..15] == run;
  }
}
