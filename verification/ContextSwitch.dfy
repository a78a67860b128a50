/** Scoped reads and context switches as a step system: the gate orders them by arrival, the epoch
    discards a read whose selection has moved. */
module ContextSwitch {
  import opened ContextGate
  import opened Text

  datatype Selection = Selection(program: string, season: string)

  /** What the store keeps for a user: every switch raises the generation by one. */
  datatype Context = Context(generation: nat, selection: Selection)

  const Unselected := Context(0, Selection("", ""))

  datatype Verdict = Absent | Match | Mismatch

  predicate IsToken(t: string) {
    |t| == 32 && forall i :: 0 <= i < 32 ==> '0' <= t[i] <= '9' || 'a' <= t[i] <= 'f'
  }

  /** `epoch_verdict`: an epoch that is missing or blank is no epoch at all. */
  function EpochVerdict(echo: Option<string>, current: string): Verdict {
    if echo.None? then Absent
    else
      var e := Strip(echo.value, PySpace);
      if e == "" then Absent else if IsToken(e) && e == current then Match else Mismatch
  }

  /** The exact-Season ceiling, unchanged: only the selected Season is answered, and no Season is selected
      while the selection names none. */
  function Ceiling(season: string, selection: Selection): nat {
    if season != "" && season == selection.season then 200 else 404
  }

  /** The answer to a read judged against one context. */
  function Judge(
    season: string, echo: Option<string>, user: string, c: Context, epoch: (string, Context) -> string): nat
  {
    if EpochVerdict(echo, epoch(user, c)) == Mismatch then 204 else Ceiling(season, c.selection)
  }

  // ---- state ----

  datatype Request = Request(user: string, season: string, echo: Option<string>)

  /** How far an identified read has come: waiting at the gate, inside, or past the epoch comparison. */
  datatype Phase = Waiting(user: string) | Inside(user: string) | Compared(request: Request)

  datatype Answer = Answer(request: Request, status: nat)

  datatype Switch = Switch(user: string, selection: Selection)

  /** A page: the context as it stood when its epoch was derived, and the tuple read afterwards. */
  datatype Page = Page(user: string, born: Context, tuple: Option<Selection>)

  datatype Sys = Sys(
    gate: Gate,
    phases: map<nat, Phase>,       // identified reads still registered
    entered: set<nat>,             // switches past their wait
    contexts: map<string, Context>,
    commits: map<nat, Switch>,     // by the switch's ticket
    latest: map<string, nat>,      // the ticket of each user's last commit
    answers: map<nat, Answer>,     // by the read's ticket
    pages: map<nat, Page>)

  const Start := Sys(EmptyGate, map[], {}, map[], map[], map[], map[], map[])

  function ContextOf(s: Sys, user: string): Context {
    if user in s.contexts then s.contexts[user] else Unselected
  }

  // ---- steps ----

  datatype Step =
    | Arrive                                              // a scoped GET reaches the server
    | Identify(r: nat, user: string)                      // its user is known: the ticket is narrowed
    | EnterRead(r: nat)                                   // its wait ends, in turn or by expiry
    | Compare(r: nat, season: string, echo: Option<string>)
    | Produce(r: nat)                                     // the service answers under the ceiling
    | LeaveRead(r: nat)
    | Register(user: string)                              // a POST of a new context
    | EnterSwitch(w: nat)
    | Commit(w: nat, selection: Selection)
    | LeaveSwitch(w: nat)
    | DeriveEpoch(page: nat, user: string)                // GET of the context: the epoch first...
    | ReadTuple(page: nat)                                // ...then the selection it renders

  predicate Enabled(s: Sys, a: Step) {
    match a
    case Arrive => true
    case Identify(r, user) => r in s.gate.readers && s.gate.readers[r] == None && user != ""
    case EnterRead(r) => r in s.phases && s.phases[r].Waiting?
    case Compare(r, _, _) => r in s.phases && s.phases[r].Inside? && r !in s.answers
    case Produce(r) => r in s.phases && s.phases[r].Compared? && r !in s.answers
    case LeaveRead(r) => r in s.gate.readers
    case Register(user) => user != ""
    case EnterSwitch(w) => w in s.gate.writers && w !in s.entered
    case Commit(w, _) => w in s.gate.writers && w in s.entered && w !in s.commits
    case LeaveSwitch(w) => w in s.gate.writers && w in s.entered
    case DeriveEpoch(_, user) => user != ""
    case ReadTuple(p) => p in s.pages && s.pages[p].tuple.None?
  }

  /** A wait that ends while somebody still blocks it has expired, and is counted. */
  function Expired(g: Gate, ticket: nat): Gate {
    if Blockers(g, ticket) == {} then g else g.(timeouts := g.timeouts + 1)
  }

  // Each table after a step: a step that a table does not name leaves it alone.

  function GateAfter(s: Sys, a: Step): Gate
    requires Enabled(s, a)
  {
    match a
    case Arrive => Arrived(s.gate)
    case Identify(r, user) => Narrowed(s.gate, r, user)
    case EnterRead(r) => Expired(s.gate, r)
    case LeaveRead(r) => s.gate.(readers := s.gate.readers - {r})
    case Register(user) => Registered(s.gate, user)
    case EnterSwitch(w) => Expired(s.gate, w)
    case LeaveSwitch(w) => s.gate.(writers := s.gate.writers - {w})
    case _ => s.gate
  }

  /** The comparison of the epoch that a read does on its way to the service. */
  predicate Discards(s: Sys, a: Step, epoch: (string, Context) -> string)
    requires Enabled(s, a) && a.Compare?
  {
    var user := s.phases[a.r].user;
    EpochVerdict(a.echo, epoch(user, ContextOf(s, user))) == Mismatch
  }

  function PhasesAfter(s: Sys, a: Step, epoch: (string, Context) -> string): map<nat, Phase>
    requires Enabled(s, a)
  {
    match a
    case Identify(r, user) => s.phases[r := Waiting(user)]
    case EnterRead(r) => s.phases[r := Inside(s.phases[r].user)]
    case Compare(r, season, echo) =>
      if Discards(s, a, epoch) then s.phases
      else s.phases[r := Compared(Request(s.phases[r].user, season, echo))]
    case LeaveRead(r) => s.phases - {r}
    case _ => s.phases
  }

  function EnteredAfter(s: Sys, a: Step): set<nat> {
    match a
    case EnterSwitch(w) => s.entered + {w}
    case LeaveSwitch(w) => s.entered - {w}
    case _ => s.entered
  }

  function ContextsAfter(s: Sys, a: Step): map<string, Context>
    requires Enabled(s, a)
  {
    match a
    case Commit(w, selection) =>
      var user := s.gate.writers[w];
      s.contexts[user := Context(ContextOf(s, user).generation + 1, selection)]
    case _ => s.contexts
  }

  function CommitsAfter(s: Sys, a: Step): map<nat, Switch>
    requires Enabled(s, a)
  {
    match a
    case Commit(w, selection) => s.commits[w := Switch(s.gate.writers[w], selection)]
    case _ => s.commits
  }

  function LatestAfter(s: Sys, a: Step): map<string, nat>
    requires Enabled(s, a)
  {
    match a
    case Commit(w, _) => s.latest[s.gate.writers[w] := w]
    case _ => s.latest
  }

  /** A discarded read is answered 204 at its comparison, before the service; the service answers the rest. */
  function AnswersAfter(s: Sys, a: Step, epoch: (string, Context) -> string): map<nat, Answer>
    requires Enabled(s, a)
  {
    match a
    case Compare(r, season, echo) =>
      if Discards(s, a, epoch) then s.answers[r := Answer(Request(s.phases[r].user, season, echo), 204)] else s.answers
    case Produce(r) =>
      var q := s.phases[r].request;
      s.answers[r := Answer(q, Ceiling(q.season, ContextOf(s, q.user).selection))]
    case _ => s.answers
  }

  function PagesAfter(s: Sys, a: Step): map<nat, Page>
    requires Enabled(s, a)
  {
    match a
    case DeriveEpoch(p, user) => s.pages[p := Page(user, ContextOf(s, user), None)]
    case ReadTuple(p) => s.pages[p := s.pages[p].(tuple := Some(ContextOf(s, s.pages[p].user).selection))]
    case _ => s.pages
  }

  function Apply(s: Sys, a: Step, epoch: (string, Context) -> string): Sys
    requires Enabled(s, a)
  {
    Sys(GateAfter(s, a), PhasesAfter(s, a, epoch), EnteredAfter(s, a), ContextsAfter(s, a), CommitsAfter(s, a),
        LatestAfter(s, a), AnswersAfter(s, a, epoch), PagesAfter(s, a))
  }

  /** The state after a sequence of attempted steps; one that is not enabled does nothing. */
  function Execute(run: seq<Step>, epoch: (string, Context) -> string): Sys {
    if run == [] then Start
    else
      var s := Execute(run[..|run| - 1], epoch);
      var a := run[|run| - 1];
      if Enabled(s, a) then Apply(s, a, epoch) else s
  }

  // ---- the serial reference: one participant at a time, in ticket order ----

  /** The context of `user` once the switches with tickets below `t` have run, one after the other. */
  function SerialContext(commits: map<nat, Switch>, user: string, t: nat): Context {
    if t == 0 then Unselected
    else
      var c := SerialContext(commits, user, t - 1);
      if t - 1 in commits && commits[t - 1].user == user
      then Context(c.generation + 1, commits[t - 1].selection)
      else c
  }

  lemma {:induction false} SerialSkips(commits: map<nat, Switch>, user: string, t: nat, t': nat)
    requires t <= t' && forall w :: w in commits && t <= w < t' ==> commits[w].user != user
    ensures SerialContext(commits, user, t') == SerialContext(commits, user, t)
  {
    if t < t' { SerialSkips(commits, user, t, t' - 1); }
  }

  lemma {:induction false} SerialIgnores(commits: map<nat, Switch>, w: nat, x: Switch, user: string, t: nat)
    requires w !in commits && (t <= w || x.user != user)
    ensures SerialContext(commits[w := x], user, t) == SerialContext(commits, user, t)
  {
    if t > 0 { SerialIgnores(commits, w, x, user, t - 1); }
  }

  // ---- invariants ----

  /** Tickets, phases and records fit together, whether or not a wait expired. */
  ghost predicate Tidy(s: Sys) {
    WellFormed(s.gate) && TidySwitches(s) && TidyPhases(s) && TidyAnswers(s)
  }

  ghost predicate TidySwitches(s: Sys) {
    && (forall w :: w in s.entered ==> w in s.gate.writers)
    && (forall w :: w in s.commits ==> 1 <= w <= s.gate.seqNo && w !in s.gate.readers)
    && (forall w :: w in s.commits && w in s.gate.writers ==> s.commits[w].user == s.gate.writers[w] && w in s.entered)
  }

  ghost predicate TidyPhases(s: Sys) {
    forall r :: r in s.phases ==> r in s.gate.readers && s.gate.readers[r] == Some(PhaseUser(s.phases[r]))
  }

  ghost predicate TidyAnswers(s: Sys) {
    && (forall r :: r in s.answers ==> r <= s.gate.seqNo && r !in s.gate.writers)
    && (forall r :: r in s.answers && r in s.gate.readers ==>
        r in s.phases && PhaseUser(s.phases[r]) == s.answers[r].request.user)
  }

  function PhaseUser(p: Phase): string {
    if p.Compared? then p.request.user else p.user
  }

  /** The read with ticket `r` belongs to `user`, or might. */
  predicate MayBelong(s: Sys, r: nat, user: string) {
    r in s.gate.readers && (s.gate.readers[r] == None || s.gate.readers[r] == Some(user))
  }

  /** No switch of `user` that arrived before ticket `t` is still inside. */
  predicate Settled(s: Sys, user: string, t: nat) {
    forall w :: w in s.gate.writers && w < t ==> s.gate.writers[w] != user
  }

  /** No read that arrived before ticket `t` and is still inside belongs, or might belong, to `user`. */
  predicate Unclaimed(s: Sys, user: string, t: nat) {
    forall r: nat :: r in s.gate.readers && r < t ==> !MayBelong(s, r, user)
  }

  /** An entered switch has nobody of its user before it. */
  ghost predicate SwitchesAlone(s: Sys) {
    forall w :: w in s.entered && w in s.gate.writers ==>
      Settled(s, s.gate.writers[w], w) && Unclaimed(s, s.gate.writers[w], w)
  }

  /** Reads past their wait, and reads answered, have no earlier switch of their user left inside. */
  ghost predicate ReadsSettled(s: Sys) {
    && (forall r :: r in s.phases && !s.phases[r].Waiting? ==> Settled(s, PhaseUser(s.phases[r]), r))
    && (forall r :: r in s.answers ==> Settled(s, s.answers[r].request.user, r))
  }

  /** Commits never overtake an earlier participant of the same user. */
  ghost predicate CommitsInOrder(s: Sys) {
    forall w :: w in s.commits ==>
      Settled(s, s.commits[w].user, w) && Unclaimed(s, s.commits[w].user, w)
  }

  ghost predicate ContextsSerial(s: Sys) {
    forall user :: ContextOf(s, user) == SerialContext(s.commits, user, s.gate.seqNo + 1)
  }

  /** Every answer, and every comparison passed, is the one the serial order gives. */
  ghost predicate AnswersSerial(s: Sys, epoch: (string, Context) -> string) {
    forall r :: r in s.answers ==>
      var q := s.answers[r].request;
      s.answers[r].status == Judge(q.season, q.echo, q.user, SerialContext(s.commits, q.user, r), epoch)
  }

  ghost predicate ComparisonsSerial(s: Sys, epoch: (string, Context) -> string) {
    forall r :: r in s.phases && s.phases[r].Compared? ==>
      var q := s.phases[r].request;
      EpochVerdict(q.echo, epoch(q.user, SerialContext(s.commits, q.user, r))) != Mismatch
  }

  ghost predicate Ordered(s: Sys, epoch: (string, Context) -> string) {
    SwitchesAlone(s) && ReadsSettled(s) && CommitsInOrder(s) && ContextsSerial(s) &&
    AnswersSerial(s, epoch) && ComparisonsSerial(s, epoch)
  }

  lemma WellFormedKept(s: Sys, a: Step, epoch: (string, Context) -> string)
    requires WellFormed(s.gate) && Enabled(s, a)
    ensures WellFormed(Apply(s, a, epoch).gate)
  {
    hide Blockers, EpochVerdict, IsToken, Ceiling, ContextOf;
  }

  lemma TidySwitchesKept(s: Sys, a: Step, epoch: (string, Context) -> string)
    requires WellFormed(s.gate) && TidySwitches(s) && Enabled(s, a)
    ensures TidySwitches(Apply(s, a, epoch))
  {
    hide Blockers, EpochVerdict, IsToken, Ceiling, ContextOf;
    assert a.Identify? ==> Apply(s, a, epoch).gate.readers.Keys == s.gate.readers.Keys;
  }

  lemma TidyPhasesKept(s: Sys, a: Step, epoch: (string, Context) -> string)
    requires WellFormed(s.gate) && TidyPhases(s) && Enabled(s, a)
    ensures TidyPhases(Apply(s, a, epoch))
  {
    hide Blockers, EpochVerdict, IsToken, Ceiling, ContextOf;
  }

  lemma AnswerTicketsKept(s: Sys, a: Step, epoch: (string, Context) -> string)
    requires WellFormed(s.gate) && TidyPhases(s) && TidyAnswers(s) && Enabled(s, a)
    ensures forall r :: r in Apply(s, a, epoch).answers ==>
      r <= Apply(s, a, epoch).gate.seqNo && r !in Apply(s, a, epoch).gate.writers
  {
    hide Blockers, EpochVerdict, IsToken, Ceiling, ContextOf;
  }

  lemma AnswerUserKept(s: Sys, a: Step, epoch: (string, Context) -> string, r: nat)
    requires WellFormed(s.gate) && TidyPhases(s) && TidyAnswers(s) && Enabled(s, a)
    requires r in Apply(s, a, epoch).answers && r in Apply(s, a, epoch).gate.readers
    ensures r in Apply(s, a, epoch).phases
    ensures PhaseUser(Apply(s, a, epoch).phases[r]) == Apply(s, a, epoch).answers[r].request.user
  {
    hide Blockers, EpochVerdict, IsToken, Ceiling, ContextOf;
  }

  lemma TidyAnswersKept(s: Sys, a: Step, epoch: (string, Context) -> string)
    requires WellFormed(s.gate) && TidyPhases(s) && TidyAnswers(s) && Enabled(s, a)
    ensures TidyAnswers(Apply(s, a, epoch))
  {
    hide Apply, Enabled, TidyPhases, PhaseUser;
    AnswerTicketsKept(s, a, epoch);
    var s' := Apply(s, a, epoch);
    forall r | r in s'.answers && r in s'.gate.readers
      ensures r in s'.phases && PhaseUser(s'.phases[r]) == s'.answers[r].request.user
    {
      AnswerUserKept(s, a, epoch, r);
    }
  }

  lemma TidyKept(s: Sys, a: Step, epoch: (string, Context) -> string)
    requires Tidy(s) && Enabled(s, a)
    ensures Tidy(Apply(s, a, epoch))
  {
    hide TidyPhases, TidyAnswers, TidySwitches, Apply, Enabled;
    WellFormedKept(s, a, epoch);
    TidySwitchesKept(s, a, epoch);
    TidyPhasesKept(s, a, epoch);
    TidyAnswersKept(s, a, epoch);
  }

  // ---- each step keeps the order ----

  lemma SettledStays(s: Sys, a: Step, epoch: (string, Context) -> string, user: string, t: nat)
    requires Enabled(s, a) && Settled(s, user, t) && t <= s.gate.seqNo + 1
    ensures Settled(Apply(s, a, epoch), user, t)
  {
    hide Blockers, EpochVerdict, IsToken, Ceiling;
  }

  lemma UnclaimedStays(s: Sys, a: Step, epoch: (string, Context) -> string, user: string, t: nat)
    requires Enabled(s, a) && Unclaimed(s, user, t) && t <= s.gate.seqNo + 1
    ensures Unclaimed(Apply(s, a, epoch), user, t)
  {
    hide Blockers, EpochVerdict, IsToken, Ceiling;
  }

  lemma UnblockedSwitch(s: Sys, w: nat)
    requires w in s.gate.writers && Blockers(s.gate, w) == {}
    ensures Settled(s, s.gate.writers[w], w) && Unclaimed(s, s.gate.writers[w], w)
  {
    forall x: nat | x < w
      ensures x in s.gate.writers ==> s.gate.writers[x] != s.gate.writers[w]
      ensures !MayBelong(s, x, s.gate.writers[w])
    {
      assert x !in Blockers(s.gate, w);
    }
  }

  lemma UnblockedRead(s: Sys, r: nat)
    requires Tidy(s) && r in s.phases && Blockers(s.gate, r) == {}
    ensures Settled(s, PhaseUser(s.phases[r]), r)
  {
    forall x: nat | x in s.gate.writers && x < r ensures s.gate.writers[x] != PhaseUser(s.phases[r]) {
      assert x !in Blockers(s.gate, r);
    }
  }

  /** Whoever is past its wait after a step was already, or has just been let through. */
  lemma EnteredCameFrom(s: Sys, a: Step, epoch: (string, Context) -> string, w: nat)
    requires Tidy(s) && Enabled(s, a) && w in Apply(s, a, epoch).entered && w in Apply(s, a, epoch).gate.writers
    ensures w in s.gate.writers && Apply(s, a, epoch).gate.writers[w] == s.gate.writers[w] && w <= s.gate.seqNo
    ensures w in s.entered || a == EnterSwitch(w)
  {
    hide Blockers, EpochVerdict, IsToken, Ceiling, ContextOf, TidyPhases, TidyAnswers;
  }

  lemma PhaseCameFrom(s: Sys, a: Step, epoch: (string, Context) -> string, r: nat)
    requires Tidy(s) && Enabled(s, a) && r in Apply(s, a, epoch).phases && !Apply(s, a, epoch).phases[r].Waiting?
    ensures r in s.phases && PhaseUser(Apply(s, a, epoch).phases[r]) == PhaseUser(s.phases[r]) && r <= s.gate.seqNo
    ensures !s.phases[r].Waiting? || a == EnterRead(r)
  {
    hide Blockers, EpochVerdict, IsToken, Ceiling, ContextOf, TidySwitches, TidyAnswers;
  }

  lemma AnswerCameFrom(s: Sys, a: Step, epoch: (string, Context) -> string, r: nat)
    requires Tidy(s) && Enabled(s, a) && r in Apply(s, a, epoch).answers
    ensures r <= s.gate.seqNo
    ensures var user := Apply(s, a, epoch).answers[r].request.user;
      (r in s.answers && s.answers[r].request.user == user)
      || (r in s.phases && !s.phases[r].Waiting? && PhaseUser(s.phases[r]) == user)
  {
    hide Blockers, EpochVerdict, IsToken, Ceiling, ContextOf, TidySwitches;
  }

  /** A wait that ends without being counted as expired ends with nobody in the way. */
  lemma LetThrough(s: Sys, a: Step, epoch: (string, Context) -> string)
    requires Enabled(s, a) && Apply(s, a, epoch).gate.timeouts == s.gate.timeouts
    ensures a.EnterRead? ==> Blockers(s.gate, a.r) == {}
    ensures a.EnterSwitch? ==> Blockers(s.gate, a.w) == {}
  {
    hide Blockers, EpochVerdict, IsToken, Ceiling, ContextOf;
  }

  lemma SwitchesAloneKept(s: Sys, a: Step, epoch: (string, Context) -> string)
    requires Tidy(s) && Enabled(s, a) && SwitchesAlone(s)
    requires Apply(s, a, epoch).gate.timeouts == s.gate.timeouts
    ensures SwitchesAlone(Apply(s, a, epoch))
  {
    hide Apply, Enabled, Tidy, Blockers, Settled, Unclaimed;
    var s' := Apply(s, a, epoch);
    LetThrough(s, a, epoch);
    forall w | w in s'.entered && w in s'.gate.writers
      ensures Settled(s', s'.gate.writers[w], w) && Unclaimed(s', s'.gate.writers[w], w)
    {
      EnteredCameFrom(s, a, epoch, w);
      if w !in s.entered { UnblockedSwitch(s, w); }
      SettledStays(s, a, epoch, s.gate.writers[w], w);
      UnclaimedStays(s, a, epoch, s.gate.writers[w], w);
    }
  }

  lemma ReadsSettledKept(s: Sys, a: Step, epoch: (string, Context) -> string)
    requires Tidy(s) && Enabled(s, a) && ReadsSettled(s)
    requires Apply(s, a, epoch).gate.timeouts == s.gate.timeouts
    ensures ReadsSettled(Apply(s, a, epoch))
  {
    hide Apply, Enabled, Tidy, Blockers, Settled, PhaseUser;
    var s' := Apply(s, a, epoch);
    LetThrough(s, a, epoch);
    forall r | r in s'.phases && !s'.phases[r].Waiting? ensures Settled(s', PhaseUser(s'.phases[r]), r) {
      PhaseCameFrom(s, a, epoch, r);
      if s.phases[r].Waiting? { UnblockedRead(s, r); }
      SettledStays(s, a, epoch, PhaseUser(s.phases[r]), r);
    }
    forall r | r in s'.answers ensures Settled(s', s'.answers[r].request.user, r) {
      AnswerCameFrom(s, a, epoch, r);
      SettledStays(s, a, epoch, s'.answers[r].request.user, r);
    }
  }

  lemma CommitsInOrderKept(s: Sys, a: Step, epoch: (string, Context) -> string)
    requires Tidy(s) && Enabled(s, a) && SwitchesAlone(s) && CommitsInOrder(s)
    ensures CommitsInOrder(Apply(s, a, epoch))
  {
    hide Blockers, EpochVerdict, IsToken, Ceiling, Settled, Unclaimed;
    var s' := Apply(s, a, epoch);
    forall w | w in s'.commits
      ensures Settled(s', s'.commits[w].user, w) && Unclaimed(s', s'.commits[w].user, w)
    {
      var user := s'.commits[w].user;
      SettledStays(s, a, epoch, user, w);
      UnclaimedStays(s, a, epoch, user, w);
    }
  }

  /** Only a commit changes the contexts or the commits. */
  lemma OnlyCommitsCommit(s: Sys, a: Step, epoch: (string, Context) -> string)
    requires Enabled(s, a) && !a.Commit?
    ensures Apply(s, a, epoch).contexts == s.contexts && Apply(s, a, epoch).commits == s.commits
    ensures s.gate.seqNo <= Apply(s, a, epoch).gate.seqNo
  {
  }

  lemma CommitExtendsSerial(s: Sys, w: nat, x: Switch, user: string)
    requires Tidy(s) && CommitsInOrder(s) && w in s.gate.writers && w !in s.commits
    requires x.user == s.gate.writers[w]
    ensures SerialContext(s.commits[w := x], user, s.gate.seqNo + 1)
      == if user == x.user then Context(SerialContext(s.commits, user, s.gate.seqNo + 1).generation + 1, x.selection)
         else SerialContext(s.commits, user, s.gate.seqNo + 1)
  {
    hide Unclaimed;
    if user == x.user {
      forall v | v in s.commits && w < v < s.gate.seqNo + 1 ensures s.commits[v].user != user {
        assert Settled(s, s.commits[v].user, v);
      }
      SerialSkips(s.commits[w := x], user, w + 1, s.gate.seqNo + 1);
      SerialIgnores(s.commits, w, x, user, w);
      SerialSkips(s.commits, user, w, s.gate.seqNo + 1);
    } else {
      SerialIgnores(s.commits, w, x, user, s.gate.seqNo + 1);
    }
  }

  lemma ContextsSerialKept(s: Sys, a: Step, epoch: (string, Context) -> string)
    requires Tidy(s) && Enabled(s, a) && CommitsInOrder(s) && ContextsSerial(s)
    ensures ContextsSerial(Apply(s, a, epoch))
  {
    hide SerialContext, CommitsInOrder;
    var s' := Apply(s, a, epoch);
    forall user ensures ContextOf(s', user) == SerialContext(s'.commits, user, s'.gate.seqNo + 1) {
      assert ContextOf(s, user) == SerialContext(s.commits, user, s.gate.seqNo + 1);
      if a.Commit? {
        CommitExtendsSerial(s, a.w, Switch(s.gate.writers[a.w], a.selection), user);
      } else {
        OnlyCommitsCommit(s, a, epoch);
        SerialSkips(s.commits, user, s.gate.seqNo + 1, s'.gate.seqNo + 1);
      }
    }
  }

  /** What a settled read sees is the serial context at its own ticket. */
  lemma SettledSees(s: Sys, r: nat, user: string)
    requires Tidy(s) && CommitsInOrder(s) && ContextsSerial(s) && MayBelong(s, r, user)
    ensures ContextOf(s, user) == SerialContext(s.commits, user, r)
  {
    hide Settled;
    forall v | v in s.commits && r <= v < s.gate.seqNo + 1 ensures s.commits[v].user != user {}
    SerialSkips(s.commits, user, r, s.gate.seqNo + 1);
  }

  /** A commit cannot change what a settled participant saw. */
  lemma CommitSparesSettled(s: Sys, w: nat, x: Switch, user: string, r: nat)
    requires Settled(s, user, r) && w in s.gate.writers && w !in s.commits && x.user == s.gate.writers[w]
    ensures SerialContext(s.commits[w := x], user, r) == SerialContext(s.commits, user, r)
  {
    SerialIgnores(s.commits, w, x, user, r);
  }

  lemma SerialAtKept(s: Sys, a: Step, epoch: (string, Context) -> string, user: string, r: nat)
    requires Enabled(s, a) && Settled(s, user, r)
    ensures SerialContext(Apply(s, a, epoch).commits, user, r) == SerialContext(s.commits, user, r)
  {
    hide SerialContext, Settled;
    if a.Commit? {
      CommitSparesSettled(s, a.w, Switch(s.gate.writers[a.w], a.selection), user, r);
    } else {
      OnlyCommitsCommit(s, a, epoch);
    }
  }

  lemma AnswersSerialKept(s: Sys, a: Step, epoch: (string, Context) -> string)
    requires Tidy(s) && Enabled(s, a) && Ordered(s, epoch)
    ensures AnswersSerial(Apply(s, a, epoch), epoch)
  {
    hide Blockers, IsToken, Ceiling, Settled, SerialContext, SwitchesAlone, CommitsInOrder, ContextsSerial;
    hide EpochVerdict;
    var s' := Apply(s, a, epoch);
    forall r | r in s'.answers
      ensures var q := s'.answers[r].request;
        s'.answers[r].status == Judge(q.season, q.echo, q.user, SerialContext(s'.commits, q.user, r), epoch)
    {
      var q := s'.answers[r].request;
      if r !in s.answers { SettledSees(s, r, q.user); }
      SerialAtKept(s, a, epoch, q.user, r);
    }
  }

  lemma ComparisonsSerialKept(s: Sys, a: Step, epoch: (string, Context) -> string)
    requires Tidy(s) && Enabled(s, a) && Ordered(s, epoch)
    ensures ComparisonsSerial(Apply(s, a, epoch), epoch)
  {
    hide Blockers, IsToken, Ceiling, Settled, SerialContext, SwitchesAlone, CommitsInOrder, ContextsSerial;
    hide EpochVerdict;
    hide AnswersSerial;
    var s' := Apply(s, a, epoch);
    forall r | r in s'.phases && s'.phases[r].Compared?
      ensures var q := s'.phases[r].request;
        EpochVerdict(q.echo, epoch(q.user, SerialContext(s'.commits, q.user, r))) != Mismatch
    {
      var q := s'.phases[r].request;
      SettledSees(s, r, q.user);
      SerialAtKept(s, a, epoch, q.user, r);
    }
  }

  lemma {:induction false} RunsAreTidy(run: seq<Step>, epoch: (string, Context) -> string)
    ensures Tidy(Execute(run, epoch))
  {
    hide Tidy, Apply, Enabled;
    if run == [] {
      StartIsTidy();
    } else {
      var s, a := Execute(run[..|run| - 1], epoch), run[|run| - 1];
      RunsAreTidy(run[..|run| - 1], epoch);
      if Enabled(s, a) { TidyKept(s, a, epoch); }
    }
  }

  lemma StartIsTidy()
    ensures Tidy(Start)
  {
  }

  lemma StartIsOrdered(epoch: (string, Context) -> string)
    ensures Ordered(Start, epoch)
  {
    forall user ensures SerialContext(map[], user, 1) == Unselected {
      assert SerialContext(map[], user, 0) == Unselected;
    }
  }

  lemma ExpiriesOnlyGrow(s: Sys, a: Step, epoch: (string, Context) -> string)
    requires Enabled(s, a)
    ensures s.gate.timeouts <= Apply(s, a, epoch).gate.timeouts
  {
  }

  /** As long as no wait has expired, every run keeps the arrival order. */
  lemma {:induction false} RunsAreOrdered(run: seq<Step>, epoch: (string, Context) -> string)
    requires Execute(run, epoch).gate.timeouts == 0
    ensures Ordered(Execute(run, epoch), epoch)
  {
    hide Tidy, Apply, Enabled, SwitchesAlone, ReadsSettled, CommitsInOrder, ContextsSerial;
    hide AnswersSerial, ComparisonsSerial;
    if run == [] {
      StartIsOrdered(epoch);
    } else {
      var s, a := Execute(run[..|run| - 1], epoch), run[|run| - 1];
      if Enabled(s, a) { ExpiriesOnlyGrow(s, a, epoch); }
      RunsAreOrdered(run[..|run| - 1], epoch);
      RunsAreTidy(run[..|run| - 1], epoch);
      if Enabled(s, a) {
        SwitchesAloneKept(s, a, epoch);
        ReadsSettledKept(s, a, epoch);
        CommitsInOrderKept(s, a, epoch);
        ContextsSerialKept(s, a, epoch);
        AnswersSerialKept(s, a, epoch);
        ComparisonsSerialKept(s, a, epoch);
      }
    }
  }

  // ---- main results: order ----

  /** In every run in which no wait expired, each read was answered as if switches and reads had run one
      at a time in order of arrival; the contexts are what that serial run leaves; and no switch is past
      its wait while a read of its user that arrived earlier is still inside. */
  lemma SerialisedByArrival(run: seq<Step>, epoch: (string, Context) -> string)
    requires Execute(run, epoch).gate.timeouts == 0
    ensures var s := Execute(run, epoch);
      && (forall r :: r in s.answers ==>
          var q := s.answers[r].request;
          s.answers[r].status == Judge(q.season, q.echo, q.user, SerialContext(s.commits, q.user, r), epoch))
      && (forall user :: ContextOf(s, user) == SerialContext(s.commits, user, s.gate.seqNo + 1))
      && (forall w, r: nat :: w in s.entered && w in s.gate.writers && r in s.gate.readers && r < w ==>
          s.gate.readers[r] != None && s.gate.readers[r] != Some(s.gate.writers[w]))
  {
    hide Execute, SerialContext, Judge;
    RunsAreOrdered(run, epoch);
  }

  /** Whoever waits, waits for a set of participants that can only shrink. */
  lemma BlockersOnlyLeave(s: Sys, a: Step, epoch: (string, Context) -> string, t: nat)
    requires Tidy(s) && Enabled(s, a) && (t in s.phases || t in s.gate.writers)
    requires t in Apply(s, a, epoch).phases || t in Apply(s, a, epoch).gate.writers
    ensures Blockers(Apply(s, a, epoch).gate, t) <= Blockers(s.gate, t)
  {
    hide EpochVerdict, IsToken, Ceiling, ContextOf, TidyAnswers, TidySwitches;
  }

  /** In every run a read that ends its wait counts an expiry exactly when a switch of its own user that
      arrived before it is still inside; other users' switches never delay it. */
  lemma ReadsWaitForOwnUser(run: seq<Step>, epoch: (string, Context) -> string, r: nat)
    requires r in Execute(run, epoch).phases && Execute(run, epoch).phases[r].Waiting?
    ensures var s := Execute(run, epoch);
      Execute(run + [EnterRead(r)], epoch).gate.timeouts == s.gate.timeouts +
        if exists w :: w in s.gate.writers && w < r && s.gate.writers[w] == s.phases[r].user then 1 else 0
  {
    hide Blockers, PhasesAfter, EnteredAfter, ContextsAfter, CommitsAfter, LatestAfter, AnswersAfter, PagesAfter;
    hide TidySwitches, TidyAnswers;
    var s := Execute(run, epoch);
    assert (run + [EnterRead(r)])[..|run|] == run;
    RunsAreTidy(run, epoch);
    WaitsExactly(s.gate, r);
  }

  /** In every run a switch that ends its wait counts an expiry exactly when a read of its user or of nobody
      yet, or a switch of its user, that arrived before it is still inside. */
  lemma SwitchesWaitForOwnUser(run: seq<Step>, epoch: (string, Context) -> string, t: nat)
    requires t in Execute(run, epoch).gate.writers && t !in Execute(run, epoch).entered
    ensures var s := Execute(run, epoch);
      var user := s.gate.writers[t];
      Execute(run + [EnterSwitch(t)], epoch).gate.timeouts == s.gate.timeouts +
        if (exists r :: r in s.gate.readers && r < t && (s.gate.readers[r] == None || s.gate.readers[r] == Some(user)))
           || (exists w :: w in s.gate.writers && w < t && s.gate.writers[w] == user)
        then 1 else 0
  {
    hide Blockers, PhasesAfter, EnteredAfter, ContextsAfter, CommitsAfter, LatestAfter, AnswersAfter, PagesAfter;
    hide TidySwitches, TidyAnswers, TidyPhases;
    var s := Execute(run, epoch);
    assert (run + [EnterSwitch(t)])[..|run|] == run;
    RunsAreTidy(run, epoch);
    WaitsExactly(s.gate, t);
  }

  // ---- main results: the epoch ----

  /** Every epoch has the shape of a token. Nothing else is asked of the function that derives them. */
  ghost predicate Tokens(epoch: (string, Context) -> string) {
    forall u, c :: IsToken(epoch(u, c))
  }

  /** A rendered page is in step with the store: if no switch came after its epoch, its tuple is the
      one selected now. */
  predicate PageFresh(s: Sys, p: Page) {
    var now := ContextOf(s, p.user);
    p.born.generation <= now.generation &&
    (p.born.generation == now.generation ==> p.born == now && (p.tuple.Some? ==> p.tuple.value == now.selection))
  }

  lemma PageStaysFresh(s: Sys, a: Step, epoch: (string, Context) -> string, p: Page)
    requires Enabled(s, a) && PageFresh(s, p)
    ensures PageFresh(Apply(s, a, epoch), p)
  {
    hide Blockers, EpochVerdict, Ceiling;
  }

  lemma PagesFreshAfter(s: Sys, a: Step, epoch: (string, Context) -> string, id: nat)
    requires Enabled(s, a) && id in Apply(s, a, epoch).pages
    requires id in s.pages ==> PageFresh(s, s.pages[id])
    ensures PageFresh(Apply(s, a, epoch), Apply(s, a, epoch).pages[id])
  {
    hide Blockers, EpochVerdict, Ceiling;
    if id in s.pages { PageStaysFresh(s, a, epoch, s.pages[id]); }
  }

  lemma {:induction false} RunsKeepPagesFresh(run: seq<Step>, epoch: (string, Context) -> string, id: nat)
    requires id in Execute(run, epoch).pages
    ensures PageFresh(Execute(run, epoch), Execute(run, epoch).pages[id])
  {
    hide Apply, Enabled, PageFresh;
    if run != [] {
      var s, a := Execute(run[..|run| - 1], epoch), run[|run| - 1];
      if id in s.pages { RunsKeepPagesFresh(run[..|run| - 1], epoch, id); }
      if Enabled(s, a) { PagesFreshAfter(s, a, epoch, id); }
    }
  }

  lemma TokenVerdict(u: string, c: Context, now: Context, epoch: (string, Context) -> string)
    requires Tokens(epoch)
    ensures EpochVerdict(Some(epoch(u, c)), epoch(u, now)) == if epoch(u, c) == epoch(u, now) then Match else Mismatch
  {
    var t := epoch(u, c);
    assert IsToken(t) && IsToken(epoch(u, now));
    assert !PySpace(t[0]) && !PySpace(t[31]);
    StripOfTrimmed(t, PySpace);
  }

  /** A read rendered under page `p`: its echo is the page's epoch and its Season the page's, which is one. */
  ghost predicate RenderedUnder(q: Request, p: Page, epoch: (string, Context) -> string) {
    && q.user == p.user && q.echo == Some(epoch(p.user, p.born)) && p.tuple.Some?
    && q.season == p.tuple.value.season != ""
  }

  /** The answer owed to a read of page `p` when its user's context is `now`. */
  function AnswerOwed(p: Page, now: Context, epoch: (string, Context) -> string): nat
    requires p.tuple.Some?
  {
    if p.born == now then 200
    else if epoch(p.user, p.born) != epoch(p.user, now) then 204
    else Ceiling(p.tuple.value.season, now.selection)
  }

  lemma JudgedUnderPage(q: Request, p: Page, now: Context, epoch: (string, Context) -> string)
    requires Tokens(epoch) && RenderedUnder(q, p, epoch)
    requires p.born == now ==> p.tuple.value == now.selection
    ensures Judge(q.season, q.echo, q.user, now, epoch) == AnswerOwed(p, now, epoch)
  {
    hide EpochVerdict, Tokens;
    TokenVerdict(q.user, p.born, now, epoch);
  }

  lemma {:induction false} PageFreshLater(run: seq<Step>, n: nat, id: nat, epoch: (string, Context) -> string)
    requires n <= |run| && id in Execute(run[..n], epoch).pages
    ensures PageFresh(Execute(run, epoch), Execute(run[..n], epoch).pages[id])
  {
    hide PageFresh, Apply, Enabled;
    if n == |run| {
      assert run[..n] == run;
      RunsKeepPagesFresh(run, epoch, id);
    } else {
      var front := run[..|run| - 1];
      assert front[..n] == run[..n];
      PageFreshLater(front, n, id, epoch);
      if Enabled(Execute(front, epoch), run[|run| - 1]) {
        PageStaysFresh(Execute(front, epoch), run[|run| - 1], epoch, Execute(run[..n], epoch).pages[id]);
      }
    }
  }

  /** An answer, once given, stays; a new one comes from a read still inside, judged by what it sees. */
  lemma AnswerGiven(s: Sys, a: Step, r: nat, epoch: (string, Context) -> string)
    requires Tidy(s) && Enabled(s, a) && Ordered(s, epoch) && r in Apply(s, a, epoch).answers
    ensures var s' := Apply(s, a, epoch);
      var user := s'.answers[r].request.user;
      && SerialContext(s'.commits, user, r) == SerialContext(s.commits, user, r)
      && (r in s.answers ==> s'.answers[r] == s.answers[r])
      && (r !in s.answers ==> ContextOf(s, user) == SerialContext(s.commits, user, r))
  {
    hide Blockers, IsToken, Ceiling, Settled, SerialContext, SwitchesAlone, CommitsInOrder, ContextsSerial;
    hide EpochVerdict;
    hide AnswersSerial, ComparisonsSerial, TidyAnswers, TidySwitches;
    var user := Apply(s, a, epoch).answers[r].request.user;
    if r !in s.answers { SettledSees(s, r, user); }
    SerialAtKept(s, a, epoch, user, r);
  }

  /** A read rendered under a page that was complete before it was answered gets 200 when its user's
      context, in arrival order, is still the page's, and 204 when the epoch tells the two apart; only a
      read whose epoch does not tell them apart meets the ceiling, however late it arrives. */
  lemma {:induction false} EpochDiscards(run: seq<Step>, n: nat, id: nat, r: nat, epoch: (string, Context) -> string)
    requires Tokens(epoch) && n <= |run| && Execute(run, epoch).gate.timeouts == 0
    requires id in Execute(run[..n], epoch).pages && r !in Execute(run[..n], epoch).answers
    requires r in Execute(run, epoch).answers
    requires RenderedUnder(Execute(run, epoch).answers[r].request, Execute(run[..n], epoch).pages[id], epoch)
    ensures var s := Execute(run, epoch);
      var page := Execute(run[..n], epoch).pages[id];
      s.answers[r].status == AnswerOwed(page, SerialContext(s.commits, page.user, r), epoch)
  {
    hide Tokens, Judge, SerialContext, Apply, Enabled, Tidy, Ordered, AnswerOwed;
    assert run[..|run|] == run;
    var front, a := run[..|run| - 1], run[|run| - 1];
    assert front[..n] == run[..n];
    var s := Execute(front, epoch);
    if Enabled(s, a) {
      ExpiriesOnlyGrow(s, a, epoch);
      RunsAreTidy(front, epoch);
      RunsAreOrdered(front, epoch);
      AnswerGiven(s, a, r, epoch);
    }
    if r in s.answers {
      EpochDiscards(front, n, id, r, epoch);
    } else {
      AnsweredUnderPage(run, n, id, r, epoch);
    }
  }

  /** The case in which the last step of the run gives the answer. */
  lemma AnsweredUnderPage(run: seq<Step>, n: nat, id: nat, r: nat, epoch: (string, Context) -> string)
    requires Tokens(epoch) && n < |run| && Execute(run, epoch).gate.timeouts == 0
    requires id in Execute(run[..n], epoch).pages
    requires r in Execute(run, epoch).answers && r !in Execute(run[..|run| - 1], epoch).answers
    requires RenderedUnder(Execute(run, epoch).answers[r].request, Execute(run[..n], epoch).pages[id], epoch)
    ensures var s := Execute(run, epoch);
      var page := Execute(run[..n], epoch).pages[id];
      s.answers[r].status == AnswerOwed(page, SerialContext(s.commits, page.user, r), epoch)
  {
    hide Tokens, SerialContext, Apply, Enabled, Tidy, Judge, AnswerOwed;
    var front, a := run[..|run| - 1], run[|run| - 1];
    assert front[..n] == run[..n];
    var s := Execute(front, epoch);
    ExpiriesOnlyGrow(s, a, epoch);
    RunsAreTidy(front, epoch);
    RunsAreOrdered(front, epoch);
    AnswerGiven(s, a, r, epoch);
    PageFreshLater(front, n, id, epoch);
    SerialisedByArrival(run, epoch);
    var page := Execute(run[..n], epoch).pages[id];
    var q := Execute(run, epoch).answers[r].request;
    JudgedUnderPage(q, page, ContextOf(s, page.user), epoch);
  }

  /** The epoch a read carries is one, and not the current one: something is left of it without white space,
      and that is not the 32 hexadecimal digits of the current epoch. */
  predicate CarriesOther(echo: Option<string>, current: string) {
    && echo.Some? && !All(echo.value, PySpace)
    && !(PyStrip(echo.value) == current && |current| == 32 &&
         forall i :: 0 <= i < 32 ==> '0' <= current[i] <= '9' || 'a' <= current[i] <= 'f')
  }

  /** Every answer, written out: 204 exactly when the read carries another epoch than the current one, and
      otherwise 200 exactly when it names a Season and that Season is selected; "current" and "selected" being
      what the read's place in the order of arrival gives. */
  lemma AnswersExactly(run: seq<Step>, r: nat, epoch: (string, Context) -> string)
    requires Execute(run, epoch).gate.timeouts == 0 && r in Execute(run, epoch).answers
    ensures var s := Execute(run, epoch);
      var q := s.answers[r].request;
      var now := SerialContext(s.commits, q.user, r);
      s.answers[r].status ==
        if CarriesOther(q.echo, epoch(q.user, now)) then 204
        else if q.season != "" && q.season == now.selection.season then 200
        else 404
  {
    hide Execute, SerialContext, Strip;
    SerialisedByArrival(run, epoch);
    var q := Execute(run, epoch).answers[r].request;
    if q.echo.Some? { BlankIsSpace(q.echo.value, PySpace); }
  }

  /** A read without an epoch, or with a blank one, is judged by the ceiling alone, against the selection its
      arrival earned. */
  lemma NoEpochMeansCeiling(run: seq<Step>, r: nat, epoch: (string, Context) -> string)
    requires Execute(run, epoch).gate.timeouts == 0 && r in Execute(run, epoch).answers
    requires var echo := Execute(run, epoch).answers[r].request.echo; echo.Some? ==> All(echo.value, PySpace)
    ensures var s := Execute(run, epoch);
      var q := s.answers[r].request;
      s.answers[r].status == Ceiling(q.season, SerialContext(s.commits, q.user, r).selection)
  {
    hide Execute, SerialContext;
    AnswersExactly(run, r, epoch);
  }

  /** A context the user has had at some moment of the run. */
  ghost predicate Held(run: seq<Step>, epoch: (string, Context) -> string, user: string, c: Context) {
    exists k: nat :: k <= |run| && ContextOf(Execute(run[..k], epoch), user) == c
  }

  /** No two of the contexts that the user has had share an epoch. */
  ghost predicate TellsApart(run: seq<Step>, epoch: (string, Context) -> string, user: string) {
    forall a, b :: Held(run, epoch, user, a) && Held(run, epoch, user, b) && epoch(user, a) == epoch(user, b) ==> a == b
  }

  lemma HeldLater(run: seq<Step>, epoch: (string, Context) -> string, user: string, c: Context)
    requires run != [] && Held(run[..|run| - 1], epoch, user, c)
    ensures Held(run, epoch, user, c)
  {
    var front := run[..|run| - 1];
    var k: nat :| k <= |front| && ContextOf(Execute(front[..k], epoch), user) == c;
    assert front[..k] == run[..k];
  }

  lemma HeldNow(run: seq<Step>, epoch: (string, Context) -> string, user: string)
    ensures Held(run, epoch, user, ContextOf(Execute(run, epoch), user))
  {
    assert run[..|run|] == run;
  }

  lemma PageBorn(s: Sys, a: Step, epoch: (string, Context) -> string, id: nat)
    requires Enabled(s, a) && id in Apply(s, a, epoch).pages
    ensures var p := Apply(s, a, epoch).pages[id];
      (id in s.pages && p.user == s.pages[id].user && p.born == s.pages[id].born) || p.born == ContextOf(s, p.user)
  {
    hide Blockers, EpochVerdict, IsToken, Ceiling, ContextOf;
  }

  /** A page was born in a context its user has had. */
  lemma {:induction false} PageHeld(run: seq<Step>, epoch: (string, Context) -> string, id: nat)
    requires id in Execute(run, epoch).pages
    ensures var p := Execute(run, epoch).pages[id]; Held(run, epoch, p.user, p.born)
  {
    hide Enabled, Apply, Held, ContextOf;
    var front, a := run[..|run| - 1], run[|run| - 1];
    var s := Execute(front, epoch);
    var p := Execute(run, epoch).pages[id];
    if id in s.pages { PageHeld(front, epoch, id); }
    HeldNow(front, epoch, p.user);
    if Enabled(s, a) { PageBorn(s, a, epoch, id); }
    HeldLater(run, epoch, p.user, p.born);
  }

  /** A read was answered against a context its user has had. */
  lemma {:induction false} AnswerHeld(run: seq<Step>, epoch: (string, Context) -> string, r: nat)
    requires Execute(run, epoch).gate.timeouts == 0 && r in Execute(run, epoch).answers
    ensures var user := Execute(run, epoch).answers[r].request.user;
      Held(run, epoch, user, SerialContext(Execute(run, epoch).commits, user, r))
  {
    hide Enabled, Apply, Held, ContextOf, SerialContext, Tidy, Ordered;
    var front, a := run[..|run| - 1], run[|run| - 1];
    var s := Execute(front, epoch);
    var user := Execute(run, epoch).answers[r].request.user;
    HeldNow(front, epoch, user);
    if Enabled(s, a) {
      ExpiriesOnlyGrow(s, a, epoch);
      RunsAreTidy(front, epoch);
      RunsAreOrdered(front, epoch);
      AnswerGiven(s, a, r, epoch);
    }
    if r in s.answers { AnswerHeld(front, epoch, r); }
    HeldLater(run, epoch, user, SerialContext(Execute(run, epoch).commits, user, r));
  }

  /** In every run without an expired wait, if no two contexts the user has had share an epoch, a read
      rendered under a page never answers 404: 200 while the context is the page's own, 204 after. */
  lemma LateReadNeverRefused(run: seq<Step>, n: nat, id: nat, r: nat, epoch: (string, Context) -> string)
    requires Tokens(epoch) && n <= |run| && Execute(run, epoch).gate.timeouts == 0
    requires id in Execute(run[..n], epoch).pages && r !in Execute(run[..n], epoch).answers
    requires r in Execute(run, epoch).answers
    requires RenderedUnder(Execute(run, epoch).answers[r].request, Execute(run[..n], epoch).pages[id], epoch)
    requires TellsApart(run, epoch, Execute(run[..n], epoch).pages[id].user)
    ensures var s := Execute(run, epoch);
      var page := Execute(run[..n], epoch).pages[id];
      s.answers[r].status == if SerialContext(s.commits, page.user, r) == page.born then 200 else 204
  {
    hide Execute, SerialContext, Held, Tokens;
    var page := Execute(run[..n], epoch).pages[id];
    EpochDiscards(run, n, id, r, epoch);
    AnswerHeld(run, epoch, r);
    PageHeld(run[..n], epoch, id);
    HeldInPrefix(run, n, epoch, page.user, page.born);
  }

  lemma HeldInPrefix(run: seq<Step>, n: nat, epoch: (string, Context) -> string, user: string, c: Context)
    requires n <= |run| && Held(run[..n], epoch, user, c)
    ensures Held(run, epoch, user, c)
  {
    var k: nat :| k <= n && ContextOf(Execute(run[..n][..k], epoch), user) == c;
    assert run[..n][..k] == run[..k];
  }

  /** The exact condition: such a read is refused if and only if its user's context has moved to one with
      another Season that the epoch does not tell from the page's. */
  lemma RefusedExactlyOnCollision(run: seq<Step>, n: nat, id: nat, r: nat, epoch: (string, Context) -> string)
    requires Tokens(epoch) && n <= |run| && Execute(run, epoch).gate.timeouts == 0
    requires id in Execute(run[..n], epoch).pages && r !in Execute(run[..n], epoch).answers
    requires r in Execute(run, epoch).answers
    requires RenderedUnder(Execute(run, epoch).answers[r].request, Execute(run[..n], epoch).pages[id], epoch)
    ensures var s := Execute(run, epoch);
      var page := Execute(run[..n], epoch).pages[id];
      var now := SerialContext(s.commits, page.user, r);
      s.answers[r].status == 404 <==>
        now != page.born && epoch(page.user, now) == epoch(page.user, page.born) &&
        now.selection.season != page.tuple.value.season
  {
    hide Execute, SerialContext, Tokens;
    EpochDiscards(run, n, id, r, epoch);
  }
}
