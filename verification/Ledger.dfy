/** The stateful mock of the transfer service (`MockFusionClient`) and what its counters mean. */
module Ledger {
  import opened Scenarios
  import opened Text

  // ---- whole numbers as Python's `int` reads them ----

  /** Decimal digits, single underscores allowed between them. */
  function IntDigits(s: string): Option<int> {
    if s == "" || !IsDigit(s[|s| - 1]) then None
    else
      var d := s[|s| - 1] as int - '0' as int;
      var front := s[..|s| - 1];
      if front == "" then Some(d)
      else
        var body := if front[|front| - 1] == '_' then front[..|front| - 1] else front;
        match IntDigits(body)
        case None => None
        case Some(v) => Some(10 * v + d)
  }

  /** `int(text)`; `None` stands for the ValueError. */
  function PyInt(text: string): Option<int> {
    var s := PyStrip(text);
    if s != "" && (s[0] == '-' || s[0] == '+') then
      match IntDigits(s[1..])
      case None => None
      case Some(v) => Some(if s[0] == '-' then -v else v)
    else
      match IntDigits(s)
      case None => None
      case Some(v) => Some(v)
  }

  // ---- calls and their outcomes ----

  datatype Params = Params(
    assetId: Json, date: Json, destBook: Json, book: Json, assetNumber: Json,
    locations: seq<string>, expenses: seq<string>)

  datatype Outcome =
    | Info(assetId: string, assetNumber: string, book: string)
    | Success(eventId: int, targetBook: string, crossBook: Option<(string, int)>)
    | Failure(status: string, message: string)
    | Raised(reason: Reason)

  datatype Reason = UnknownHandle | AssetNotFound | MissingField | NoRule | Simulated(text: string) | BadAssetId

  datatype Call = Call(handle: string, params: Params)

  /** An entry of `call_log`: the call and the case id of the scenario that answered it, if any. */
  datatype LogEntry = LogEntry(call: Call, matched: Option<string>)

  type Period = (string, string)

  datatype State = State(periods: map<Period, int>, nextEvent: int)

  const FIRST_EVENT := 90000

  function SecondOrFirst(xs: seq<string>): string {
    if |xs| >= 2 then xs[1] else if |xs| == 1 then xs[0] else ""
  }

  function ParamsKey(p: Params): RuleKey {
    RuleKey(
      PyStrip(OrEmpty(p.assetId)), PyStrip(OrEmpty(p.date)), PyStrip(OrEmpty(Or(p.destBook, p.book))),
      SecondOrFirst(p.locations), SecondOrFirst(p.expenses))
  }

  // ---- which scenario answers: a linear scan over the catalogue ----

  function BookNumber(s: Scenario): (string, string) {
    (PyStr(s.source.bookTypeCode), PyStr(s.source.assetNumber))
  }

  /** The first scenario stored under a book and an asset number. */
  function FirstStored(ss: seq<Scenario>, key: (string, string)): Option<Scenario> {
    if ss == [] then None
    else if BookNumber(ss[0]) == key then Some(ss[0])
    else FirstStored(ss[1..], key)
  }

  /** The last scenario whose whole rule key is `key`. */
  function LastExact(ss: seq<Scenario>, m: EntityMap, key: RuleKey): Option<Scenario> {
    if ss == [] then None
    else if ScenarioKey(ss[|ss| - 1], m) == key then Some(ss[|ss| - 1])
    else LastExact(ss[..|ss| - 1], m, key)
  }

  predicate SameTriple(a: RuleKey, b: RuleKey) {
    a.asset == b.asset && a.date == b.date && a.book == b.book
  }

  /** The first scenario agreeing with `key` on asset, date and book. */
  function FirstTriple(ss: seq<Scenario>, m: EntityMap, key: RuleKey): Option<Scenario> {
    if ss == [] then None
    else if SameTriple(ScenarioKey(ss[0], m), key) then Some(ss[0])
    else FirstTriple(ss[1..], m, key)
  }

  function Rule(ss: seq<Scenario>, m: EntityMap, key: RuleKey): Option<Scenario> {
    if LastExact(ss, m, key).Some? then LastExact(ss, m, key) else FirstTriple(ss, m, key)
  }

  // ---- the effect of one call ----

  function PeriodOf(s: Scenario): Period {
    var date := OrEmpty(s.dff.transferDate);
    (PyStr(s.source.assetId), if |date| > 7 then date[..7] else date)
  }

  function CountIn(periods: map<Period, int>, k: Period): int {
    if k in periods then periods[k] else 0
  }

  predicate Blocked(s: Scenario, st: State) {
    s.simulate.samePeriodBlock && CountIn(st.periods, PeriodOf(s)) > 0
  }

  /** What the scenario simulates, when it is not blocked and raises nothing. */
  function SimulatedStatus(s: Scenario): string {
    Upper(PyStrip(if Truthy(s.simulate.transferStatus) then s.simulate.transferStatus.text else "S"))
  }

  function MessageOr(s: Scenario, default: string): string {
    if Truthy(s.simulate.errorMessage) then s.simulate.errorMessage.text else default
  }

  /** The scenario goes on to book the transfer in state `st`. */
  predicate Books(s: Scenario, st: State) {
    !Blocked(s, st) && !Truthy(s.simulate.raiseError) && SimulatedStatus(s) == "S"
  }

  function TargetBook(s: Scenario, m: EntityMap): string {
    var target := ResolvedTargetBook(s, m);
    if target != "" then target else OrEmpty(s.source.bookTypeCode)
  }

  predicate CrossBook(s: Scenario, m: EntityMap) {
    Upper(PyStrip(TargetBook(s, m))) != Upper(PyStrip(OrEmpty(s.source.bookTypeCode)))
  }

  /** A cross-book answer needs the asset id as a number; converting it comes after the booking. */
  predicate RaisesLate(s: Scenario, m: EntityMap) {
    CrossBook(s, m) && PyInt(PyStr(s.source.assetId)).None?
  }

  function TransferOutcome(s: Scenario, m: EntityMap, st: State): Outcome {
    if Blocked(s, st) then
      Failure("E", MessageOr(s, "Oracle API blocks same-period re-transfer for this asset"))
    else if Truthy(s.simulate.raiseError) then Raised(Simulated(s.simulate.raiseError.text))
    else if SimulatedStatus(s) != "S" then Failure(SimulatedStatus(s), MessageOr(s, "Simulated failure"))
    else if RaisesLate(s, m) then Raised(BadAssetId)
    else
      Success(st.nextEvent + 1, TargetBook(s, m),
        if CrossBook(s, m) then
          Some((if Truthy(s.simulate.mockTargetAssetNumber) then s.simulate.mockTargetAssetNumber.text
                else PyStr(s.source.assetNumber) + "_XFER",
                PyInt(PyStr(s.source.assetId)).value + 100000))
        else None)
  }

  function Booked(st: State, k: Period): State {
    State(st.periods[k := CountIn(st.periods, k) + 1], st.nextEvent + 1)
  }

  /** Reading a missing counter of the source's `defaultdict` creates it with value 0. */
  function Touched(s: Scenario, st: State): State {
    if s.simulate.samePeriodBlock
    then st.(periods := st.periods[PeriodOf(s) := CountIn(st.periods, PeriodOf(s))])
    else st
  }

  function AfterTransfer(s: Scenario, st: State): State {
    if Books(s, st) then Booked(Touched(s, st), PeriodOf(s)) else Touched(s, st)
  }

  predicate IsTransfer(handle: string) {
    handle == "bookTransfer" || handle == "transferAsset"
  }

  /** The scenario that answers a call, if one does. */
  function Answering(ss: seq<Scenario>, m: EntityMap, c: Call): Option<Scenario> {
    if c.handle == "getAssetInformation" then
      FirstStored(ss, (PyStrip(OrEmpty(c.params.book)), PyStrip(OrEmpty(c.params.assetNumber))))
    else if IsTransfer(c.handle) then Rule(ss, m, ParamsKey(c.params))
    else None
  }

  /** The answer needs three keys of the source; reading one that is not there raises. */
  predicate LacksField(s: Scenario) {
    s.source.assetId == Missing || s.source.assetNumber == Missing || s.source.bookTypeCode == Missing
  }

  function OutcomeOf(ss: seq<Scenario>, m: EntityMap, c: Call, st: State): Outcome {
    if c.handle == "getAssetInformation" then
      match Answering(ss, m, c)
      case None => Raised(AssetNotFound)
      case Some(s) =>
        if Truthy(s.simulate.getInfoError) then Raised(Simulated(s.simulate.getInfoError.text))
        else if LacksField(s) then Raised(MissingField)
        else Info(PyStr(s.source.assetId), PyStr(s.source.assetNumber), PyStr(s.source.bookTypeCode))
    else if IsTransfer(c.handle) then
      match Answering(ss, m, c)
      case None => Raised(NoRule)
      case Some(s) => TransferOutcome(s, m, st)
    else Raised(UnknownHandle)
  }

  function Next(ss: seq<Scenario>, m: EntityMap, c: Call, st: State): State {
    if IsTransfer(c.handle) && Answering(ss, m, c).Some? then AfterTransfer(Answering(ss, m, c).value, st) else st
  }

  /** The log names the scenario unless the lookup failed or the information call raised. */
  function Matched(ss: seq<Scenario>, m: EntityMap, c: Call): Option<string> {
    match Answering(ss, m, c)
    case None => None
    case Some(s) =>
      if c.handle == "getAssetInformation" && (Truthy(s.simulate.getInfoError) || LacksField(s)) then None
      else Some(PyStr(s.caseId))
  }

  // ---- the client ----

  class MockFusionClient {
    const entityMap: EntityMap
    ghost const catalogue: seq<Scenario>
    var callLog: seq<LogEntry>
    var assetByBookNumber: map<(string, string), Scenario>
    var rulesByKey: map<RuleKey, Scenario>
    var rulesByTriple: map<(string, string, string), seq<Scenario>>
    var periodTransfers: map<Period, int>
    var nextEvent: int

    ghost function Now(): State
      reads this`periodTransfers, this`nextEvent
    {
      State(periodTransfers, nextEvent)
    }

    /** The indexes agree with a linear scan of the first `n` scenarios. */
    ghost predicate Indexed(n: nat)
      reads this`assetByBookNumber, this`rulesByKey, this`rulesByTriple
      requires n <= |catalogue|
    {
      && (forall k :: FirstStored(catalogue[..n], k) == Lookup(assetByBookNumber, k))
      && (forall k :: LastExact(catalogue[..n], entityMap, k) == Lookup(rulesByKey, k))
      && (forall k ::
          FirstTriple(catalogue[..n], entityMap, k) == FirstListed(rulesByTriple, (k.asset, k.date, k.book)))
      && (forall t :: t in rulesByTriple ==> rulesByTriple[t] != [])
    }

    ghost predicate Valid()
      reads this`assetByBookNumber, this`rulesByKey, this`rulesByTriple
    {
      Indexed(|catalogue|)
    }

    constructor (selected: seq<Scenario>, m: EntityMap)
      ensures Valid() && catalogue == selected && entityMap == m
      ensures Now() == State(map[], 90000) && callLog == []
    {
      entityMap := m;
      catalogue := selected;
      callLog := [];
      assetByBookNumber := map[];
      rulesByKey := map[];
      rulesByTriple := map[];
      periodTransfers := map[];
      nextEvent := FIRST_EVENT;
      new;
      for i := 0 to |selected|
        invariant Indexed(i) && Now() == State(map[], FIRST_EVENT) && callLog == []
      {
        Index(selected[i], i);
      }
      assert selected[..|selected|] == selected;
    }

    method Index(scenario: Scenario, ghost i: nat)
      requires i < |catalogue| && catalogue[i] == scenario && Indexed(i)
      modifies this`assetByBookNumber, this`rulesByKey, this`rulesByTriple
      ensures Indexed(i + 1)
    {
      hide ScenarioKey, BookNumber;
      ghost var before, after := catalogue[..i], catalogue[..i + 1];
      assert after == before + [scenario];
      forall k { FirstStoredSnoc(before, scenario, k); }
      forall k { FirstTripleSnoc(before, scenario, entityMap, k); }
      forall k ensures LastExact(after, entityMap, k)
        == if ScenarioKey(scenario, entityMap) == k then Some(scenario) else LastExact(before, entityMap, k)
      {
        assert after[..|after| - 1] == before;
      }
      var assetKey := BookNumber(scenario);
      if assetKey !in assetByBookNumber {
        assetByBookNumber := assetByBookNumber[assetKey := scenario];
      }
      var key := ScenarioKey(scenario, entityMap);
      rulesByKey := rulesByKey[key := scenario];
      var triple := (key.asset, key.date, key.book);
      rulesByTriple := rulesByTriple[triple :=
        (if triple in rulesByTriple then rulesByTriple[triple] else []) + [scenario]];
    }

    method ProcessTransaction(handle: string, params: Params) returns (outcome: Outcome)
      requires Valid()
      modifies this`callLog, this`periodTransfers, this`nextEvent
      ensures Valid()
      ensures outcome == OutcomeOf(catalogue, entityMap, Call(handle, params), old(Now()))
      ensures Now() == Next(catalogue, entityMap, Call(handle, params), old(Now()))
      ensures callLog == old(callLog)
        + [LogEntry(Call(handle, params), Matched(catalogue, entityMap, Call(handle, params)))]
    {
      hide TransferOutcome, AfterTransfer, Rule, FirstStored, ParamsKey, Indexed;
      callLog := callLog + [LogEntry(Call(handle, params), None)];
      if handle == "getAssetInformation" {
        outcome := MockGetAssetInformation(handle, params);
      } else if handle == "bookTransfer" || handle == "transferAsset" {
        outcome := MockTransfer(handle, params);
      } else {
        outcome := Raised(UnknownHandle);
      }
    }

    method MockGetAssetInformation(handle: string, params: Params) returns (outcome: Outcome)
      requires Valid() && handle == "getAssetInformation"
      requires callLog != [] && callLog[|callLog| - 1] == LogEntry(Call(handle, params), None)
      modifies this`callLog
      ensures outcome == OutcomeOf(catalogue, entityMap, Call(handle, params), Now())
      ensures callLog == old(callLog)[..|old(callLog)| - 1]
        + [LogEntry(Call(handle, params), Matched(catalogue, entityMap, Call(handle, params)))]
    {
      assert catalogue[..|catalogue|] == catalogue;
      var key := (PyStrip(OrEmpty(params.book)), PyStrip(OrEmpty(params.assetNumber)));
      if key !in assetByBookNumber {
        return Raised(AssetNotFound);
      }
      var scenario := assetByBookNumber[key];
      if Truthy(scenario.simulate.getInfoError) {
        return Raised(Simulated(scenario.simulate.getInfoError.text));
      }
      if LacksField(scenario) {
        return Raised(MissingField);
      }
      var src := scenario.source;
      outcome := Info(PyStr(src.assetId), PyStr(src.assetNumber), PyStr(src.bookTypeCode));
      callLog := callLog[|callLog| - 1 := LogEntry(Call(handle, params), Some(PyStr(scenario.caseId)))];
    }

    method MockTransfer(handle: string, params: Params) returns (outcome: Outcome)
      requires Valid() && IsTransfer(handle)
      requires callLog != [] && callLog[|callLog| - 1] == LogEntry(Call(handle, params), None)
      modifies this`callLog, this`periodTransfers, this`nextEvent
      ensures outcome == OutcomeOf(catalogue, entityMap, Call(handle, params), old(Now()))
      ensures Now() == Next(catalogue, entityMap, Call(handle, params), old(Now()))
      ensures callLog == old(callLog)[..|old(callLog)| - 1]
        + [LogEntry(Call(handle, params), Matched(catalogue, entityMap, Call(handle, params)))]
    {
      hide TransferOutcome, AfterTransfer, ParamsKey, LastExact, FirstTriple;
      assert catalogue[..|catalogue|] == catalogue;
      var key := ParamsKey(params);
      var triple := (key.asset, key.date, key.book);
      if key !in rulesByKey && triple !in rulesByTriple {
        return Raised(NoRule);
      }
      var scenario := if key in rulesByKey then rulesByKey[key] else rulesByTriple[triple][0];
      callLog := callLog[|callLog| - 1 := LogEntry(Call(handle, params), Some(PyStr(scenario.caseId)))];
      outcome := Transfer(scenario);
    }

    method Transfer(scenario: Scenario) returns (outcome: Outcome)
      modifies this`periodTransfers, this`nextEvent
      ensures outcome == TransferOutcome(scenario, entityMap, old(Now()))
      ensures Now() == AfterTransfer(scenario, old(Now()))
    {
      hide CrossBook, TargetBook, SimulatedStatus, PyInt, PeriodOf, MessageOr;
      var period := PeriodOf(scenario);
      if scenario.simulate.samePeriodBlock {
        periodTransfers := periodTransfers[period := if period in periodTransfers then periodTransfers[period] else 0];
        if periodTransfers[period] > 0 {
          return Failure("E", MessageOr(scenario, "Oracle API blocks same-period re-transfer for this asset"));
        }
      }
      if Truthy(scenario.simulate.raiseError) {
        return Raised(Simulated(scenario.simulate.raiseError.text));
      }
      var status := SimulatedStatus(scenario);
      if status != "S" {
        return Failure(status, MessageOr(scenario, "Simulated failure"));
      }
      var count := if period in periodTransfers then periodTransfers[period] else 0;
      periodTransfers := periodTransfers[period := count + 1];
      nextEvent := nextEvent + 1;
      var targetBook := TargetBook(scenario, entityMap);
      if !CrossBook(scenario, entityMap) {
        return Success(nextEvent, targetBook, None);
      }
      var number := if Truthy(scenario.simulate.mockTargetAssetNumber) then scenario.simulate.mockTargetAssetNumber.text
                    else PyStr(scenario.source.assetNumber) + "_XFER";
      match PyInt(PyStr(scenario.source.assetId))
      case None => return Raised(BadAssetId);
      case Some(id) => return Success(nextEvent, targetBook, Some((number, id + 100000)));
    }
  }

  function Lookup<K, V>(m: map<K, V>, k: K): Option<V> {
    if k in m then Some(m[k]) else None
  }

  function FirstListed<K, V>(m: map<K, seq<V>>, k: K): Option<V> {
    if k in m && m[k] != [] then Some(m[k][0]) else None
  }

  lemma {:induction false} FirstStoredSnoc(ss: seq<Scenario>, x: Scenario, k: (string, string))
    ensures FirstStored(ss + [x], k)
      == if FirstStored(ss, k).Some? then FirstStored(ss, k) else if BookNumber(x) == k then Some(x) else None
  {
    if ss != [] {
      assert (ss + [x])[1..] == ss[1..] + [x];
      FirstStoredSnoc(ss[1..], x, k);
    }
  }

  lemma {:induction false} FirstTripleSnoc(ss: seq<Scenario>, x: Scenario, m: EntityMap, k: RuleKey)
    ensures FirstTriple(ss + [x], m, k)
      == if FirstTriple(ss, m, k).Some? then FirstTriple(ss, m, k)
         else if SameTriple(ScenarioKey(x, m), k) then Some(x) else None
  {
    if ss != [] {
      assert (ss + [x])[1..] == ss[1..] + [x];
      FirstTripleSnoc(ss[1..], x, m, k);
    }
  }

  // ---- whole runs ----

  function RunState(ss: seq<Scenario>, m: EntityMap, calls: seq<Call>): State {
    if calls == [] then State(map[], FIRST_EVENT)
    else Next(ss, m, calls[|calls| - 1], RunState(ss, m, calls[..|calls| - 1]))
  }

  /** What call number `i` of a run answers. */
  function RunOutcome(ss: seq<Scenario>, m: EntityMap, calls: seq<Call>, i: nat): Outcome
    requires i < |calls|
  {
    OutcomeOf(ss, m, calls[i], RunState(ss, m, calls[..i]))
  }

  /** Call `c`, made in state `st`, is answered by a scenario of period `k` that books it. */
  predicate BooksIn(ss: seq<Scenario>, m: EntityMap, c: Call, st: State, k: Period) {
    IsTransfer(c.handle) && Answering(ss, m, c).Some? &&
    var s := Answering(ss, m, c).value;
    Books(s, st) && PeriodOf(s) == k
  }

  predicate IsBooking(ss: seq<Scenario>, m: EntityMap, c: Call, st: State) {
    IsTransfer(c.handle) && Answering(ss, m, c).Some? && Books(Answering(ss, m, c).value, st)
  }

  /** The bookings of a run, and those for one asset and month. */
  function Bookings(ss: seq<Scenario>, m: EntityMap, calls: seq<Call>): nat {
    if calls == [] then 0
    else
      var front := calls[..|calls| - 1];
      Bookings(ss, m, front) + if IsBooking(ss, m, calls[|calls| - 1], RunState(ss, m, front)) then 1 else 0
  }

  function BookingsIn(ss: seq<Scenario>, m: EntityMap, calls: seq<Call>, k: Period): nat {
    if calls == [] then 0
    else
      var front := calls[..|calls| - 1];
      BookingsIn(ss, m, front, k) + if BooksIn(ss, m, calls[|calls| - 1], RunState(ss, m, front), k) then 1 else 0
  }

  /** The responses of a run that report success, and those lost to an unreadable asset id. */
  function Successes(ss: seq<Scenario>, m: EntityMap, calls: seq<Call>): nat {
    if calls == [] then 0
    else
      Successes(ss, m, calls[..|calls| - 1]) + (if RunOutcome(ss, m, calls, |calls| - 1).Success? then 1 else 0)
  }

  function Lost(ss: seq<Scenario>, m: EntityMap, calls: seq<Call>): nat {
    if calls == [] then 0
    else
      Lost(ss, m, calls[..|calls| - 1]) + (if RunOutcome(ss, m, calls, |calls| - 1) == Raised(BadAssetId) then 1 else 0)
  }

  // ---- the sum of the counters ----

  ghost function Pick(m: map<Period, int>): Period
    requires |m| != 0
    ensures Pick(m) in m
  {
    var k :| k in m; k
  }

  ghost function Total(m: map<Period, int>): int
    decreases |m|
  {
    if |m| == 0 then 0 else m[Pick(m)] + Total(m - {Pick(m)})
  }

  lemma TotalRemove(m: map<Period, int>, k: Period)
    requires k in m
    ensures Total(m) == m[k] + Total(m - {k})
    decreases |m|
  {
    var c := Pick(m);
    if c != k {
      TotalRemove(m - {c}, k);
      TotalRemove(m - {k}, c);
      assert m - {c} - {k} == m - {k} - {c};
    }
  }

  lemma TotalUpdate(m: map<Period, int>, k: Period, v: int)
    ensures Total(m[k := v]) == Total(m) - CountIn(m, k) + v
  {
    TotalRemove(m[k := v], k);
    if k in m {
      TotalRemove(m, k);
      assert m[k := v] - {k} == m - {k};
    } else {
      assert m[k := v] - {k} == m;
    }
  }

  // ---- one call ----

  /** A call moves the counters by exactly one booking, or not at all. */
  lemma NextCounts(ss: seq<Scenario>, m: EntityMap, c: Call, st: State, k: Period)
    ensures var st' := Next(ss, m, c, st);
      && st'.nextEvent == st.nextEvent + (if IsBooking(ss, m, c, st) then 1 else 0)
      && Total(st'.periods) == Total(st.periods) + (if IsBooking(ss, m, c, st) then 1 else 0)
      && CountIn(st'.periods, k) == CountIn(st.periods, k) + (if BooksIn(ss, m, c, st, k) then 1 else 0)
  {
    hide Answering, Books, PeriodOf, Total;
    if IsTransfer(c.handle) && Answering(ss, m, c).Some? {
      var s := Answering(ss, m, c).value;
      TotalUpdate(st.periods, PeriodOf(s), CountIn(st.periods, PeriodOf(s)));
      var t := Touched(s, st);
      assert Total(t.periods) == Total(st.periods);
      assert CountIn(t.periods, PeriodOf(s)) == CountIn(st.periods, PeriodOf(s));
      TotalUpdate(t.periods, PeriodOf(s), CountIn(t.periods, PeriodOf(s)) + 1);
    }
  }

  /** Only a success, or the late failure on an unreadable asset id, follows a booking. */
  lemma BookingOutcome(ss: seq<Scenario>, m: EntityMap, c: Call, st: State)
    ensures IsBooking(ss, m, c, st) <==>
      OutcomeOf(ss, m, c, st).Success? || OutcomeOf(ss, m, c, st) == Raised(BadAssetId)
    ensures OutcomeOf(ss, m, c, st).Success? ==> OutcomeOf(ss, m, c, st).eventId == Next(ss, m, c, st).nextEvent
  {
    hide Answering, CrossBook, TargetBook, SimulatedStatus, PyInt, PeriodOf, MessageOr;
  }

  /** A call leaves the period counters and the event counter alone exactly when it neither succeeds
      nor fails on an unreadable asset id: blocked, failed and otherwise raising calls book nothing. */
  lemma FailuresBookNothing(ss: seq<Scenario>, m: EntityMap, c: Call, st: State)
    ensures
      (Next(ss, m, c, st).nextEvent == st.nextEvent &&
       forall k :: CountIn(Next(ss, m, c, st).periods, k) == CountIn(st.periods, k))
      <==> !(OutcomeOf(ss, m, c, st).Success? || OutcomeOf(ss, m, c, st) == Raised(BadAssetId))
  {
    hide Answering, Books, PeriodOf, Total, Next, OutcomeOf, BooksIn, IsBooking;
    BookingOutcome(ss, m, c, st);
    forall k
      ensures BooksIn(ss, m, c, st, k) ==> IsBooking(ss, m, c, st)
      ensures CountIn(Next(ss, m, c, st).periods, k)
        == CountIn(st.periods, k) + (if BooksIn(ss, m, c, st, k) then 1 else 0)
    {
      if BooksIn(ss, m, c, st, k) { BooksInBooks(ss, m, c, st, k); }
      NextCounts(ss, m, c, st, k);
    }
    NextCounts(ss, m, c, st, ("", ""));
  }

  lemma BooksInBooks(ss: seq<Scenario>, m: EntityMap, c: Call, st: State, k: Period)
    requires BooksIn(ss, m, c, st, k)
    ensures IsBooking(ss, m, c, st)
  {
  }

  /** The one answer that raises after the counters have moved: the answering scenario books a cross-book
      transfer for an asset id that `int` rejects. */
  lemma LateFailureExactly(ss: seq<Scenario>, m: EntityMap, c: Call, st: State)
    ensures OutcomeOf(ss, m, c, st) == Raised(BadAssetId) <==>
      IsTransfer(c.handle) && Answering(ss, m, c).Some? &&
      Books(Answering(ss, m, c).value, st) && RaisesLate(Answering(ss, m, c).value, m)
    ensures OutcomeOf(ss, m, c, st) == Raised(BadAssetId) ==> Next(ss, m, c, st).nextEvent == st.nextEvent + 1
  {
    hide Answering, CrossBook, TargetBook, SimulatedStatus, PyInt, PeriodOf, MessageOr;
  }

  // ---- the indexes, position by position ----

  /** Position `i` answers `key`: the last exact match or, when nothing matches exactly, the first that
      agrees on asset, date and book. */
  ghost predicate AnswersKey(ss: seq<Scenario>, m: EntityMap, key: RuleKey, i: nat) {
    i < |ss| &&
    if exists j :: 0 <= j < |ss| && ScenarioKey(ss[j], m) == key then
      ScenarioKey(ss[i], m) == key && forall j :: i < j < |ss| ==> ScenarioKey(ss[j], m) != key
    else
      SameTriple(ScenarioKey(ss[i], m), key) && forall j :: 0 <= j < i ==> !SameTriple(ScenarioKey(ss[j], m), key)
  }

  lemma RuleByPosition(ss: seq<Scenario>, m: EntityMap, key: RuleKey)
    ensures Rule(ss, m, key).Some? <==> exists i: nat :: AnswersKey(ss, m, key, i)
    ensures forall i: nat :: AnswersKey(ss, m, key, i) ==> Rule(ss, m, key) == Some(ss[i])
  {
    hide ScenarioKey;
    var a := LastExactAt(ss, m, key);
    var b := FirstTripleAt(ss, m, key);
    if LastExact(ss, m, key).Some? {
      assert AnswersKey(ss, m, key, a);
    } else if FirstTriple(ss, m, key).Some? {
      assert AnswersKey(ss, m, key, b);
    }
  }

  lemma {:induction false} LastExactAt(ss: seq<Scenario>, m: EntityMap, key: RuleKey) returns (i: nat)
    ensures LastExact(ss, m, key).Some? ==>
      i < |ss| && LastExact(ss, m, key) == Some(ss[i]) && ScenarioKey(ss[i], m) == key
    ensures LastExact(ss, m, key).Some? ==> forall j :: i < j < |ss| ==> ScenarioKey(ss[j], m) != key
    ensures LastExact(ss, m, key).None? ==> forall j :: 0 <= j < |ss| ==> ScenarioKey(ss[j], m) != key
  {
    hide ScenarioKey;
    i := 0;
    if ss != [] {
      var n := |ss| - 1;
      i := LastExactAt(ss[..n], m, key);
      assert forall j :: 0 <= j < n ==> ss[..n][j] == ss[j];
      if ScenarioKey(ss[n], m) == key { i := n; }
    }
  }

  lemma {:induction false} FirstTripleAt(ss: seq<Scenario>, m: EntityMap, key: RuleKey) returns (i: nat)
    ensures FirstTriple(ss, m, key).Some? ==>
      i < |ss| && FirstTriple(ss, m, key) == Some(ss[i]) && SameTriple(ScenarioKey(ss[i], m), key)
    ensures FirstTriple(ss, m, key).Some? ==> forall j :: 0 <= j < i ==> !SameTriple(ScenarioKey(ss[j], m), key)
    ensures FirstTriple(ss, m, key).None? ==> forall j :: 0 <= j < |ss| ==> !SameTriple(ScenarioKey(ss[j], m), key)
  {
    hide ScenarioKey, SameTriple;
    i := 0;
    if ss != [] && !SameTriple(ScenarioKey(ss[0], m), key) {
      var rest := FirstTripleAt(ss[1..], m, key);
      i := rest + 1;
      forall j | 1 <= j < |ss| ensures ss[j] == ss[1..][j - 1] { }
    }
  }

  lemma {:induction false} StoredByPosition(ss: seq<Scenario>, key: (string, string), i: nat)
    ensures FirstStored(ss, key).None? <==> forall j :: 0 <= j < |ss| ==> BookNumber(ss[j]) != key
    ensures i < |ss| && BookNumber(ss[i]) == key && (forall j :: 0 <= j < i ==> BookNumber(ss[j]) != key) ==>
      FirstStored(ss, key) == Some(ss[i])
  {
    hide BookNumber;
    if ss != [] && BookNumber(ss[0]) != key {
      StoredByPosition(ss[1..], key, if i > 0 then i - 1 else 0);
      forall j | 1 <= j < |ss| ensures ss[j] == ss[1..][j - 1] { }
      assert forall j :: 0 <= j < |ss[1..]| ==> ss[1..][j] == ss[j + 1];
    }
  }

  // ---- every run ----

  /** The sum of all period counters, the events issued and the bookings made always agree. */
  lemma {:induction false} CountersConserved(ss: seq<Scenario>, m: EntityMap, calls: seq<Call>, k: Period)
    ensures var st := RunState(ss, m, calls);
      && Total(st.periods) == st.nextEvent - 90000 == Bookings(ss, m, calls)
      && CountIn(st.periods, k) == BookingsIn(ss, m, calls, k)
  {
    hide Next, IsBooking, BooksIn;
    if calls != [] {
      var front := calls[..|calls| - 1];
      CountersConserved(ss, m, front, k);
      NextCounts(ss, m, calls[|calls| - 1], RunState(ss, m, front), k);
    }
  }

  lemma {:induction false} BookingsAreAnswers(ss: seq<Scenario>, m: EntityMap, calls: seq<Call>)
    ensures Bookings(ss, m, calls) == Successes(ss, m, calls) + Lost(ss, m, calls)
  {
    hide Next, IsBooking, OutcomeOf;
    if calls != [] {
      var front := calls[..|calls| - 1];
      BookingsAreAnswers(ss, m, front);
      BookingOutcome(ss, m, calls[|calls| - 1], RunState(ss, m, front));
    }
  }

  /** The counters equal the success responses exactly when no booking was lost to an asset id that
      `int` rejects; they always equal those two together. */
  lemma LedgerConservation(ss: seq<Scenario>, m: EntityMap, calls: seq<Call>)
    ensures var st := RunState(ss, m, calls);
      && Total(st.periods) == st.nextEvent - 90000 == Successes(ss, m, calls) + Lost(ss, m, calls)
      && (Total(st.periods) == Successes(ss, m, calls) <==> Lost(ss, m, calls) == 0)
  {
    CountersConserved(ss, m, calls, ("", ""));
    BookingsAreAnswers(ss, m, calls);
  }

  lemma {:induction false} NumericIdsLoseNothing(ss: seq<Scenario>, m: EntityMap, calls: seq<Call>)
    requires forall s :: s in ss ==> PyInt(PyStr(s.source.assetId)).Some?
    ensures Lost(ss, m, calls) == 0
  {
    hide PyInt, RunState;
    if calls != [] {
      NumericIdsLoseNothing(ss, m, calls[..|calls| - 1]);
      var c, st := calls[|calls| - 1], RunState(ss, m, calls[..|calls| - 1]);
      NumericIdNeverLate(ss, m, c, st);
    }
  }

  /** Answering a transfer, the scenario would book it and then fail on the asset id. */
  predicate LosesAnswers(s: Scenario, m: EntityMap) {
    !Truthy(s.simulate.raiseError) && SimulatedStatus(s) == "S" && RaisesLate(s, m)
  }

  lemma {:induction false} NothingLost(ss: seq<Scenario>, m: EntityMap, calls: seq<Call>)
    requires forall p :: Rule(ss, m, ParamsKey(p)).Some? ==> !LosesAnswers(Rule(ss, m, ParamsKey(p)).value, m)
    ensures Lost(ss, m, calls) == 0
  {
    hide OutcomeOf, RunState, RaisesLate, SimulatedStatus, Rule, ParamsKey;
    if calls != [] {
      var c, st := calls[|calls| - 1], RunState(ss, m, calls[..|calls| - 1]);
      NothingLost(ss, m, calls[..|calls| - 1]);
      LateFailureExactly(ss, m, c, st);
      if IsTransfer(c.handle) { assert Answering(ss, m, c) == Rule(ss, m, ParamsKey(c.params)); }
    }
  }

  lemma OneCallLoses(ss: seq<Scenario>, m: EntityMap, p: Params)
    requires Rule(ss, m, ParamsKey(p)).Some? && LosesAnswers(Rule(ss, m, ParamsKey(p)).value, m)
    ensures Lost(ss, m, [Call("bookTransfer", p)]) == 1
  {
    hide OutcomeOf, RaisesLate, SimulatedStatus, Rule, ParamsKey;
    var c := Call("bookTransfer", p);
    var calls := [c];
    assert calls[..0] == [];
    assert RunState(ss, m, []) == State(map[], FIRST_EVENT);
    LateFailureExactly(ss, m, c, State(map[], FIRST_EVENT));
    assert RunOutcome(ss, m, calls, 0) == Raised(BadAssetId);
    assert Lost(ss, m, calls[..0]) == 0;
  }

  /** After this run the counters equal the success answers. */
  ghost predicate Kept(ss: seq<Scenario>, m: EntityMap, calls: seq<Call>) {
    Total(RunState(ss, m, calls).periods) == Successes(ss, m, calls)
  }

  lemma KeptUnlessLost(ss: seq<Scenario>, m: EntityMap, calls: seq<Call>)
    ensures Kept(ss, m, calls) <==> Lost(ss, m, calls) == 0
  {
    hide RunState, Successes, Lost, Total;
    LedgerConservation(ss, m, calls);
  }

  /** The counters equal the success answers after every run if and only if no scenario that some transfer
      reaches books its transfer and then fails on its asset id. */
  lemma CatalogueKeepsLedger(ss: seq<Scenario>, m: EntityMap)
    ensures (forall calls :: Kept(ss, m, calls)) <==>
      forall p :: Rule(ss, m, ParamsKey(p)).Some? ==> !LosesAnswers(Rule(ss, m, ParamsKey(p)).value, m)
  {
    hide Kept, Lost, Rule, ParamsKey, LosesAnswers;
    if p :| Rule(ss, m, ParamsKey(p)).Some? && LosesAnswers(Rule(ss, m, ParamsKey(p)).value, m) {
      OneCallLoses(ss, m, p);
      KeptUnlessLost(ss, m, [Call("bookTransfer", p)]);
      assert !Kept(ss, m, [Call("bookTransfer", p)]);
    } else {
      forall calls ensures Kept(ss, m, calls) {
        NothingLost(ss, m, calls);
        KeptUnlessLost(ss, m, calls);
      }
    }
  }

  // ---- a catalogue that loses an answer ----

  /** A cross-book scenario whose asset id `int` rejects. */
  const Lossy := Scenario(
    Str("C1"), Missing, Unset, Source(Str("A1"), Str("N1"), Str("B1"), []),
    Dff(Missing, Str("2024-01-05"), Missing, Str("B2"), Missing, Missing, Missing, []),
    Simulate(Missing, false, Missing, Missing, Missing, Missing))

  const LossyCall := Call("bookTransfer", Params(Str("A1"), Str("2024-01-05"), Str("B2"), Missing, Missing, [], []))

  lemma Stripped(s: string)
    requires s != "" && !PySpace(s[0]) && !PySpace(s[|s| - 1])
    ensures PyStrip(s) == s
  {
    StripOfTrimmed(s, PySpace);
  }

  lemma LossyIsReached()
    ensures Answering([Lossy], map[], LossyCall) == Some(Lossy)
  {
    hide Strip;
    Stripped("B2");
    StripSpaces("", PySpace);
    assert ScenarioKey(Lossy, map[]) == ParamsKey(LossyCall.params);
    assert LastExact([Lossy], map[], ParamsKey(LossyCall.params)) == Some(Lossy);
  }

  lemma LossyRaisesLate()
    ensures LosesAnswers(Lossy, map[])
  {
    hide Strip;
    Stripped("B1");
    Stripped("B2");
    Stripped("S");
    Stripped("A1");
    assert Upper("B1")[1] == '1' && Upper("B2")[1] == '2';
    assert Upper("S") == "S";
    assert "A1"[..1] == "A" && IntDigits("A") == None;
    assert IntDigits("A1") == None;
  }

  /** The counters move and the caller is told of a failure. */
  lemma LossyCatalogue()
    ensures var start := State(map[], FIRST_EVENT);
      && OutcomeOf([Lossy], map[], LossyCall, start) == Raised(BadAssetId)
      && Next([Lossy], map[], LossyCall, start).nextEvent == FIRST_EVENT + 1
  {
    hide RaisesLate, SimulatedStatus, Answering, OutcomeOf, Next;
    LossyIsReached();
    LossyRaisesLate();
    LateFailureExactly([Lossy], map[], LossyCall, State(map[], FIRST_EVENT));
  }

  lemma NumericIdNeverLate(ss: seq<Scenario>, m: EntityMap, c: Call, st: State)
    requires forall s :: s in ss ==> PyInt(PyStr(s.source.assetId)).Some?
    ensures OutcomeOf(ss, m, c, st) != Raised(BadAssetId)
  {
    hide PyInt, CrossBook, Books, Blocked, SimulatedStatus, MessageOr, TargetBook, LastExact, FirstTriple;
    if IsTransfer(c.handle) && Answering(ss, m, c).Some? {
      RuleIsCatalogued(ss, m, ParamsKey(c.params));
    }
  }

  lemma {:induction false} LastExactIsCatalogued(ss: seq<Scenario>, m: EntityMap, key: RuleKey)
    ensures LastExact(ss, m, key).Some? ==> LastExact(ss, m, key).value in ss
  {
    hide ScenarioKey;
    if ss != [] { LastExactIsCatalogued(ss[..|ss| - 1], m, key); }
  }

  lemma {:induction false} FirstTripleIsCatalogued(ss: seq<Scenario>, m: EntityMap, key: RuleKey)
    ensures FirstTriple(ss, m, key).Some? ==> FirstTriple(ss, m, key).value in ss
  {
    hide ScenarioKey;
    if ss != [] { FirstTripleIsCatalogued(ss[1..], m, key); }
  }

  lemma RuleIsCatalogued(ss: seq<Scenario>, m: EntityMap, key: RuleKey)
    ensures Rule(ss, m, key).Some? ==> Rule(ss, m, key).value in ss
  {
    LastExactIsCatalogued(ss, m, key);
    FirstTripleIsCatalogued(ss, m, key);
  }

  /** Event ids strictly increase along any run. */
  lemma EventIdsIncrease(ss: seq<Scenario>, m: EntityMap, calls: seq<Call>, i: nat, j: nat)
    requires i < j < |calls|
    requires RunOutcome(ss, m, calls, i).Success? && RunOutcome(ss, m, calls, j).Success?
    ensures 90000 < RunOutcome(ss, m, calls, i).eventId < RunOutcome(ss, m, calls, j).eventId
  {
    hide Next, IsBooking, OutcomeOf, RunState;
    EventNumber(ss, m, calls, i);
    EventNumber(ss, m, calls, j);
    BookingsGrow(ss, m, calls, i + 1, j);
  }

  /** The event id of a success counts the bookings up to and including it. */
  lemma EventNumber(ss: seq<Scenario>, m: EntityMap, calls: seq<Call>, i: nat)
    requires i < |calls| && RunOutcome(ss, m, calls, i).Success?
    ensures RunOutcome(ss, m, calls, i).eventId == 90000 + Bookings(ss, m, calls[..i + 1])
    ensures Bookings(ss, m, calls[..i + 1]) == Bookings(ss, m, calls[..i]) + 1
  {
    hide Next, IsBooking, OutcomeOf;
    var now := calls[..i + 1];
    assert now[|now| - 1] == calls[i] && now[..|now| - 1] == calls[..i];
    CountersConserved(ss, m, now, ("", ""));
    BookingOutcome(ss, m, calls[i], RunState(ss, m, calls[..i]));
  }

  lemma {:induction false} BookingsGrow(ss: seq<Scenario>, m: EntityMap, calls: seq<Call>, i: nat, j: nat)
    requires i <= j <= |calls|
    ensures Bookings(ss, m, calls[..i]) <= Bookings(ss, m, calls[..j])
  {
    hide IsBooking, RunState;
    if i < j {
      BookingsGrow(ss, m, calls, i, j - 1);
      assert calls[..j][..j - 1] == calls[..j - 1];
    }
  }

  // ---- the same-period block ----

  /** A booking by a flagged scenario is the first booking of its asset and month. */
  lemma FlaggedBooksFirst(ss: seq<Scenario>, m: EntityMap, calls: seq<Call>, i: nat)
    requires i < |calls| && RunOutcome(ss, m, calls, i).Success?
    requires Answering(ss, m, calls[i]).Some? && Answering(ss, m, calls[i]).value.simulate.samePeriodBlock
    ensures BookingsIn(ss, m, calls[..i], PeriodOf(Answering(ss, m, calls[i]).value)) == 0
  {
    hide Next, PeriodOf, BookingsIn, Answering, SimulatedStatus, CrossBook, MessageOr, TargetBook;
    var k := PeriodOf(Answering(ss, m, calls[i]).value);
    CountersConserved(ss, m, calls[..i], k);
  }

  /** Every scenario of an asset and month carries the flag. */
  ghost predicate AllFlagged(ss: seq<Scenario>, k: Period) {
    forall s :: s in ss && PeriodOf(s) == k ==> s.simulate.samePeriodBlock
  }

  lemma {:induction false} NeverTwiceWhenFlagged(ss: seq<Scenario>, m: EntityMap, calls: seq<Call>, k: Period)
    requires AllFlagged(ss, k)
    ensures CountIn(RunState(ss, m, calls).periods, k) == BookingsIn(ss, m, calls, k) <= 1
  {
    hide Next, PeriodOf, Rule, ParamsKey, SimulatedStatus;
    CountersConserved(ss, m, calls, k);
    if calls != [] {
      var front, c := calls[..|calls| - 1], calls[|calls| - 1];
      NeverTwiceWhenFlagged(ss, m, front, k);
      if BooksIn(ss, m, c, RunState(ss, m, front), k) {
        RuleIsCatalogued(ss, m, ParamsKey(c.params));
      }
    }
  }
}
