/** What the mock transfer service answers, read off the scenarios, the parameters and the earlier answers. */
module LedgerAnswers {
  import opened Ledger
  import opened Scenarios
  import opened Text

  // ---- periods ----

  /** Two dates agree up to the month: they are equal, or their first seven characters are. */
  predicate SameMonth(d: string, e: string) {
    d == e || (|d| >= 7 && |e| >= 7 && d[..7] == e[..7])
  }

  /** The two scenarios read the same asset id and dates of the same month. */
  ghost predicate SamePeriod(x: Scenario, y: Scenario) {
    exists a, d, e ::
      ReadsAs(x.source.assetId, a) && ReadsAs(y.source.assetId, a) &&
      Shows(x.dff.transferDate, d) && Shows(y.dff.transferDate, e) && SameMonth(d, e)
  }

  lemma PeriodsAgree(x: Scenario, y: Scenario)
    ensures PeriodOf(x) == PeriodOf(y) <==> SamePeriod(x, y)
  {
    hide SameMonth;
    var a, b := PyStr(x.source.assetId), PyStr(y.source.assetId);
    var d, e := OrEmpty(x.dff.transferDate), OrEmpty(y.dff.transferDate);
    CutsAgree(d, e);
    FieldTexts(x.source.assetId, a);
    FieldTexts(y.source.assetId, a);
    FieldTexts(x.dff.transferDate, d);
    FieldTexts(y.dff.transferDate, e);
    forall t ensures ReadsAs(x.source.assetId, t) ==> t == a { FieldTexts(x.source.assetId, t); }
    forall t ensures ReadsAs(y.source.assetId, t) ==> t == b { FieldTexts(y.source.assetId, t); }
    forall t ensures Shows(x.dff.transferDate, t) ==> t == d { FieldTexts(x.dff.transferDate, t); }
    forall t ensures Shows(y.dff.transferDate, t) ==> t == e { FieldTexts(y.dff.transferDate, t); }
  }

  lemma CutsAgree(d: string, e: string)
    ensures (if |d| > 7 then d[..7] else d) == (if |e| > 7 then e[..7] else e) <==> SameMonth(d, e)
  {
    assert |d| == 7 ==> d[..7] == d;
    assert |e| == 7 ==> e[..7] == e;
  }

  /** Scenarios dated year, month and day share a period if and only if asset id, year and month agree. */
  lemma SamePeriodExactly(x: Scenario, a: string, year: string, month: string, day: string,
                          y: Scenario, a': string, year': string, month': string, day': string)
    requires ReadsAs(x.source.assetId, a) && x.dff.transferDate == Str(year + "-" + month + "-" + day)
    requires ReadsAs(y.source.assetId, a') && y.dff.transferDate == Str(year' + "-" + month' + "-" + day')
    requires |year| == |year'| == 4 && |month| == |month'| == 2
    ensures PeriodOf(x) == PeriodOf(y) <==> a == a' && year == year' && month == month'
  {
    FieldTexts(x.source.assetId, a);
    FieldTexts(y.source.assetId, a');
    MonthOf(year, month, day);
    MonthOf(year', month', day');
    var d, d' := year + "-" + month, year' + "-" + month';
    assert d[..4] == year && d'[..4] == year' && d[5..] == month && d'[5..] == month';
  }

  lemma MonthOf(year: string, month: string, day: string)
    requires |year| == 4 && |month| == 2
    ensures (year + "-" + month + "-" + day)[..7] == year + "-" + month
  {
  }

  // ---- the same-period block over runs ----

  /** Call `j` of the run moved the counters: it asked for a transfer and was answered by a success, or by the
      failure that comes after the booking. */
  predicate BookedAt(ss: seq<Scenario>, m: EntityMap, calls: seq<Call>, j: nat) {
    && j < |calls| && calls[j].handle in {"bookTransfer", "transferAsset"}
    && (RunOutcome(ss, m, calls, j).Success? || RunOutcome(ss, m, calls, j) == Raised(BadAssetId))
  }

  lemma BookedIsBooking(ss: seq<Scenario>, m: EntityMap, calls: seq<Call>, j: nat, k: Period)
    requires j < |calls|
    ensures BooksIn(ss, m, calls[j], RunState(ss, m, calls[..j]), k) <==>
      BookedAt(ss, m, calls, j) && Answering(ss, m, calls[j]).Some? && PeriodOf(Answering(ss, m, calls[j]).value) == k
  {
    hide Answering, Books, PeriodOf, RunState, OutcomeOf;
    BookingOutcome(ss, m, calls[j], RunState(ss, m, calls[..j]));
  }

  lemma {:induction false} SomeBooking(ss: seq<Scenario>, m: EntityMap, calls: seq<Call>, k: Period)
    ensures BookingsIn(ss, m, calls, k) > 0 <==>
      exists j: nat :: j < |calls| && BooksIn(ss, m, calls[j], RunState(ss, m, calls[..j]), k)
  {
    hide BooksIn, RunState;
    if calls != [] {
      var n := |calls| - 1;
      var front := calls[..n];
      SomeBooking(ss, m, front, k);
      assert forall j: nat :: j < n ==> front[j] == calls[j] && front[..j] == calls[..j];
    }
  }

  /** Something was booked before call `i` for the asset and month of `x`. */
  ghost predicate BookedBefore(ss: seq<Scenario>, m: EntityMap, calls: seq<Call>, i: nat, x: Scenario) {
    exists j: nat :: j < i && BookedAt(ss, m, calls, j) &&
      Answering(ss, m, calls[j]).Some? && SamePeriod(Answering(ss, m, calls[j]).value, x)
  }

  lemma CountedBefore(ss: seq<Scenario>, m: EntityMap, calls: seq<Call>, i: nat, x: Scenario)
    requires i < |calls|
    ensures CountIn(RunState(ss, m, calls[..i]).periods, PeriodOf(x)) > 0 <==> BookedBefore(ss, m, calls, i, x)
  {
    hide BooksIn, PeriodOf, RunState, Answering, BookedAt, SamePeriod, BookingsIn, OutcomeOf;
    var front := calls[..i];
    var k := PeriodOf(x);
    CountersConserved(ss, m, front, k);
    SomeBooking(ss, m, front, k);
    forall j: nat | j < i
      ensures BooksIn(ss, m, front[j], RunState(ss, m, front[..j]), k) <==>
        BookedAt(ss, m, calls, j) && Answering(ss, m, calls[j]).Some? && SamePeriod(Answering(ss, m, calls[j]).value, x)
    {
      assert front[j] == calls[j] && front[..j] == calls[..j];
      BookedIsBooking(ss, m, calls, j, k);
      if Answering(ss, m, calls[j]).Some? { PeriodsAgree(Answering(ss, m, calls[j]).value, x); }
    }
  }

  /** In every run a transfer whose scenario is flagged against same-period re-transfers is blocked if and only
      if an earlier call of the run booked for the same asset and month; otherwise it is answered as if it
      carried no flag. Bookings of other assets and other months never block it. */
  lemma BlockedExactly(ss: seq<Scenario>, m: EntityMap, calls: seq<Call>, i: nat, x: Scenario)
    requires i < |calls| && calls[i].handle in {"bookTransfer", "transferAsset"}
    requires Answering(ss, m, calls[i]) == Some(x)
    ensures RunOutcome(ss, m, calls, i) ==
      if x.simulate.samePeriodBlock && BookedBefore(ss, m, calls, i, x) then
        Failure("E", if Blank(x.simulate.errorMessage) then "Oracle API blocks same-period re-transfer for this asset"
                     else x.simulate.errorMessage.text)
      else TransferOutcome(x.(simulate := x.simulate.(samePeriodBlock := false)), m, RunState(ss, m, calls[..i]))
  {
    hide PeriodOf, RunState, Answering, BookedBefore, SimulatedStatus, CrossBook, TargetBook, PyInt;
    CountedBefore(ss, m, calls, i, x);
    FieldTexts(x.simulate.errorMessage, "");
    UnflaggedAlike(x, m);
  }

  lemma UnflaggedAlike(x: Scenario, m: EntityMap)
    ensures var y := x.(simulate := x.simulate.(samePeriodBlock := false));
      && SimulatedStatus(y) == SimulatedStatus(x) && TargetBook(y, m) == TargetBook(x, m)
      && (CrossBook(y, m) <==> CrossBook(x, m))
  {
  }

  // ---- an answer that is not blocked ----

  /** The answer of an unflagged scenario, field by field. */
  lemma AnswerExactly(x: Scenario, m: EntityMap, st: State, status: string, target: string, book: string)
    requires !x.simulate.samePeriodBlock
    requires EitherShows(x.simulate.transferStatus, Str("S"), status)
    requires Shows(x.source.bookTypeCode, book)
    requires target == if ResolvedTargetBook(x, m) != "" then ResolvedTargetBook(x, m) else book
    ensures var out := TransferOutcome(x, m, st);
      var succeeds := SameLetters(PyStrip(status), "S");
      var cross := !SameLetters(PyStrip(target), PyStrip(book));
      && (!Blank(x.simulate.raiseError) ==> out == Raised(Simulated(x.simulate.raiseError.text)))
      && (Blank(x.simulate.raiseError) && !succeeds ==>
          out == Failure(Upper(PyStrip(status)),
            if Blank(x.simulate.errorMessage) then "Simulated failure" else x.simulate.errorMessage.text))
      && (Blank(x.simulate.raiseError) && succeeds && !cross ==> out == Success(st.nextEvent + 1, target, None))
      && (Blank(x.simulate.raiseError) && succeeds && cross ==> forall a, n ::
          ReadsAs(x.source.assetId, a) && ReadsAs(x.source.assetNumber, n) ==>
          out == match PyInt(a)
            case None => Raised(BadAssetId)
            case Some(id) => Success(st.nextEvent + 1, target, Some((
              if Blank(x.simulate.mockTargetAssetNumber) then n + "_XFER" else x.simulate.mockTargetAssetNumber.text,
              id + 100000))))
  {
    hide Strip, PyInt, ResolvedTargetBook, SameLetters;
    SameCased(PyStrip(status), "S");
    assert Upper("S") == "S";
    SameCased(PyStrip(target), PyStrip(book));
    FieldTexts(x.source.bookTypeCode, book);
    forall t ensures ReadsAs(x.source.assetId, t) ==> t == PyStr(x.source.assetId) { FieldTexts(x.source.assetId, t); }
    forall t ensures ReadsAs(x.source.assetNumber, t) ==> t == PyStr(x.source.assetNumber) {
      FieldTexts(x.source.assetNumber, t);
    }
  }

  /** The target book: the stripped final book when something is left of it, else what the entity map holds
      for the stripped entity, else nothing. */
  lemma TargetExactly(x: Scenario, m: EntityMap, final: string, entity: string)
    requires Shows(x.dff.finalTargetBook, final) && Shows(x.dff.transferToEntity, entity)
    ensures !All(final, PySpace) ==> ResolvedTargetBook(x, m) == PyStrip(final)
    ensures All(final, PySpace) && PyStrip(entity) in m ==> ResolvedTargetBook(x, m) == m[PyStrip(entity)]
    ensures All(final, PySpace) && PyStrip(entity) !in m ==> ResolvedTargetBook(x, m) == ""
  {
    hide Strip;
    FieldTexts(x.dff.finalTargetBook, final);
    FieldTexts(x.dff.transferToEntity, entity);
    BlankIsSpace(final, PySpace);
  }

  // ---- which scenario a call reaches ----

  /** The second entry of a table, else the first, else nothing. */
  predicate Entry(xs: seq<string>, t: string) {
    (|xs| >= 2 && xs[1] == t) || (|xs| == 1 && xs[0] == t) || (xs == [] && t == "")
  }

  /** A scenario has the key of a call exactly when the five texts agree: asset id, date and book up to white
      space around them, and the scenario's target location and expense account, stripped, with the tables. */
  lemma KeyAgrees(x: Scenario, m: EntityMap, p: Params, asset: string, date: string, location: string, expense: string,
                  asset': string, date': string, book': string, location': string, expense': string)
    requires x.source.assetId == Str(asset) && x.dff.transferDate == Str(date)
    requires EitherShows(x.dff.targetLocationId, x.dff.transferToLocation, location)
    requires Shows(x.dff.targetExpenseCcid, expense)
    requires Shows(p.assetId, asset') && Shows(p.date, date') && EitherShows(p.destBook, p.book, book')
    requires Entry(p.locations, location') && Entry(p.expenses, expense')
    ensures ScenarioKey(x, m) == ParamsKey(p) <==>
      && PyStrip(asset) == PyStrip(asset') && PyStrip(date) == PyStrip(date')
      && ResolvedTargetBook(x, m) == PyStrip(book')
      && PyStrip(location) == location' && PyStrip(expense) == expense'
    ensures SameTriple(ScenarioKey(x, m), ParamsKey(p)) <==>
      && PyStrip(asset) == PyStrip(asset') && PyStrip(date) == PyStrip(date')
      && ResolvedTargetBook(x, m) == PyStrip(book')
  {
    hide PyStrip, ResolvedTargetBook;
  }

  // ---- asset ids as numbers ----

  lemma {:induction false} DigitsOfDecimal(n: nat)
    ensures IntDigits(Decimal(n)) == Some(n)
  {
    var d := ['0' + (n % 10) as char];
    if n < 10 {
      assert d[..0] == "";
    } else {
      DigitsOfDecimal(n / 10);
      var s := Decimal(n / 10) + d;
      assert s[..|s| - 1] == Decimal(n / 10);
    }
  }

  /** `int` reads a whole number with a sign and white space around it. */
  lemma IntOfPrinted(n: nat, left: string, sign: string, right: string)
    requires All(left, PySpace) && All(right, PySpace) && sign in {"", "-", "+"}
    ensures PyInt(left + (sign + Decimal(n)) + right).Some?
    ensures PyInt(left + (sign + Decimal(n)) + right).value == (if sign == "-" then -1 else 1) * n
  {
    hide IntDigits, Decimal;
    var core := sign + Decimal(n);
    DigitsOfDecimal(n);
    assert IsDigit(Decimal(n)[0]) && IsDigit(Decimal(n)[|Decimal(n)| - 1]);
    assert core[|core| - 1] == Decimal(n)[|Decimal(n)| - 1];
    assert core[0] == if sign == "" then Decimal(n)[0] else sign[0];
    StripPadded(left, core, right, PySpace);
    if sign != "" { assert core[1..] == Decimal(n); } else { assert core == Decimal(n); }
  }

  lemma {:induction false} DigitsRefuse(s: string, i: nat)
    requires i < |s| && !IsDigit(s[i]) && s[i] != '_'
    ensures IntDigits(s) == None
  {
    var front := s[..|s| - 1];
    if front != "" && i < |front| {
      DigitsRefuse(if front[|front| - 1] == '_' then front[..|front| - 1] else front, i);
    }
  }

  /** `int` rejects a text with any other character behind its first that is not white space. */
  lemma IntRejects(text: string, i: nat)
    requires 0 < i < |PyStrip(text)| && !IsDigit(PyStrip(text)[i]) && PyStrip(text)[i] != '_'
    ensures PyInt(text) == None
  {
    hide Strip, IntDigits;
    var s := PyStrip(text);
    DigitsRefuse(s, i);
    DigitsRefuse(s[1..], i - 1);
  }

  lemma LastDigit(s: string)
    ensures IntDigits(s).Some? ==> s != "" && s[|s| - 1] != '_'
  {
  }

  lemma IntThen(front: string, c: char, body: string)
    requires IsDigit(c) && front != ""
    requires body == if front[|front| - 1] == '_' then front[..|front| - 1] else front
    ensures IntDigits(front + [c]) == match IntDigits(body)
      case None => None
      case Some(v) => Some(10 * v + (c as int - '0' as int))
  {
    hide IsDigit;
    var s := front + [c];
    assert s[..|s| - 1] == front && s[|s| - 1] == c;
  }

  /** A digit behind a number goes on with it, and so does a single underscore with a digit behind it. */
  lemma IntGoesOn(s: string, c: char)
    requires IsDigit(c) && IntDigits(s).Some?
    ensures IntDigits(s + [c]) == IntDigits(s + "_" + [c])
      == Some(10 * IntDigits(s).value + (c as int - '0' as int))
  {
    hide IntDigits, IsDigit;
    LastDigit(s);
    IntThen(s, c, s);
    assert (s + "_")[..|s|] == s && (s + "_")[|s|] == '_';
    IntThen(s + "_", c, s);
  }

  /** Two underscores do not, nor does one with no digit before it or behind it. */
  lemma IntStops(s: string, c: char)
    ensures IntDigits(s + "__" + [c]) == None && IntDigits("_" + [c]) == None && IntDigits(s + "_") == None
  {
    hide IsDigit;
    UnderscoreIsNoDigit();
    var two := s + "__" + [c];
    assert two[..|two| - 1] == s + "__" && (s + "__")[..|s| + 1] == s + "_";
    assert ("_" + [c])[..1] == "_" && "_"[..0] == "";
  }

  lemma UnderscoreIsNoDigit()
    ensures !IsDigit('_')
  {
  }

  // ---- asking for an asset ----

  /** The scenario is stored under the texts of its book and its asset number, a missing one being "None". */
  predicate StoredUnder(x: Scenario, book: string, number: string) {
    ReadsAs(x.source.bookTypeCode, book) && ReadsAs(x.source.assetNumber, number)
  }

  /** Asking for an asset: the first scenario of the catalogue stored under the stripped book and number answers
      with its own three texts, or raises what it simulates or for a text it lacks, and is logged only if it
      answers. */
  lemma InfoExactly(ss: seq<Scenario>, m: EntityMap, p: Params, st: State, book: string, number: string, i: nat)
    requires Shows(p.book, book) && Shows(p.assetNumber, number)
    requires i < |ss| && StoredUnder(ss[i], PyStrip(book), PyStrip(number))
    requires forall j :: 0 <= j < i ==> !StoredUnder(ss[j], PyStrip(book), PyStrip(number))
    ensures var c, x := Call("getAssetInformation", p), ss[i];
      var out, logged := OutcomeOf(ss, m, c, st), Matched(ss, m, c);
      && Next(ss, m, c, st) == st
      && if !Blank(x.simulate.getInfoError) then
          out == Raised(Simulated(x.simulate.getInfoError.text)) && logged == None
        else if Missing in {x.source.assetId, x.source.assetNumber, x.source.bookTypeCode} then
          out == Raised(MissingField) && logged == None
        else
          && out.Info? && ReadsAs(x.source.assetId, out.assetId)
          && ReadsAs(x.source.assetNumber, out.assetNumber) && ReadsAs(x.source.bookTypeCode, out.book)
          && logged.Some? && ReadsAs(x.caseId, logged.value)
  {
    hide Strip, ReadsAs, Blank, Truthy, PyStr, StoredUnder, FirstStored;
    FieldTexts(p.book, book);
    FieldTexts(p.assetNumber, number);
    var key, x := (PyStrip(book), PyStrip(number)), ss[i];
    forall j | 0 <= j <= i ensures StoredUnder(ss[j], key.0, key.1) <==> BookNumber(ss[j]) == key {
      StoredIs(ss[j], key);
    }
    StoredByPosition(ss, key, i);
    FieldTexts(x.source.assetId, PyStr(x.source.assetId));
    FieldTexts(x.source.assetNumber, PyStr(x.source.assetNumber));
    FieldTexts(x.source.bookTypeCode, PyStr(x.source.bookTypeCode));
    FieldTexts(x.caseId, PyStr(x.caseId));
    FieldTexts(x.simulate.getInfoError, "");
  }

  /** When nothing is stored there, asking raises and logs nobody. */
  lemma InfoMissing(ss: seq<Scenario>, m: EntityMap, p: Params, st: State, book: string, number: string)
    requires Shows(p.book, book) && Shows(p.assetNumber, number)
    requires forall j :: 0 <= j < |ss| ==> !StoredUnder(ss[j], PyStrip(book), PyStrip(number))
    ensures var c := Call("getAssetInformation", p);
      && OutcomeOf(ss, m, c, st) == Raised(AssetNotFound) && Matched(ss, m, c) == None && Next(ss, m, c, st) == st
  {
    hide Strip, StoredUnder, FirstStored;
    FieldTexts(p.book, book);
    FieldTexts(p.assetNumber, number);
    var key := (PyStrip(book), PyStrip(number));
    forall j | 0 <= j < |ss| ensures BookNumber(ss[j]) != key { StoredIs(ss[j], key); }
    StoredByPosition(ss, key, 0);
  }

  lemma StoredIs(x: Scenario, key: (string, string))
    ensures StoredUnder(x, key.0, key.1) <==> BookNumber(x) == key
  {
    FieldTexts(x.source.bookTypeCode, key.0);
    FieldTexts(x.source.assetNumber, key.1);
  }

  /** A transfer is logged under the case id of the scenario that answers it, also when that raises. */
  lemma TransferLogged(ss: seq<Scenario>, m: EntityMap, c: Call)
    requires c.handle == "bookTransfer" || c.handle == "transferAsset"
    ensures var x := Rule(ss, m, ParamsKey(c.params));
      if x.None? then Matched(ss, m, c) == None && forall st :: OutcomeOf(ss, m, c, st) == Raised(NoRule)
      else Matched(ss, m, c).Some? && ReadsAs(x.value.caseId, Matched(ss, m, c).value)
  {
    hide Rule, ParamsKey;
    var x := Rule(ss, m, ParamsKey(c.params));
    if x.Some? { FieldTexts(x.value.caseId, PyStr(x.value.caseId)); }
  }
}
