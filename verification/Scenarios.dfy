/** The scenario catalogue of tools/simulate_cmdb_dff_updates.py: JSON objects read with defaults. */
module Scenarios {
  import opened Text

  /** A JSON value as `dict.get` finds it: no such key, `null`, or a string. */
  datatype Json = Missing | Null | Str(text: string)

  /** The `sequence` value: absent, something `int` accepts, or something it rejects. */
  datatype Sequence = Unset | Whole(n: int) | Rejected

  datatype Source = Source(assetId: Json, assetNumber: Json, bookTypeCode: Json, locationCcids: seq<Json>)

  datatype Dff = Dff(
    transferToEntity: Json, transferDate: Json, transferToLocation: Json, finalTargetBook: Json,
    targetLocationId: Json, currentLocationId: Json, targetExpenseCcid: Json,
    extraColumns: seq<(string, string)>)

  datatype Simulate = Simulate(
    getInfoError: Json, samePeriodBlock: bool, errorMessage: Json, raiseError: Json,
    transferStatus: Json, mockTargetAssetNumber: Json)

  datatype Scenario = Scenario(
    caseId: Json, eventGroup: Json, sequence: Sequence, source: Source, dff: Dff, simulate: Simulate)

  type EntityMap = map<string, string>

  predicate Truthy(v: Json) {
    v.Str? && v.text != ""
  }

  /** Python's `a or b`. */
  function Or(a: Json, b: Json): Json {
    if Truthy(a) then a else b
  }

  /** `str(d.get(k))`. */
  function PyStr(v: Json): string {
    if v.Str? then v.text else "None"
  }

  /** `str(d.get(k, ""))`. */
  function StrOrBlank(v: Json): string {
    if v.Missing? then "" else PyStr(v)
  }

  /** `str(d.get(k) or "")`. */
  function OrEmpty(v: Json): string {
    if v.Str? then v.text else ""
  }

  // What a field says, as relations between a value and a text.

  /** A missing, null or empty value. */
  predicate Blank(v: Json) {
    v == Missing || v == Null || v == Str("")
  }

  /** What a field shows: its text, or nothing. */
  predicate Shows(v: Json, t: string) {
    v == Str(t) || (t == "" && Blank(v))
  }

  /** What either of two fields shows, the first before the second. */
  predicate EitherShows(v: Json, w: Json, t: string) {
    if Blank(v) then Shows(w, t) else v == Str(t)
  }

  /** What `str` makes of a field. */
  predicate ReadsAs(v: Json, t: string) {
    v == Str(t) || ((v == Missing || v == Null) && t == "None")
  }

  lemma FieldTexts(v: Json, t: string)
    ensures Shows(v, t) <==> OrEmpty(v) == t
    ensures ReadsAs(v, t) <==> PyStr(v) == t
    ensures Truthy(v) <==> !Blank(v)
    ensures StrOrBlank(v) == if v == Missing then "" else PyStr(v)
  {
  }

  function ResolvedTargetBook(s: Scenario, m: EntityMap): string {
    var finalBook := PyStrip(OrEmpty(s.dff.finalTargetBook));
    if finalBook != "" then finalBook
    else
      var entity := PyStrip(OrEmpty(s.dff.transferToEntity));
      if entity in m then m[entity] else ""
  }

  /** The rule key of a scenario: asset, date, target book, location and expense account. */
  datatype RuleKey = RuleKey(asset: string, date: string, book: string, location: string, expense: string)

  function ScenarioKey(s: Scenario, m: EntityMap): RuleKey {
    RuleKey(
      PyStrip(StrOrBlank(s.source.assetId)),
      PyStrip(StrOrBlank(s.dff.transferDate)),
      ResolvedTargetBook(s, m),
      PyStrip(OrEmpty(Or(s.dff.targetLocationId, s.dff.transferToLocation))),
      PyStrip(OrEmpty(s.dff.targetExpenseCcid)))
  }
}
