# Verification models for the asset-transfer tools and the hockey-scheduler checks

This project models the repository's most intricate algorithms in Dafny and proves what they are relied on
for. Code that works by changing things step by step is modelled by classes and loops, each proved against a
function or a relation, and the theorems are about those functions, over every input, every run and every
interleaving. `dafny verify dfyconfig.toml` checks the whole project.

The files follow the source's components.

- `FinalState`, `InputOrder`, `EventOrder`, `Ledger`, `LedgerAnswers`, `Report` (over `Scenarios` and `Ordering`):
  `tools/simulate_cmdb_dff_updates.py`. Collapsing events to the final state of each group, exactly when the
  order of the events matters to it, and what it keeps, field by field; the stateful mock of the transfer service with
  its indexes, counters and event ids; the mock report client.
- `RenderAudit`, `RenderPasses`, `PassWatch`: `hockey-scheduler/e2e/coach-scope.js`. The line-based audit of
  render(), the interleavings of suspended render passes it must make safe, and the barrier that waits for the
  passes in flight.
- `Stylesheets`, `Markup`, `Links`, `Contract`: `hockey-scheduler/e2e/breakpoint-contract.js`. The regular-expression
  scanners written out as explicit scanners and proved to find exactly the matches the expressions describe,
  their print/parse theorems, and the gate built on them.
- `ContextGate`, `ContextSwitch`, `ContextExpiry`, `ContextProgress`: the per-user gate between scoped reads and
  context switches and the context epoch (`hockey-scheduler/backend/hockey_scheduler/services/context_gate.py`,
  `context_epoch.py` and the read path of `web/server.py`), as the two context-switch journeys exercise them. The gate
  is a class; a wait is a predicate on its state; the server around it is a step system whose runs are arbitrary step
  sequences, with and without waits that expire.
- `DeepLink` (over `JsonText` and `JsonGrammar`): `hockey-scheduler/e2e/context-switcher.js`. JSON in unpadded
  URL-safe base64 (sections 4 and 5 of RFC 4648, RFC 8259), with the JSON parser proved to be exactly the grammar.
- `Transfers`, `TransferRules`: `tools/run_excel_transfers.py` and the resolver of
  `src/main/python/ofam_asset_xfer/entity_resolver.py`. The batch executor with its blocked-book guard and its dry
  run, and its rules over the configuration as it is written.
- `RouteContract`: `hockey-scheduler/e2e/check-v1-route-contract.js`. Balancing the braces of an object literal.
- `Classifier`, `Routing`: `hockey-scheduler/e2e/ci-classify.js`. Which CI jobs a change must not go without.

## Where the code falls short of what is said about it

The models follow the code. Each of these is proved with a failing input and with the exact condition under which the
promise holds.

- A transfer answer that raises may still have moved the counters: converting the asset id comes after the booking
  (`Ledger.LossyCatalogue`). `Ledger.LateFailureExactly` says exactly which call does this, and
  `Ledger.CatalogueKeepsLedger` exactly which catalogues never let it happen.
- The order of the events does matter to the policy when events tie: `InputOrder.LastOfTwoWins` and
  `InputOrder.OrderMattersOnTies` are the smallest inputs, and `InputOrder.OrderFreeExactly` is the exact condition.
- A wait at the gate that expires lets its waiter go on, and a read can then be judged out of order:
  `ContextExpiry.ExpiryBreaksOrder` gives such a run. What a look at the context shows is in order exactly under the
  condition of `ContextExpiry.SeenInOrderExactly`, in every run; a read that meets it whenever it looks is answered in
  order (`ContextExpiry.AnsweredInTurn`), and without an expired wait every read does
  (`ContextExpiry.NoExpiryNoOvertaking`).
- A late read can be refused when two contexts of its user share an epoch (`ContextExpiry.CollisionRefuses`), and only
  then: `ContextSwitch.RefusedExactlyOnCollision`.
- A linked local sheet is not judged if a remote sheet of the same key is linked before it
  (`Contract.ShadowedSheetEscapes`), and otherwise it is: `Contract.JudgedExactly`.
- The audit of render() asks for more than safety needs: it rejects the text of `RenderAudit.AuditRejectsSafeText`,
  while `RenderPasses.SafeExactlyWhenShielded` is the exact condition for safety.
- A dry run stops at an entity without a book where execution records a failed row and goes on
  (`Transfers.UnresolvedEntityParts`); `Transfers.DryRunCompletes` is the exact condition.
- The classifier's header promises the full matrix for every path recognised neither as this project's nor as the
  sibling's, for its own files, and the browser gate for the API surface. `NOTES.md`, `ci-classify.md` and an SQL file
  of the API surface get less (`Classifier.NotesRunLess`, `Classifier.ClassifierNotesRunLess`,
  `Classifier.ApiSqlRunsLess`); the exact conditions are `Classifier.OutsiderRunsEverything`,
  `Classifier.ClassifierGuardsItself` and `Classifier.ApiChangesReachTheBrowser`.

## Model

| member | source | states |
|---|---|---|
| Ordering.StableSortUnique | tools/simulate_cmdb_dff_updates.py:286-307 | `sorted` with a key yields the one list that is ordered, has the same elements and keeps ties in input order; any list with those three properties is that list |
| Ordering.SortedIsUnique | tools/simulate_cmdb_dff_updates.py:297-307 | with keys that tell the elements apart, the sorted list depends on the elements only and not on the order they came in |
| Ordering.SortOfSorted | tools/simulate_cmdb_dff_updates.py:297-307 | sorting an ordered list changes nothing |
| FinalState.GroupEvents | tools/simulate_cmdb_dff_updates.py:276-280 | the grouping loop lists the groups in order of first appearance and files every event under its group, in input order |
| FinalState.ApplyFinalStateWins | tools/simulate_cmdb_dff_updates.py:272-308 | the loops compute the specified selected and collapsed lists, and raise exactly when some event has a sequence that `int` rejects |
| FinalState.Conservation | tools/simulate_cmdb_dff_updates.py:282-308 | selected and collapsed together are the input as a multiset: nothing is lost, nothing appears |
| FinalState.RankedLastWins | tools/simulate_cmdb_dff_updates.py:286-295 | the event kept from a group is the greatest of the group by sequence, date and case id, and among ties the last in input order |
| FinalState.OneWinnerPerGroup | tools/simulate_cmdb_dff_updates.py:282-295 | every group has exactly one selected event and every selected event wins its group |
| FinalState.Idempotent | tools/simulate_cmdb_dff_updates.py:272-308 | applying the policy to the selected events returns them unchanged and collapses nothing |
| EventOrder.EarlierLoses | tools/simulate_cmdb_dff_updates.py:282-295 | of two events grouped under one name (the event group, else the asset number, else the case id) the one with the smaller sequence, an unset one being 0, is not selected; with equal sequences the earlier date is not; with equal dates the smaller case id is not; texts compare by their first differing character or by prefix |
| EventOrder.OnePerName | tools/simulate_cmdb_dff_updates.py:276-295 | every name that some event is grouped by has one selected event and no second |
| EventOrder.SelectedOrder | tools/simulate_cmdb_dff_updates.py:297-306 | no selected event is listed after one that follows it by book, asset number, date, location and target book, compared field by field |
| EventOrder.CollapsedOrder | tools/simulate_cmdb_dff_updates.py:307 | no collapsed event is listed after one that follows it by case id |
| InputOrder.OrderFreeExactly | tools/simulate_cmdb_dff_updates.py:272-308 | every reordering of the events has the same outcome if and only if some sequence cannot be read, or no group has two different events at its top, no two winners share a sort key, and different collapsed events of one case id are of one group and ranked apart |
| InputOrder.TopTieMatters | tools/simulate_cmdb_dff_updates.py:286-295 | of two different events at the top of a group whichever is moved to the end is selected, and then the other is not |
| InputOrder.WinnerTieMatters | tools/simulate_cmdb_dff_updates.py:297-306 | of two winners with one sort key the one whose group comes first is listed first, so the lists differ |
| InputOrder.LoserTieMatters | tools/simulate_cmdb_dff_updates.py:307 | two collapsed events of one case id from different groups make the collapsed lists differ with the group that comes first |
| InputOrder.RankTieMatters | tools/simulate_cmdb_dff_updates.py:286-296 | two different events of equal rank below the top of their group make the collapsed lists differ with the one that comes first |
| InputOrder.LastOfTwoWins | tools/simulate_cmdb_dff_updates.py:286-295 | of any two events of one group with the same key the second is selected |
| InputOrder.OrderIndependent | tools/simulate_cmdb_dff_updates.py:272-308 | for every permutation of events with distinct case ids and distinct winner sort keys both result lists are identical |
| InputOrder.OrderMattersOnTies | tools/simulate_cmdb_dff_updates.py:297-306 | two winners of different groups alike in every sort field are listed in input order, so swapping them swaps the selected list |
| Report.MockBIPClient.constructor | tools/simulate_cmdb_dff_updates.py:312-315 | the rows are filed by stripped book, each book's rows in their order |
| Report.MockBIPClient.RunReport | tools/simulate_cmdb_dff_updates.py:317-320 | a report holds exactly the rows filed under the stripped book asked for, in order, and asking changes nothing |
| Report.AllBooks | tools/simulate_cmdb_dff_updates.py:242-251 | every book named by the map, by a source or by a resolved target is listed, once, in text order, and nothing else is |
| Report.RowBook | tools/simulate_cmdb_dff_updates.py:217-239 | a row built from a scenario that names its book is filed under that book unless an extra column overwrites it |
| Report.SourceColumns | tools/simulate_cmdb_dff_updates.py:217-225 | case id and the three source columns show their own fields, blank when missing and "None" when null |
| Report.TransferColumns | tools/simulate_cmdb_dff_updates.py:226-229 | so do entity, date, location and final target book |
| Report.TargetColumns | tools/simulate_cmdb_dff_updates.py:230-235 | so do target location and expense account; the current location falls back on the first CCID of the source |
| Report.ExtrasExactly | tools/simulate_cmdb_dff_updates.py:236-239 | the last extra column of a name stands in the row under that name, and every other column keeps what it had |
| Report.ReportsCount | tools/simulate_cmdb_dff_updates.py:312-320 | over all listed books a row comes back once for each listed book that strips to its own |
| Report.PartitionExactly | tools/simulate_cmdb_dff_updates.py:242-320 | the reports are a permutation of the rows if and only if for every row exactly one listed book strips to its book |
| Report.ReportPartition | tools/simulate_cmdb_dff_updates.py:217-320 | with unpadded books and no extra column over the book, asking once per listed book returns every row exactly once |
| Ledger.MockFusionClient.constructor | tools/simulate_cmdb_dff_updates.py:324-346 | the three indexes built by the loop agree with a linear scan of the catalogue; the counters start empty and at 90000 |
| Ledger.MockFusionClient.Index | tools/simulate_cmdb_dff_updates.py:338-346 | indexing one more scenario keeps all three indexes equal to a linear scan |
| Ledger.MockFusionClient.ProcessTransaction | tools/simulate_cmdb_dff_updates.py:348-361 | every call answers what a scan of the catalogue and the old counters determine, moves the counters accordingly and appends one log entry naming the scenario that answered |
| Ledger.MockFusionClient.MockGetAssetInformation | tools/simulate_cmdb_dff_updates.py:363-376 | the answer comes from the first scenario stored under the stripped book and number, and raises when that lacks one of its three texts; no counter moves |
| Ledger.MockFusionClient.MockTransfer | tools/simulate_cmdb_dff_updates.py:378-392 | the answer comes from the scenario a scan of the catalogue finds for the parameters; without one the call raises and moves nothing |
| Ledger.MockFusionClient.Transfer | tools/simulate_cmdb_dff_updates.py:394-424 | the answer and the new counters of a transfer by the answering scenario, in every branch including the late failure |
| Ledger.RuleByPosition | tools/simulate_cmdb_dff_updates.py:343-387 | a transfer is answered by the last scenario with an equal five-part key, else by the first with equal asset, date and book, else by none |
| Ledger.StoredByPosition | tools/simulate_cmdb_dff_updates.py:339-370 | asset information comes from the first scenario stored under the key, and from none exactly when no scenario is |
| Ledger.RuleIsCatalogued | tools/simulate_cmdb_dff_updates.py:343-387 | only a scenario of the catalogue ever answers |
| Ledger.NextCounts | tools/simulate_cmdb_dff_updates.py:348-424 | one call moves the sum of the period counters and the event counter by one together, and one period counter by one, or moves nothing |
| Ledger.BookingOutcome | tools/simulate_cmdb_dff_updates.py:406-424 | a booking is answered by a success or by the late failure and by nothing else, and a success carries the event number just issued |
| Ledger.FailuresBookNothing | tools/simulate_cmdb_dff_updates.py:378-424 | a call leaves both counters alone if and only if it neither succeeds nor fails late on the asset id |
| Ledger.LateFailureExactly | tools/simulate_cmdb_dff_updates.py:406-422 | a call raises after moving the counters if and only if the answering scenario books a cross-book transfer for an asset id that `int` rejects |
| Ledger.CountersConserved | tools/simulate_cmdb_dff_updates.py:334-409 | after every sequence of calls the period counters sum to the events issued and to the bookings made, and each counter is the number of its own bookings |
| Ledger.BookingsAreAnswers | tools/simulate_cmdb_dff_updates.py:406-424 | over every run the bookings are the success answers and the late failures |
| Ledger.LedgerConservation | tools/simulate_cmdb_dff_updates.py:334-424 | over every run the sum of the period counters is the number of events issued and the number of success answers plus those lost to a late failure |
| Ledger.NumericIdsLoseNothing | tools/simulate_cmdb_dff_updates.py:418-422 | when `int` reads every asset id of the catalogue no run loses an answer |
| Ledger.CatalogueKeepsLedger | tools/simulate_cmdb_dff_updates.py:378-424 | the counters equal the success answers after every run if and only if no scenario that some transfer reaches has status "S", raises nothing and names a cross-book target with an asset id that `int` rejects |
| Ledger.LossyCatalogue | tools/simulate_cmdb_dff_updates.py:406-422 | with the asset id "A1" a cross-book transfer raises although an event was issued |
| Ledger.EventIdsIncrease | tools/simulate_cmdb_dff_updates.py:408-413 | event ids strictly increase along every run, from above 90000 |
| Ledger.EventNumber | tools/simulate_cmdb_dff_updates.py:408-413 | the event id of a success is 90000 plus the number of bookings up to and including it |
| Ledger.FlaggedBooksFirst | tools/simulate_cmdb_dff_updates.py:394-408 | in every run a scenario flagged against same-period re-transfers succeeds only when nothing was booked before for its asset and month |
| Ledger.NeverTwiceWhenFlagged | tools/simulate_cmdb_dff_updates.py:394-408 | if all scenarios of an asset and month carry the flag, that counter never exceeds one in any run |
| LedgerAnswers.SamePeriodExactly | tools/simulate_cmdb_dff_updates.py:396-398 | scenarios dated year, month and day share a period counter if and only if asset id, year and month agree |
| LedgerAnswers.BlockedExactly | tools/simulate_cmdb_dff_updates.py:394-409 | in every run a transfer is blocked if and only if its scenario is flagged and an earlier call booked for the same asset id text in the same month, whichever scenario booked; otherwise it is answered as without the flag |
| LedgerAnswers.AnswerExactly | tools/simulate_cmdb_dff_updates.py:399-424 | what an unflagged transfer is answered, field by field: the simulated error, the status in capitals with its message, the same-book success, the cross-book success with its new number and id plus 100000, or the late failure |
| LedgerAnswers.TargetExactly | tools/simulate_cmdb_dff_updates.py:124-130 | the target book is the stripped final book if any is left, else what the entity map holds for the stripped entity, else nothing |
| LedgerAnswers.KeyAgrees | tools/simulate_cmdb_dff_updates.py:133-175 | a scenario has the key of a call if and only if asset, date, target book, location and expense account agree as texts, each read from its own field |
| LedgerAnswers.InfoExactly | tools/simulate_cmdb_dff_updates.py:363-376 | asking for an asset is answered by the first scenario stored under the stripped book and number with its own three texts, or raises what it simulates or for a text it lacks, and is logged only if it answers |
| LedgerAnswers.InfoMissing | tools/simulate_cmdb_dff_updates.py:363-368 | asking for an asset that no scenario is stored under raises and logs no scenario |
| LedgerAnswers.TransferLogged | tools/simulate_cmdb_dff_updates.py:378-392 | a transfer is logged under the case id of the scenario that answers it, also when it raises, and under none when no scenario answers |
| LedgerAnswers.IntOfPrinted | tools/simulate_cmdb_dff_updates.py:418 | `int` reads every whole number in decimal digits, with a sign and white space around it |
| LedgerAnswers.IntGoesOn | tools/simulate_cmdb_dff_updates.py:418 | a digit goes on with a number, directly or behind one underscore |
| LedgerAnswers.IntStops | tools/simulate_cmdb_dff_updates.py:418 | two underscores, a leading one and a trailing one are rejected |
| LedgerAnswers.IntRejects | tools/simulate_cmdb_dff_updates.py:418 | any other character behind the first is rejected |
| RenderAudit.Audit | hockey-scheduler/e2e/coach-scope.js:250-292 | the audit loop reports the specified verdict for any file: not located, run off the end, or how many awaits there are and which lack the guard |
| RenderAudit.AuditExact | hockey-scheduler/e2e/coach-scope.js:250-292 | on a file laid out as statements that wrap until a line ending in `;`, comments and blank lines the audit counts every await, lists the first lines of exactly the unguarded ones, and passes if and only if the guard is the very next statement after every await |
| RenderAudit.NotLocatedExactly | hockey-scheduler/e2e/coach-scope.js:255-260 | the audit gives up if and only if the first line of render() is not followed by the line that ends its try block |
| RenderAudit.PassingAuditIsSafe | hockey-scheduler/e2e/coach-scope.js:236-292 | if the audit passes on the text of render(), no interleaving of its passes makes a stale write |
| RenderPasses.AuditSound | hockey-scheduler/e2e/coach-scope.js:236-248 | with the guard after every await, in every interleaving a write happens only while the writer holds the newest token, so writer tokens never decrease |
| RenderPasses.SafeExactlyWhenShielded | hockey-scheduler/e2e/coach-scope.js:361-377 | no interleaving makes a stale write if and only if a guard stands between every await and every write after it |
| RenderPasses.TornRun | hockey-scheduler/e2e/coach-scope.js:361-377 | for every unguarded await before a write there is a run in which a superseded pass writes |
| RenderPasses.RejectionEnds | hockey-scheduler/backend/hockey_scheduler/web/static/app.js:13925-13935 | a pass whose await is rejected paints once if it is the newest and nothing otherwise, and never goes on in any later run |
| RenderAudit.AuditRejectsSafeText | hockey-scheduler/e2e/coach-scope.js:264-288 | the audit rejects a text with one statement between its await and its guard, though no interleaving of it makes a stale write |
| PassWatch.PassWatch.Begin | hockey-scheduler/e2e/coach-scope.js:187-191 | invocations are numbered one after the other |
| PassWatch.PassWatch.End | hockey-scheduler/e2e/coach-scope.js:192-196 | the invocation that settles is stamped and no other stamp changes |
| PassWatch.PassWatch.PassesInFlight | hockey-scheduler/e2e/coach-scope.js:207-215 | the snapshot lists exactly the invocations entered and not ended, in order of entry |
| PassWatch.PassWatch.AllEnded | hockey-scheduler/e2e/coach-scope.js:221-226 | the barrier's poll succeeds if and only if every listed invocation has ended |
| PassWatch.PassWatch.Follow | hockey-scheduler/e2e/coach-scope.js:190-197 | while the system takes one step the wrapper numbers the invocation that enters and stamps those that settle, and no other |
| PassWatch.Replay | hockey-scheduler/e2e/coach-scope.js:187-197 | after any run the watch's counter and stamps are those of the account the next two results are about |
| PassWatch.InFlightIsSuspended | hockey-scheduler/e2e/coach-scope.js:173-178 | in every run the watch counts an invocation as in flight exactly when its pass is suspended at an await, and every suspended pass is an invocation |
| PassWatch.BarrierSilencesTheSnapshot | hockey-scheduler/e2e/coach-scope.js:173-182 | once every pass of a snapshot has ended, no pass entered before the snapshot ever writes again, whether or not render() carries its guards |
| Stylesheets.ExtractMediaPreludes | hockey-scheduler/e2e/breakpoint-contract.js:64-70 | the `exec` loop returns the preludes of all matches, leftmost first |
| Stylesheets.MediaEndIsRegex | hockey-scheduler/e2e/breakpoint-contract.js:66 | the scanner stops at `e` if and only if the expression has a match of that length, and reports the text it captures |
| Stylesheets.PreludesInvertPrinting | hockey-scheduler/e2e/breakpoint-contract.js:64-70 | from any text free of `@media` followed by any printed rules the extractor returns exactly the rules' preludes, in order |
| Stylesheets.ExtractWidths | hockey-scheduler/e2e/breakpoint-contract.js:75-81 | the `exec` loop returns the numbers of all width matches, leftmost first |
| Stylesheets.WidthAtIsRegex | hockey-scheduler/e2e/breakpoint-contract.js:77 | the width scanner accepts digits at given positions if and only if the expression matches there |
| Stylesheets.WidthsInvertPrinting | hockey-scheduler/e2e/breakpoint-contract.js:75-81 | from any printed width features the extractor returns exactly the integers printed |
| Stylesheets.CheckSource | hockey-scheduler/e2e/breakpoint-contract.js:85-107 | the loops report one violation per unapproved width in order, and one when there is no media rule at all |
| Stylesheets.PassesExactly | hockey-scheduler/e2e/breakpoint-contract.js:85-107 | a sheet passes if and only if it has a media rule and every width in every prelude is 480, 720, 880 or 1040 |
| Stylesheets.ReportedExactly | hockey-scheduler/e2e/breakpoint-contract.js:85-107 | a width is reported if and only if it stands in a prelude and is none of 480, 720, 880 and 1040; the missing media rule if and only if there is no prelude |
| Stylesheets.OnlyPreludesCount | hockey-scheduler/e2e/breakpoint-contract.js:64-107 | a printed sheet passes exactly when the widths printed in its preludes are approved, whatever stands in the rules' bodies |
| Markup.AttrAtIsRegex | hockey-scheduler/e2e/breakpoint-contract.js:127 | the attribute scanner finds a match if and only if the expression has one there, and with the same name and value |
| Markup.ParseAttributes | hockey-scheduler/e2e/breakpoint-contract.js:125-135 | the `exec` loop returns the lowercase-keyed map of all matches, the last of a name winning |
| Markup.AttributesInvertPrinting | hockey-scheduler/e2e/breakpoint-contract.js:125-135 | printed attributes with distinct names, in any order, spacing and quoting, parse to exactly the map they stand for |
| Markup.OrderAndQuotingIrrelevant | hockey-scheduler/e2e/breakpoint-contract.js:122-150 | two printed tags whose attributes give the same keys the same values, in whatever order, quoting and spacing, parse to one map and contribute one href |
| Markup.ExtractStylesheetHrefs | hockey-scheduler/e2e/breakpoint-contract.js:139-150 | the `exec` loop returns the trimmed hrefs of the stylesheet links, in order |
| Markup.LinkEndIsRegex | hockey-scheduler/e2e/breakpoint-contract.js:141 | the link scanner stops at `e` if and only if the expression has a match of that length: `<link` in any letter case, no word character behind it, and the first `>` |
| Markup.HrefsInvertPrinting | hockey-scheduler/e2e/breakpoint-contract.js:139-150 | from a page of text and printed link tags, their names in any letter case, the extractor returns, link by link, what the attribute maps of the stylesheet links say |
| Links.HrefsExact | hockey-scheduler/e2e/breakpoint-contract.js:139-150 | from such a page the extractor returns, in order, the trimmed href of exactly the tags with a rel that has the token "stylesheet" and an href that is not blank, read off the printed attributes |
| Links.RelListHasToken | hockey-scheduler/e2e/breakpoint-contract.js:145-146 | in a rel that lists tokens separated and surrounded by any white space the word is found if and only if some token is "stylesheet" in any letter case |
| Links.TokenListDecides | hockey-scheduler/e2e/breakpoint-contract.js:139-150 | one printed tag with such a rel adds its trimmed href if and only if some token is that word and the href is not blank |
| Contract.RemoteExactly | hockey-scheduler/e2e/breakpoint-contract.js:155-159 | an href is taken as remote, whole, if and only if it starts with `//` or with a scheme and a colon |
| Contract.SameFile | hockey-scheduler/e2e/breakpoint-contract.js:152-162 | a name with or without a leading `/` or `./` and with any query or fragment names the same local file |
| Contract.NothingNamed | hockey-scheduler/e2e/breakpoint-contract.js:160-161 | the root alone, with any query or fragment, names nothing |
| Contract.SameKeyExactly | hockey-scheduler/e2e/breakpoint-contract.js:178 | two targets share a key if and only if they are equal or a local one is named like the prefixed URL of a remote one |
| Contract.DiscoverStylesheets | hockey-scheduler/e2e/breakpoint-contract.js:165-187 | the loops list the linked sheets without repeated keys, and one failure for each missing entry point |
| Contract.DiscoverIn | hockey-scheduler/e2e/breakpoint-contract.js:174-185 | one page adds the sheets whose key was not linked before, in order |
| Contract.DiscoveryIsExact | hockey-scheduler/e2e/breakpoint-contract.js:165-187 | discovery lists exactly the first sheet linked under each key, each key once, and every linked key |
| Contract.RunContract | hockey-scheduler/e2e/breakpoint-contract.js:191-216 | the gate's loop reports the specified failures in order |
| Contract.FailuresExactly | hockey-scheduler/e2e/breakpoint-contract.js:165-216 | each kind of failure is reported if and only if it is there: an entry point that is missing, nothing linked, and of the first sheet under each key that it is missing or a violation it has |
| Contract.GateExact | hockey-scheduler/e2e/breakpoint-contract.js:191-216 | no failure if and only if every entry point exists, something is linked, and the first sheet under each key is remote or exists with a media rule and approved widths only |
| Contract.JudgedExactly | hockey-scheduler/e2e/breakpoint-contract.js:165-187 | a linked local sheet is among those judged if and only if the first sheet linked under its key is local |
| Contract.GateJudges | hockey-scheduler/e2e/breakpoint-contract.js:165-216 | on every page no failure if and only if every entry point exists, something is linked, and every linked sheet is good whose key is first linked by a local one |
| Contract.GateCoversAllLinks | hockey-scheduler/e2e/breakpoint-contract.js:165-216 | when no local sheet's key is first linked by a remote one, no failure if and only if every linked sheet is good |
| Contract.ShadowedSheetEscapes | hockey-scheduler/e2e/breakpoint-contract.js:176-178 | a page whose local sheet shares a remote sheet's key passes although the local file does not exist |
| ContextGate.ContextSwitchGate.constructor | hockey-scheduler/backend/hockey_scheduler/services/context_gate.py:273-283 | nobody is inside and no ticket was issued |
| ContextGate.ContextSwitchGate.Arrive | hockey-scheduler/backend/hockey_scheduler/services/context_gate.py:286-294 | an arrival gets a ticket never issued before, is visible to later switches and itself waits for nobody |
| ContextGate.ContextSwitchGate.Narrow | hockey-scheduler/backend/hockey_scheduler/services/context_gate.py:296-331 | a bound read waits exactly while an earlier switch of its user is inside, and binding it never adds anybody to what a switch waits for |
| ContextGate.ContextSwitchGate.ReleaseReader | hockey-scheduler/backend/hockey_scheduler/services/context_gate.py:341-344 | the read is gone and nothing else changes, whether or not it was still inside |
| ContextGate.ContextSwitchGate.RegisterWriter | hockey-scheduler/backend/hockey_scheduler/services/context_gate.py:376-396 | a switch waits exactly while an earlier read of its user or of nobody yet, or an earlier switch of its user, is inside |
| ContextGate.ContextSwitchGate.ReleaseWriter | hockey-scheduler/backend/hockey_scheduler/services/context_gate.py:397-401 | the switch is gone and nothing else changes |
| ContextGate.ContextSwitchGate.Expire | hockey-scheduler/backend/hockey_scheduler/services/context_gate.py:404-435 | an expired wait is counted and changes nothing else |
| ContextGate.ReaderWaits | hockey-scheduler/backend/hockey_scheduler/services/context_gate.py:320-322 | a bound read is blocked if and only if an earlier switch of its own user is inside |
| ContextGate.WriterWaits | hockey-scheduler/backend/hockey_scheduler/services/context_gate.py:382-394 | a switch is blocked if and only if one of the two kinds of earlier participants is inside |
| ContextGate.WaitsExactly | hockey-scheduler/backend/hockey_scheduler/services/context_gate.py:320-394 | who waits for whom, for reads, switches and unbound arrivals, written out |
| ContextGate.SomeoneProceeds | hockey-scheduler/backend/hockey_scheduler/services/context_gate.py:347-360 | whenever anybody is inside somebody is not blocked, so waits never form a circle |
| ContextSwitch.BlockersOnlyLeave | hockey-scheduler/backend/hockey_scheduler/services/context_gate.py:347-360 | no step of the system ever adds a participant to what somebody already waits for |
| ContextSwitch.ReadsWaitForOwnUser | hockey-scheduler/backend/hockey_scheduler/services/context_gate.py:320-322 | in every run a read that ends its wait counts an expiry if and only if an earlier switch of its own user is still inside; switches of other users never delay it |
| ContextSwitch.SwitchesWaitForOwnUser | hockey-scheduler/backend/hockey_scheduler/services/context_gate.py:382-394 | in every run a switch that ends its wait counts an expiry if and only if an earlier read of its user or of nobody yet, or an earlier switch of its user, is still inside |
| ContextProgress.EverybodyCanLeave | hockey-scheduler/backend/hockey_scheduler/services/context_gate.py:341-401 | after every run, expired waits or not, there is a way on in which everybody leaves and no wait expires |
| ContextProgress.UsersAreNamed | hockey-scheduler/backend/hockey_scheduler/services/context_gate.py:252-363 | in every run only named users bind reads, switch and load pages |
| ContextProgress.NothingSelectedYet | hockey-scheduler/e2e/context-switch-late-arrival.js:29-42 | in every run a user none of whose switches has committed has nothing selected, and no Season is answered |
| ContextSwitch.RunsAreOrdered | hockey-scheduler/e2e/context-switch-server-exit.js:20-23 | the invariants of the arrival order hold after every run in which no wait expired |
| ContextSwitch.SerialisedByArrival | hockey-scheduler/e2e/context-switch-server-exit.js:370-405 | in every run without an expired wait each read was answered, and the contexts are, as if reads and switches had run one at a time in ticket order, and no switch is past its wait while an earlier read of its user is inside |
| ContextSwitch.AnswersExactly | hockey-scheduler/e2e/context-switch-late-arrival.js:29-42 | every answer of such a run, written out: 204 if and only if the read carries another epoch than the current one, else 200 if and only if it names the selected Season, else 404, all as of its ticket |
| ContextExpiry.SeenInOrderExactly | hockey-scheduler/backend/hockey_scheduler/services/context_gate.py:404-435 | in every run, at every moment, a user's context is the one serial order gives at a ticket if and only if no commit of the user arrived at that ticket or later and the last to land chose what the last to arrive chose |
| ContextExpiry.AnsweredInTurn | hockey-scheduler/e2e/context-switch-server-exit.js:20-23 | in every run, expired waits or not, a read that meets that condition whenever it looks, with no earlier switch of its user still to commit, is answered as in ticket order |
| ContextExpiry.NoExpiryNoOvertaking | hockey-scheduler/e2e/context-switch-server-exit.js:370-405 | in a run without an expired wait every read meets it |
| ContextExpiry.ExpiryBreaksOrder | hockey-scheduler/backend/hockey_scheduler/services/context_gate.py:404-435 | in a run where a switch gives up waiting a read of the selected Season is refused that its arrival order answers |
| ContextExpiry.CollisionRefuses | hockey-scheduler/e2e/context-switch-late-arrival.js:29-42 | in a run without an expired wait, if two contexts share an epoch, a page's own read is answered 404 |
| ContextSwitch.RunsKeepPagesFresh | hockey-scheduler/backend/hockey_scheduler/web/server.py:2325-2334 | because the epoch is derived before the selection is read, a page's selection is its epoch's unless a switch came in between |
| ContextSwitch.EpochDiscards | hockey-scheduler/e2e/context-switch-late-arrival.js:29-42 | in every run without an expired wait a read rendered under a page answers 200 while its user's context is the page's, 204 when the epoch tells the two apart, and otherwise what the ceiling says, however late it arrives |
| ContextSwitch.RefusedExactlyOnCollision | hockey-scheduler/e2e/context-switch-late-arrival.js:584-611 | such a read answers 404 if and only if the context moved to another Season without a change of epoch |
| ContextSwitch.LateReadNeverRefused | hockey-scheduler/e2e/context-switch-late-arrival.js:584-611 | if no two contexts the user has had share an epoch, such a read answers 200 or 204 and never 404 |
| ContextSwitch.NoEpochMeansCeiling | hockey-scheduler/e2e/context-switch-late-arrival.js:586-598 | a read without an epoch, or with a blank one, answers exactly what the unchanged ceiling says for the selection its arrival earned |
| DeepLink.HashEncodes | hockey-scheduler/e2e/context-switcher.js:87-97 | the padding loop and the decoding steps accept exactly the hashes whose payload, padded by length, parses to a value whose two ids are the expected ones, what is falsy counting as none |
| DeepLink.AcceptsExactly | hockey-scheduler/e2e/context-switcher.js:87-97 | any hash is accepted if and only if it starts with `#ctx=` and the rest, put back into the plain alphabet and padded, decodes to a JSON text that is not `null` and whose last members `p` and `s` are the expected texts, or are missing or count as false where none is expected |
| DeepLink.AnyLinkAccepted | hockey-scheduler/e2e/context-switcher.js:87-97 | a link made from any JSON text, whatever other members, escapes and white space it has, is accepted for exactly the ids its members give |
| DeepLink.NoJsonNoLink | hockey-scheduler/e2e/context-switcher.js:96 | a link made from anything else is accepted for no ids |
| DeepLink.PaddingRestored | hockey-scheduler/e2e/context-switcher.js:76-92 | the stripped length is never 1 modulo 4 and padding by length restores exactly what was stripped, through the URL-safe alphabet and back |
| DeepLink.AtobInvertsEncode | hockey-scheduler/e2e/context-switcher.js:76-93 | decoding inverts encoding for every byte string |
| DeepLink.EncodeKeepsBits | hockey-scheduler/e2e/context-switcher.js:76 | encoding keeps the 24 bits of every group of three bytes, missing bytes being zero, and pads exactly the characters that only missing bytes would give |
| DeepLink.UrlAlphabet | hockey-scheduler/e2e/context-switcher.js:77 | the alphabet of the links, position by position |
| DeepLink.AtobAccepts | hockey-scheduler/e2e/context-switcher.js:93 | text without white space is decoded if and only if it is letters, digits, `+` and `/`, not one more than a multiple of four of them, with at most two pads that complete a multiple of four |
| DeepLink.AtobIgnoresSpace | hockey-scheduler/e2e/context-switcher.js:93 | white space anywhere in it makes no difference |
| JsonGrammar.ParseExactly | hockey-scheduler/e2e/context-switcher.js:93 | the parser accepts a text if and only if it is a JSON value between white space, with all escapes, numbers, arrays and objects of RFC 8259, and gives the value written there; a repeated member takes its last value |
| DeepLink.ParsePrintedCtx | hockey-scheduler/e2e/context-switcher.js:75-93 | the printed JSON parses back to its version and its two ids, for all ASCII ids, quotes and control characters included |
| DeepLink.LinkNamesItsIds | hockey-scheduler/e2e/context-switcher.js:74-97 | a link is accepted for two expected ids if and only if they are the ids it was made from, an empty id counting as none |
| DeepLink.SecondVersionNamesItsIds | hockey-scheduler/backend/hockey_scheduler/web/static/app.js:16035-16040 | so is the link of the second version that the page itself writes, whatever league it names |
| DeepLink.LinksAreInjective | hockey-scheduler/e2e/context-switcher.js:74-79 | two links are equal if and only if their ids are, an empty id counting as none |
| Transfers.RunTransferMode | tools/run_excel_transfers.py:403-570 | a batch returns the planned or the executed results and posts what the specification says; a dry run posts nothing; an empty entity map ends it |
| Transfers.DryRunRows | tools/run_excel_transfers.py:415-454 | the dry-run loop returns the plan of every row in order, or raises at the first row without a target |
| Transfers.ExecuteRows | tools/run_excel_transfers.py:460-570 | the execution loop returns one result per row in order and the posts in row order |
| Transfers.OutcomeExactly | tools/run_excel_transfers.py:461-568 | a row is skipped exactly when its source or target book is blocked, posts exactly when it is let through, resolved, read, built and changes something, and is reported transferred, to the resolved target, exactly when that post was answered with success |
| Transfers.GuardExact | tools/run_excel_transfers.py:264-283 | a row with a target passes the guard if and only if neither its source nor its target book is blocked, ignoring case and padding |
| TransferRules.BlockedSame | tools/run_excel_transfers.py:264-283 | a book is blocked if and only if some configured entry that is not blank equals it up to padding and letter case |
| TransferRules.ResolveExactly | src/main/python/ofam_asset_xfer/entity_resolver.py:36-63 | an entity resolves to a book if and only if it is not blank and the last entry for it, up to padding and letter case, gives that book, trimmed and not blank |
| TransferRules.SkippedExactly | tools/run_excel_transfers.py:268-283 | a trimmed row is skipped if and only if a configured entry names its source book or the book it goes to |
| TransferRules.SkippedNames | tools/run_excel_transfers.py:461-473 | the error of a skipped row names a blocked book, its source book if that is blocked |
| TransferRules.RowExactly | tools/run_excel_transfers.py:474-568 | what execution does with a row that goes to a book, outcome by outcome and field by field: when it posts, whether it is cross-book, and each result in full |
| TransferRules.PlannedExactly | tools/run_excel_transfers.py:432-452 | a dry run plans such a row, if nothing blocks it, for that book and the branch execution takes |
| TransferRules.NowhereFails | tools/run_excel_transfers.py:432-570 | a row that goes nowhere is one failed result of execution with no post, and ends a dry run |
| Transfers.NeverPostsBlocked | tools/run_excel_transfers.py:264-283 | no row, trimmed or not, posts a transfer from or to a blocked book |
| Transfers.BatchSafety | tools/run_excel_transfers.py:460-570 | results answer the rows one for one, each row posts at most once, no post involves a blocked book, and every transfer reported was posted |
| Transfers.DryRunCompletes | tools/run_excel_transfers.py:415-454 | a dry run completes if and only if every row it does not skip has or resolves a target |
| Transfers.UnresolvedEntityParts | tools/run_excel_transfers.py:432-477 | a row whose entity has no book ends a dry run, and is one failed row of an execution that posts nothing |
| Transfers.DryRunFaithful | tools/run_excel_transfers.py:415-556 | a completed dry run skips exactly the rows execution skips and predicts the target book and branch of every other row |
| Transfers.DryRunPredictsPosts | tools/run_excel_transfers.py:415-526 | every post of an execution goes where the dry run said it would |
| RouteContract.ExtractObjectBody | hockey-scheduler/e2e/check-v1-route-contract.js:34-47 | the loop returns the balanced text up to the closing brace of the first declaration, and raises exactly when there is no declaration or nothing closes it |
| RouteContract.ClosesOnce | hockey-scheduler/e2e/check-v1-route-contract.js:38-45 | at most one brace closes a declaration |
| RouteContract.ExtractsPrinted | hockey-scheduler/e2e/check-v1-route-contract.js:34-47 | for every balanced body, whatever precedes the first declaration and follows its end, the result is exactly that body |
| RouteContract.ExtractionUnique | hockey-scheduler/e2e/check-v1-route-contract.js:34-47 | a source has one result, and a returned body is balanced with no prefix closing more than it opens |
| Classifier.Kinds | hockey-scheduler/e2e/ci-classify.js:128-132 | the categories listed are exactly those of the paths that are not blank |
| Classifier.Classify | hockey-scheduler/e2e/ci-classify.js:123-167 | a job is on exactly outside pull requests, when nothing changed, or when some path's category demands it; the reason names the exit taken |
| Classifier.UnionOf | hockey-scheduler/e2e/ci-classify.js:141-157 | the flag loop turns on exactly the jobs that some category demands |
| Classifier.UnionHomomorphism | hockey-scheduler/e2e/ci-classify.js:123-167 | on pull requests the verdict of a combined change is the union of the two verdicts if and only if neither part is blank or the other runs everything |
| Classifier.SkipsExactly | hockey-scheduler/e2e/ci-classify.js:141-157 | the heavy jobs are all off if and only if a pull request changes only docs and the sibling project, and the body check is off if and only if it changes only the sibling project |
| Classifier.ProjectIsNeverSibling | hockey-scheduler/e2e/ci-classify.js:67-73 | the sibling's patterns and the workflow rule never take a path of this project |
| Classifier.BaseNameIs | hockey-scheduler/e2e/ci-classify.js:74-79 | manifests are recognised by what follows the last slash, in any directory |
| Classifier.ProjectKinds | hockey-scheduler/e2e/ci-classify.js:58-109 | what a path of this project is, stated area by area without regard to the order of the rules |
| Routing.RoutingTable | hockey-scheduler/e2e/ci-classify.js:58-167 | the jobs of a change to one path, by where it lies and how it is named: workflows, manifests, the API surface, the classifier's own files and unknown paths run everything, the sibling's nothing, notes the body check, static files and journeys the browser jobs, SQL and backend Python the database jobs |
| Routing.EachPathDecides | hockey-scheduler/e2e/ci-classify.js:123-167 | a change of many paths runs a job if and only if the change of one of them alone does |
| Routing.OtherwiseEverything | hockey-scheduler/e2e/ci-classify.js:123-130 | every other event runs everything, and so does a pull request with no path left; an event without a name is a pull request |
| Classifier.ApiChangesReachTheBrowser | hockey-scheduler/e2e/ci-classify.js:14-16 | a change to the API surface runs everything if and only if it is a manifest or ends in neither `.md` nor `.sql` |
| Classifier.OutsiderRunsEverything | hockey-scheduler/e2e/ci-classify.js:36-44 | a path outside the project and the sibling runs everything if and only if it is a workflow, a manifest, or ends in neither `.md` nor `.sql` |
| Classifier.ClassifierGuardsItself | hockey-scheduler/e2e/ci-classify.js:85-91 | a change to the classifier's own files runs everything if and only if it is a manifest or not Markdown |
| Classifier.NotesRunLess | hockey-scheduler/e2e/ci-classify.js:80 | a change of `NOTES.md` alone does not run everything |
| Classifier.ClassifierNotesRunLess | hockey-scheduler/e2e/ci-classify.js:80 | a change of `hockey-scheduler/e2e/ci-classify.md` alone does not run everything |
| Classifier.ApiSqlRunsLess | hockey-scheduler/e2e/ci-classify.js:97 | a change of an SQL file in the API surface alone does not run everything |

## Left out

- Text outside ASCII: white space and letter case are the ASCII part of what Python and JavaScript define, and deep
  links are for ASCII ids, since `encodeCtx` writes UTF-8 where the decoder reads single bytes.
- Scenario values other than strings, `null` and absence: numbers, lists and nested objects in the JSON catalogue,
  and the checks of `_load_scenarios`; a scenario object that is itself empty.
- The mock client's index by asset id, which nothing reads, and the time stamp and copied parameters of its log.
- The distribution tables and descriptive fields of the asset-information answer, which are copied through, and the
  exception when a scenario lacks one of its four distribution tables.
- The matrix, summary and gap reports of the simulation, and its files.
- The audit of render() on more than one await in a statement, on control flow between statements and on nested calls
  of render(): the audit examines lines, and the model of a pass is straight-line code.
- The fifteen-second limit of the render barrier and the times it stamps.
- The gate's clock: an expiry is a step that may happen at any time while somebody is in the way. Tickets live in one
  process, and a request without a user takes none.
- The second fence of the read path: version counters, the lifecycle gate and the path for SQLite files in
  `hockey-scheduler/backend/hockey_scheduler/web/server.py`; the resolution of the effective context by role, scope
  and lifecycle; the ceiling's refusal of an archived Season. The epoch is an
  arbitrary function of the user and the stored context; its keyed hash is not modelled.
- `path.join` on a linked name, the inventory text of the stylesheet gate, and `Number` on integers beyond double
  precision.
- The key and path extractors of `hockey-scheduler/e2e/check-v1-route-contract.js`, which are single expressions over
  an extracted body, and the comparison of their results.
- Building transfer parameters and overrides, and the service itself: what it answers for a row is a parameter. The
  handle a post is sent with is left out too: a dry run names `bookTransfer` for the cross-book branch, while
  execution sends `transferAsset` in both.
- Transfers.GuardExact: for rows whose target book is trimmed, as reading the workbook leaves them; for any row at
  all `Transfers.NeverPostsBlocked` holds.
- Transfers.OutcomeExactly: for rows whose target book is trimmed, as reading the workbook leaves them.
- DFF mode, reading the workbook, and writing results.
- The classifier's command line and its output file.
- Browser journeys, servers, polling and viewports.
- The text of error messages, except where a result carries it.
