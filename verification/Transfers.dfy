/** The batch executor of tools/run_excel_transfers.py: blocked books, dry run and execution. */
module Transfers {
  import opened Text

  datatype Row = Row(
    requestId: string, assetNumber: string, assetId: string, book: string,
    entity: string, date: string, targetBook: string)

  /** `x.upper().strip()`: how books are compared with the blocked ones. */
  function Norm(s: string): string {
    PyStrip(Upper(s))
  }

  // ---- resolving entities to books ----

  type Resolver = map<string, string>

  /** `EntityBookResolver(entity_book_map)`: normalised names, trimmed books, the last entry winning;
      `None` stands for the error on an empty map. */
  function MakeResolver(entries: seq<(string, string)>): Option<Resolver> {
    if entries == [] then None else Some(Normalised(entries))
  }

  function Normalised(entries: seq<(string, string)>): Resolver {
    if entries == [] then map[]
    else
      var (name, book) := entries[|entries| - 1];
      Normalised(entries[..|entries| - 1])[Norm(name) := PyStrip(book)]
  }

  /** `resolve_target_book`; `None` stands for its ValidationError. */
  function Resolve(r: Resolver, entity: string): Option<string> {
    var key := Norm(entity);
    if key == "" || key !in r || r[key] == "" then None else Some(r[key])
  }

  /** `row.target_book_type_code or resolver.resolve_target_book(...)`. */
  function TargetOf(r: Resolver, row: Row): Option<string> {
    if row.targetBook != "" then Some(row.targetBook) else Resolve(r, row.entity)
  }

  predicate CrossBook(row: Row, target: string) {
    Upper(PyStrip(target)) != Upper(PyStrip(row.book))
  }

  // ---- the blocked-book guard ----

  function BlockedBooks(config: seq<string>): set<string> {
    set b | b in config && b != "" && PyStrip(b) != "" :: Norm(b)
  }

  /** The offending book of a row, if its source or target book is blocked. */
  function Offender(row: Row, blocked: set<string>, r: Resolver): Option<string> {
    if blocked == {} then None
    else if Norm(row.book) in blocked then Some(row.book)
    else
      var given := Norm(row.targetBook);
      var tgt := if given == "" && row.entity != "" then
                   match Resolve(r, row.entity) case Some(b) => Norm(b) case None => ""
                 else given;
      if tgt != "" && tgt in blocked then Some(tgt) else None
  }

  // ---- results ----

  datatype Status = Skipped | DryRun | NoChange | Transferred | Failed

  datatype Result = Result(
    requestId: string, assetNumber: string, book: string, status: Status, assetId: string,
    targetBook: string, crossBook: Option<bool>, error: string)

  /** What the service does with a row: reading the asset and building the parameters may each raise;
      a same-book request may change nothing; a post raises or answers. */
  datatype Service = Service(info: Reply<string>, buildError: Option<string>, sameState: bool, post: Reply<Answer>)

  datatype Reply<T> = Raises(error: string) | Returns(value: T)

  datatype Answer = Answer(code: string, message: string)

  /** A transfer posted to the service for row number `row`. */
  datatype Post = Post(row: nat, source: string, target: string)

  function SkippedResult(row: Row, offender: string): Result {
    Result(row.requestId, row.assetNumber, row.book, Skipped, row.assetId, "", None, "blocked book: " + offender)
  }

  function FailedResult(row: Row, error: string): Result {
    Result(row.requestId, row.assetNumber, row.book, Failed, "", "", None, error)
  }

  function DoneResult(row: Row, assetId: string, target: string, cross: bool): Result {
    Result(row.requestId, row.assetNumber, row.book, Transferred, assetId, target, Some(cross), "")
  }

  const UNRESOLVED := "No book mapping"

  /** A dry run plans the row; `None` stands for the resolver's exception, which nothing catches. */
  function Planned(row: Row, blocked: set<string>, r: Resolver): Option<Result> {
    match Offender(row, blocked, r)
    case Some(o) => Some(SkippedResult(row, o))
    case None =>
      match TargetOf(r, row)
      case None => None
      case Some(t) =>
        Some(DoneResult(row, row.assetId, t, CrossBook(row, t)).(status := DryRun))
  }

  /** Executing the row: the result, and whether a transfer is posted. */
  function Executed(row: Row, blocked: set<string>, r: Resolver, service: Service): (Result, bool) {
    match Offender(row, blocked, r)
    case Some(o) => (SkippedResult(row, o), false)
    case None =>
      match TargetOf(r, row)
      case None => (FailedResult(row, UNRESOLVED), false)
      case Some(t) =>
        var cross := CrossBook(row, t);
        if service.info.Raises? then (FailedResult(row, service.info.error), false)
        else if service.buildError.Some? then (FailedResult(row, service.buildError.value), false)
        else
          var done := DoneResult(row, service.info.value, t, cross);
          if !cross && service.sameState then (done.(status := NoChange), false)
          else if service.post.Raises? then (FailedResult(row, service.post.error), true)
          else
            var answer := service.post.value;
            var code := PyStrip(answer.code);
            if code == "S" then (done, true)
            else (done.(status := Failed, error := "X_RETURN_STATUS=" + code + ": " + answer.message), true)
  }

  // ---- batches ----

  function Plans(rows: seq<Row>, blocked: set<string>, r: Resolver): Option<seq<Result>> {
    if rows == [] then Some([])
    else
      match Plans(rows[..|rows| - 1], blocked, r)
      case None => None
      case Some(front) =>
        match Planned(rows[|rows| - 1], blocked, r)
        case None => None
        case Some(last) => Some(front + [last])
  }

  function Results(rows: seq<Row>, blocked: set<string>, r: Resolver, service: seq<Service>): seq<Result>
    requires |service| == |rows|
  {
    seq(|rows|, i requires 0 <= i < |rows| => Executed(rows[i], blocked, r, service[i]).0)
  }

  function Posts(rows: seq<Row>, blocked: set<string>, r: Resolver, service: seq<Service>): seq<Post>
    requires |service| == |rows|
  {
    if rows == [] then []
    else
      var n := |rows| - 1;
      Posts(rows[..n], blocked, r, service[..n]) +
      (if Executed(rows[n], blocked, r, service[n]).1
       then [Post(n, rows[n].book, TargetOf(r, rows[n]).GetOr(""))] else [])
  }

  /** `None` stands for the exception that ends the whole run. */
  method RunTransferMode(
    rows: seq<Row>, entityMap: seq<(string, string)>, blockedConfig: seq<string>, dryRun: bool, service: seq<Service>)
    returns (results: Option<seq<Result>>, posts: seq<Post>)
    requires |service| == |rows|
    ensures MakeResolver(entityMap).None? ==> results == None && posts == []
    ensures MakeResolver(entityMap).Some? ==>
      var r, blocked := MakeResolver(entityMap).value, BlockedBooks(blockedConfig);
      if dryRun then results == Plans(rows, blocked, r) && posts == []
      else results == Some(Results(rows, blocked, r, service)) && posts == Posts(rows, blocked, r, service)
  {
    hide Offender, BlockedBooks, Resolve, CrossBook, Normalised;
    posts := [];
    match MakeResolver(entityMap)
    case None => return None, [];
    case Some(resolver) =>
      var blocked := BlockedBooks(blockedConfig);
      if dryRun {
        results := DryRunRows(rows, blocked, resolver);
      } else {
        var done: seq<Result>;
        done, posts := ExecuteRows(rows, blocked, resolver, service);
        results := Some(done);
      }
  }

  method DryRunRows(rows: seq<Row>, blocked: set<string>, r: Resolver) returns (results: Option<seq<Result>>)
    ensures results == Plans(rows, blocked, r)
  {
    hide Offender, Resolve, CrossBook;
    var planned: seq<Result> := [];
    for i := 0 to |rows|
      invariant Plans(rows[..i], blocked, r) == Some(planned)
    {
      var row := rows[i];
      assert rows[..i + 1][..i] == rows[..i];
      match Offender(row, blocked, r)
      case Some(o) =>
        planned := planned + [SkippedResult(row, o)];
      case None =>
        match TargetOf(r, row)
        case None =>
          PlansAbort(rows, i + 1, blocked, r);
          return None;
        case Some(t) =>
          planned := planned + [DoneResult(row, row.assetId, t, CrossBook(row, t)).(status := DryRun)];
    }
    assert rows[..|rows|] == rows;
    results := Some(planned);
  }

  lemma {:induction false} PlansAbort(rows: seq<Row>, n: nat, blocked: set<string>, r: Resolver)
    requires n <= |rows| && Plans(rows[..n], blocked, r) == None
    ensures Plans(rows, blocked, r) == None
    decreases |rows| - n
  {
    if n < |rows| {
      assert rows[..n + 1][..n] == rows[..n];
      PlansAbort(rows, n + 1, blocked, r);
    } else {
      assert rows[..n] == rows;
    }
  }

  method ExecuteRows(rows: seq<Row>, blocked: set<string>, r: Resolver, service: seq<Service>)
    returns (results: seq<Result>, posts: seq<Post>)
    requires |service| == |rows|
    ensures results == Results(rows, blocked, r, service) && posts == Posts(rows, blocked, r, service)
  {
    hide Offender, Resolve, CrossBook;
    results, posts := [], [];
    for i := 0 to |rows|
      invariant results == Results(rows[..i], blocked, r, service[..i])
      invariant posts == Posts(rows[..i], blocked, r, service[..i])
    {
      assert rows[..i + 1][..i] == rows[..i] && service[..i + 1][..i] == service[..i];
      var result, target := ExecuteRow(rows[i], blocked, r, service[i]);
      results := results + [result];
      if target.Some? {
        posts := posts + [Post(i, rows[i].book, target.value)];
      }
    }
    assert rows[..|rows|] == rows && service[..|rows|] == service;
  }

  /** One turn of the execution loop; `posted` is the target of the transfer posted, if one was. */
  method ExecuteRow(row: Row, blocked: set<string>, r: Resolver, service: Service)
    returns (result: Result, posted: Option<string>)
    ensures result == Executed(row, blocked, r, service).0
    ensures posted == if Executed(row, blocked, r, service).1 then Some(TargetOf(r, row).GetOr("")) else None
  {
    hide Offender, Resolve, CrossBook;
    match Offender(row, blocked, r)
    case Some(o) => return SkippedResult(row, o), None;
    case None =>
      match TargetOf(r, row)
      case None => return FailedResult(row, UNRESOLVED), None;
      case Some(target) =>
        var cross := CrossBook(row, target);
        if service.info.Raises? { return FailedResult(row, service.info.error), None; }
        if service.buildError.Some? { return FailedResult(row, service.buildError.value), None; }
        result := DoneResult(row, service.info.value, target, cross);
        if !cross && service.sameState { return result.(status := NoChange), None; }
        posted := Some(target);
        if service.post.Raises? { return FailedResult(row, service.post.error), posted; }
        var code := PyStrip(service.post.value.code);
        if code != "S" {
          result := result.(status := Failed, error := "X_RETURN_STATUS=" + code + ": " + service.post.value.message);
        }
  }

  // ---- safety ----

  /** The guard is exact: a row with a target is let through precisely when neither its source nor its
      target book is blocked. */
  lemma GuardExact(row: Row, config: seq<string>, r: Resolver)
    requires TargetOf(r, row).Some? && row.targetBook == PyStrip(row.targetBook)
    ensures Offender(row, BlockedBooks(config), r) == None <==>
      Norm(row.book) !in BlockedBooks(config) && Norm(TargetOf(r, row).value) !in BlockedBooks(config)
  {
    hide Resolve;
    BlockedNotBlank(config);
    NormOfBlank(row.targetBook);
    ResolvedEntity(r, row.entity);
  }

  lemma BlockedNotBlank(config: seq<string>)
    ensures "" !in BlockedBooks(config)
  {
    forall b | b in config && b != "" && PyStrip(b) != "" ensures Norm(b) != "" { NormOfBlank(b); }
  }

  /** Upper-casing keeps white space as it is. */
  lemma NormOfBlank(s: string)
    ensures Norm(s) == "" <==> PyStrip(s) == ""
  {
    BlankIsSpace(s, PySpace);
    BlankIsSpace(Upper(s), PySpace);
    assert forall i :: 0 <= i < |s| ==> Upper(s)[i] == UpperChar(s[i]) && (PySpace(UpperChar(s[i])) <==> PySpace(s[i]));
  }

  lemma ResolvedEntity(r: Resolver, entity: string)
    ensures Resolve(r, entity).Some? ==> entity != ""
  {
    StripSpaces("", PySpace);
    assert Upper("") == "";
  }

  /** Even for rows that were never trimmed, nothing is posted to or from a blocked book. */
  lemma NeverPostsBlocked(row: Row, config: seq<string>, r: Resolver, service: Service)
    requires Executed(row, BlockedBooks(config), r, service).1
    ensures TargetOf(r, row).Some?
    ensures Norm(row.book) !in BlockedBooks(config) && Norm(TargetOf(r, row).value) !in BlockedBooks(config)
  {
    hide Resolve, BlockedBooks, CrossBook;
    BlockedNotBlank(config);
    ResolvedEntity(r, row.entity);
    assert Upper("") == "";
  }

  lemma {:induction false} PostTargets(rows: seq<Row>, blocked: set<string>, r: Resolver, service: seq<Service>, k: nat)
    requires |service| == |rows| && k < |Posts(rows, blocked, r, service)|
    ensures var p := Posts(rows, blocked, r, service)[k];
      p.row < |rows| && Executed(rows[p.row], blocked, r, service[p.row]).1 &&
      p.source == rows[p.row].book && p.target == TargetOf(r, rows[p.row]).GetOr("")
  {
    hide Offender, TargetOf, CrossBook, Executed;
    var n := |rows| - 1;
    var front := Posts(rows[..n], blocked, r, service[..n]);
    if k < |front| { PostTargets(rows[..n], blocked, r, service[..n], k); }
  }

  lemma {:induction false} PostsOrdered(rows: seq<Row>, blocked: set<string>, r: Resolver, service: seq<Service>)
    requires |service| == |rows|
    ensures forall k :: 0 <= k < |Posts(rows, blocked, r, service)| ==> Posts(rows, blocked, r, service)[k].row < |rows|
    ensures forall j, k :: 0 <= j < k < |Posts(rows, blocked, r, service)| ==>
      Posts(rows, blocked, r, service)[j].row < Posts(rows, blocked, r, service)[k].row
  {
    hide Offender, Resolve, CrossBook;
    if rows != [] {
      var n := |rows| - 1;
      PostsOrdered(rows[..n], blocked, r, service[..n]);
      var front, posts := Posts(rows[..n], blocked, r, service[..n]), Posts(rows, blocked, r, service);
      var last := Post(n, rows[n].book, TargetOf(r, rows[n]).GetOr(""));
      assert posts == front + (if Executed(rows[n], blocked, r, service[n]).1 then [last] else []);
      assert front + [] == front;
      assert forall k :: 0 <= k < |front| ==> (front + [last])[k] == front[k] && front[k].row < n;
    }
  }

  lemma {:induction false} PostOf(rows: seq<Row>, blocked: set<string>, r: Resolver, service: seq<Service>, i: nat)
    returns (k: nat)
    requires |service| == |rows| && i < |rows| && Executed(rows[i], blocked, r, service[i]).1
    ensures var posts := Posts(rows, blocked, r, service);
      k < |posts| && posts[k] == Post(i, rows[i].book, TargetOf(r, rows[i]).GetOr(""))
  {
    hide Executed, TargetOf;
    var n := |rows| - 1;
    if i < n {
      k := PostOf(rows[..n], blocked, r, service[..n], i);
    } else {
      k := |Posts(rows[..n], blocked, r, service[..n])|;
    }
  }

  /** What a row's outcome tells: a skipped row has a blocked book; a transfer is posted exactly for a row that
      passed the guard, has a target, was read and built, and changes something; and the row is reported
      transferred exactly when that post was answered with success. */
  lemma OutcomeExactly(row: Row, config: seq<string>, r: Resolver, service: Service)
    requires row.targetBook == PyStrip(row.targetBook)
    ensures var (result, posted) := Executed(row, BlockedBooks(config), r, service);
      var reachable := TargetOf(r, row).Some? && service.info.Returns? && service.buildError.None?;
      var blocked :=
        || Norm(row.book) in BlockedBooks(config)
        || (TargetOf(r, row).Some? && Norm(TargetOf(r, row).value) in BlockedBooks(config));
      && (result.status == Skipped <==> blocked)
      && (posted <==> !blocked && reachable && (CrossBook(row, TargetOf(r, row).value) || !service.sameState))
      && (result.status == NoChange <==> !blocked && reachable && !posted)
      && (result.status == Transferred <==> posted && service.post.Returns? && PyStrip(service.post.value.code) == "S")
      && (result.status in {Transferred, NoChange} ==>
          Some(result.targetBook) == TargetOf(r, row) && result.assetId == service.info.value)
  {
    hide BlockedBooks, Norm, CrossBook, TargetOf, Offender;
    BlockedExactly(row, config, r);
  }

  lemma BlockedExactly(row: Row, config: seq<string>, r: Resolver)
    requires row.targetBook == PyStrip(row.targetBook)
    ensures Offender(row, BlockedBooks(config), r).Some? <==>
      || Norm(row.book) in BlockedBooks(config)
      || (TargetOf(r, row).Some? && Norm(TargetOf(r, row).value) in BlockedBooks(config))
  {
    hide BlockedBooks, Resolve;
    if TargetOf(r, row).Some? {
      GuardExact(row, config, r);
    } else {
      BlockedNotBlank(config);
      NormOfBlank(row.targetBook);
    }
  }

  lemma StatusOfPost(row: Row, blocked: set<string>, r: Resolver, service: Service)
    ensures var (result, posted) := Executed(row, blocked, r, service);
      && (posted ==> result.status in {Transferred, Failed})
      && (result.status == Transferred ==> posted && Some(result.targetBook) == TargetOf(r, row))
      && result.requestId == row.requestId && result.assetNumber == row.assetNumber && result.book == row.book
  {
    hide Offender, CrossBook, TargetOf;
  }

  /** In every batch the results answer the rows one for one in order, every post belongs to its own row,
      rows post at most once, no post involves a blocked book, and every transfer reported was posted. */
  lemma BatchSafety(rows: seq<Row>, config: seq<string>, r: Resolver, service: seq<Service>)
    requires |service| == |rows|
    ensures var blocked := BlockedBooks(config);
      var results, posts := Results(rows, blocked, r, service), Posts(rows, blocked, r, service);
      && |results| == |rows|
      && (forall i :: 0 <= i < |rows| ==>
          results[i].requestId == rows[i].requestId && results[i].assetNumber == rows[i].assetNumber &&
          results[i].book == rows[i].book)
      && (forall j, k :: 0 <= j < k < |posts| ==> posts[j].row < posts[k].row)
      && (forall k :: 0 <= k < |posts| ==>
          var p := posts[k];
          p.row < |rows| && p.source == rows[p.row].book && results[p.row].status in {Transferred, Failed} &&
          Norm(p.source) !in blocked && Norm(p.target) !in blocked)
      && (forall i :: 0 <= i < |rows| && results[i].status == Transferred ==>
          Post(i, rows[i].book, results[i].targetBook) in posts)
  {
    hide Executed, BlockedBooks, TargetOf, Norm, Posts;
    var blocked := BlockedBooks(config);
    var results, posts := Results(rows, blocked, r, service), Posts(rows, blocked, r, service);
    PostsOrdered(rows, blocked, r, service);
    forall k | 0 <= k < |posts|
      ensures var p := posts[k];
        p.row < |rows| && p.source == rows[p.row].book && results[p.row].status in {Transferred, Failed} &&
        Norm(p.source) !in blocked && Norm(p.target) !in blocked
    {
      PostTargets(rows, blocked, r, service, k);
      var p := posts[k];
      NeverPostsBlocked(rows[p.row], config, r, service[p.row]);
      StatusOfPost(rows[p.row], blocked, r, service[p.row]);
    }
    forall i | 0 <= i < |rows|
      ensures results[i].requestId == rows[i].requestId && results[i].assetNumber == rows[i].assetNumber
      ensures results[i].book == rows[i].book
      ensures results[i].status == Transferred ==> Post(i, rows[i].book, results[i].targetBook) in posts
    {
      StatusOfPost(rows[i], blocked, r, service[i]);
      if results[i].status == Transferred {
        var k := PostOf(rows, blocked, r, service, i);
        assert posts[k] in posts;
      }
    }
  }

  // ---- dry run against execution ----

  /** A dry run completes exactly when every row it does not skip has or resolves a target book; an
      unresolvable entity ends it, where execution records a failed row and goes on. */
  lemma {:induction false} DryRunCompletes(rows: seq<Row>, blocked: set<string>, r: Resolver)
    ensures Plans(rows, blocked, r).Some? <==>
      forall i :: 0 <= i < |rows| ==> Offender(rows[i], blocked, r).Some? || TargetOf(r, rows[i]).Some?
    ensures Plans(rows, blocked, r).Some? ==> |Plans(rows, blocked, r).value| == |rows|
    ensures Plans(rows, blocked, r).Some? ==>
      forall i :: 0 <= i < |rows| ==> Planned(rows[i], blocked, r) == Some(Plans(rows, blocked, r).value[i])
  {
    hide Offender, TargetOf, CrossBook;
    if rows != [] {
      var n := |rows| - 1;
      DryRunCompletes(rows[..n], blocked, r);
      assert forall i :: 0 <= i < n ==> rows[..n][i] == rows[i];
    }
  }

  /** The smallest batch on which the two part: one row whose entity has no book ends the dry run, and is one
      failed row of an execution that posts nothing. */
  lemma UnresolvedEntityParts(service: Service)
    ensures var r := MakeResolver([("US", "B2")]).value;
      var rows := [Row("R1", "N1", "", "B1", "X", "2024-01-05", "")];
      && Plans(rows, {}, r) == None
      && Results(rows, {}, r, [service]) == [FailedResult(rows[0], UNRESOLVED)]
      && Posts(rows, {}, r, [service]) == []
  {
    hide Strip;
    var row := Row("R1", "N1", "", "B1", "X", "2024-01-05", "");
    StripOfTrimmed("US", PySpace);
    StripOfTrimmed("X", PySpace);
    assert Upper("US") == "US" && Upper("X") == "X";
    var entries := [("US", "B2")];
    assert entries[..0] == [] && Normalised([]) == map[];
    assert Normalised(entries) == map["US" := PyStrip("B2")];
    assert TargetOf(Normalised(entries), row) == None;
    assert [row][..0] == [] && Plans([], {}, Normalised(entries)) == Some([]);
  }

  /** A completed dry run skips exactly the rows execution skips, for the same book, and predicts the target
      book and the branch of every row execution gets to decide on. */
  lemma DryRunFaithful(rows: seq<Row>, blocked: set<string>, r: Resolver, service: seq<Service>, i: nat)
    requires |service| == |rows| && i < |rows| && Plans(rows, blocked, r).Some?
    ensures |Plans(rows, blocked, r).value| == |rows|
    ensures var plan, result := Plans(rows, blocked, r).value[i], Results(rows, blocked, r, service)[i];
      && (plan.status == Skipped <==> result.status == Skipped)
      && (plan.status == Skipped ==> plan == result)
      && (result.crossBook.Some? ==> plan.targetBook == result.targetBook && plan.crossBook == result.crossBook)
      && (plan.status != Skipped ==> plan.status == DryRun && TargetOf(r, rows[i]) == Some(plan.targetBook))
      && (plan.status != Skipped ==> plan.crossBook == Some(CrossBook(rows[i], plan.targetBook)))
  {
    hide Offender, TargetOf, CrossBook;
    DryRunCompletes(rows, blocked, r);
    assert Planned(rows[i], blocked, r) == Some(Plans(rows, blocked, r).value[i]);
  }

  /** The posts of an execution go where the dry run said they would. */
  lemma DryRunPredictsPosts(rows: seq<Row>, config: seq<string>, r: Resolver, service: seq<Service>, k: nat)
    requires |service| == |rows| && Plans(rows, BlockedBooks(config), r).Some?
    requires k < |Posts(rows, BlockedBooks(config), r, service)|
    ensures var p := Posts(rows, BlockedBooks(config), r, service)[k];
      p.row < |Plans(rows, BlockedBooks(config), r).value| &&
      var plan := Plans(rows, BlockedBooks(config), r).value[p.row];
      plan.status == DryRun && plan.targetBook == p.target
  {
    hide Offender, BlockedBooks, TargetOf, CrossBook, Norm, Posts, Plans;
    var blocked := BlockedBooks(config);
    PostTargets(rows, blocked, r, service, k);
    var p := Posts(rows, blocked, r, service)[k];
    DryRunFaithful(rows, blocked, r, service, p.row);
    DryRunCompletes(rows, blocked, r);
    assert Planned(rows[p.row], blocked, r) == Some(Plans(rows, blocked, r).value[p.row]);
  }
}
