/** The report side of the simulation: rows built from scenarios, the list of books to ask for, and the
    mock report client that answers book by book (`MockBIPClient`). */
module Report {
  import opened Ordering
  import opened Scenarios
  import opened Text

  type Row = map<string, string>

  const BOOK := "P_BOOK_TYPE_CODE"

  /** The extra columns are written over the fixed ones, in their order. */
  function WithExtras(row: Row, extras: seq<(string, string)>): Row {
    if extras == [] then row
    else WithExtras(row, Init(extras))[Last(extras).0 := Last(extras).1]
  }

  function FirstLocation(ccids: seq<Json>): Json {
    if ccids == [] then Str("") else ccids[0]
  }

  function FixedColumns(s: Scenario): Row {
    map[
      "CASE_ID" := StrOrBlank(s.caseId),
      "ASSET_ID" := StrOrBlank(s.source.assetId),
      "ASSET_NUMBER" := StrOrBlank(s.source.assetNumber),
      BOOK := StrOrBlank(s.source.bookTypeCode),
      "TRANSFER_TO_ENTITY" := StrOrBlank(s.dff.transferToEntity),
      "TRANSFER_DATE" := StrOrBlank(s.dff.transferDate),
      "TRANSFER_TO_LOCATION" := StrOrBlank(s.dff.transferToLocation),
      "FINAL_TARGET_BOOK_TYPE_CODE" := StrOrBlank(s.dff.finalTargetBook),
      "TARGET_LOCATION_ID" := StrOrBlank(s.dff.targetLocationId),
      "CURRENT_LOCATION_ID" := PyStr(Or(s.dff.currentLocationId, FirstLocation(s.source.locationCcids))),
      "TARGET_EXPENSE_CCID" := StrOrBlank(s.dff.targetExpenseCcid)]
  }

  function BuildBipRow(s: Scenario): Row {
    WithExtras(FixedColumns(s), s.dff.extraColumns)
  }

  function Rows(ss: seq<Scenario>): (r: seq<Row>)
    ensures |r| == |ss| && forall i :: 0 <= i < |ss| ==> r[i] == BuildBipRow(ss[i])
  {
    seq(|ss|, i requires 0 <= i < |ss| => BuildBipRow(ss[i]))
  }

  /** The book a row is filed under. */
  function BookOf(row: Row): string {
    PyStrip(if BOOK in row then row[BOOK] else "")
  }

  /** The rows filed under a book, in their order. */
  function FiledUnder(rows: seq<Row>, book: string): seq<Row> {
    if rows == [] then []
    else FiledUnder(Init(rows), book) + (if BookOf(Last(rows)) == book then [Last(rows)] else [])
  }

  class MockBIPClient {
    ghost const rows: seq<Row>
    var rowsByBook: map<string, seq<Row>>

    ghost predicate Filed(n: nat)
      requires n <= |rows|
      reads this`rowsByBook
    {
      forall book :: (if book in rowsByBook then rowsByBook[book] else []) == FiledUnder(rows[..n], book)
    }

    constructor (given: seq<Row>)
      ensures rows == given && Filed(|rows|)
    {
      rows := given;
      rowsByBook := map[];
      new;
      for i := 0 to |given|
        invariant Filed(i)
      {
        var book := BookOf(given[i]);
        assert Init(given[..i + 1]) == given[..i];
        rowsByBook := rowsByBook[book := (if book in rowsByBook then rowsByBook[book] else []) + [given[i]]];
      }
    }

    /** A report for one book: exactly the rows filed under its stripped name; asking changes nothing. */
    method RunReport(book: Json) returns (report: seq<Row>)
      requires Filed(|rows|)
      ensures report == FiledUnder(rows, PyStrip(OrEmpty(book)))
    {
      var key := PyStrip(OrEmpty(book));
      assert rows[..|rows|] == rows;
      report := if key in rowsByBook then rowsByBook[key] else [];
    }
  }

  /** A book some scenario or the entity map names. */
  ghost predicate Named(ss: seq<Scenario>, m: EntityMap, book: string) {
    || book in m.Values
    || (exists s :: s in ss && s.source.bookTypeCode == Str(book) && book != "")
    || (exists s :: s in ss && ResolvedTargetBook(s, m) == book != "")
  }

  function BookKey(book: string): Key {
    Key(0, [book])
  }

  /** Every named book once, in text order. */
  ghost predicate Lists(books: seq<string>, ss: seq<Scenario>, m: EntityMap) {
    && (forall book :: book in books <==> Named(ss, m, book))
    && Distinct(books, (b: string) => b)
    && Sorted(books, BookKey)
  }

  method AllBooks(ss: seq<Scenario>, m: EntityMap) returns (books: seq<string>)
    ensures Lists(books, ss, m)
  {
    hide Sorted, ResolvedTargetBook;
    var found := m.Values;
    for i := 0 to |ss|
      invariant forall book :: book in found <==> Named(ss[..i], m, book)
    {
      var s := ss[i];
      assert ss[..i + 1] == ss[..i] + [s];
      if Truthy(s.source.bookTypeCode) {
        found := found + {s.source.bookTypeCode.text};
      }
      var target := ResolvedTargetBook(s, m);
      if target != "" {
        found := found + {target};
      }
    }
    assert ss[..|ss|] == ss;
    books := Elements(found);
    books := SortedBooks(books);
  }

  method Elements(found: set<string>) returns (list: seq<string>)
    ensures forall b :: b in list <==> b in found
    ensures Distinct(list, (b: string) => b)
  {
    list := [];
    var todo := found;
    while todo != {}
      invariant todo <= found
      invariant forall b :: b in list <==> b in found - todo
      invariant Distinct(list, (b: string) => b)
      decreases |todo|
    {
      var b :| b in todo;
      assert b !in list;
      DistinctGrows(list, b);
      list, todo := list + [b], todo - {b};
    }
  }

  lemma DistinctGrows(list: seq<string>, b: string)
    requires Distinct(list, (b: string) => b) && b !in list
    ensures Distinct(list + [b], (b: string) => b)
  {
    forall i, j | 0 <= i < j < |list + [b]| ensures (list + [b])[i] != (list + [b])[j] {
      assert (list + [b])[i] == list[i];
      if j < |list| { assert (list + [b])[j] == list[j]; }
    }
  }

  method SortedBooks(list: seq<string>) returns (books: seq<string>)
    requires Distinct(list, (b: string) => b)
    ensures forall b :: b in books <==> b in list
    ensures Distinct(books, (b: string) => b) && Sorted(books, BookKey)
  {
    books := SortBy(list, BookKey);
    SortBySpec(list, BookKey, Key(0, []));
    DistinctPermute(list, books, (b: string) => b);
    forall b ensures b in books <==> b in list {
      assert b in multiset(books) <==> b in multiset(list);
    }
  }

  // ----- what a row says

  /** `str` of a field that may be missing. */
  predicate Column(v: Json, t: string) {
    v == Str(t) || (v == Missing && t == "") || (v == Null && t == "None")
  }

  predicate Shown(row: Row, name: string, v: Json) {
    name in row && Column(v, row[name])
  }

  lemma Columns(v: Json)
    ensures Column(v, StrOrBlank(v))
  {
  }

  /** The fixed columns, each from its own field. */
  lemma SourceColumns(s: Scenario)
    ensures Shown(FixedColumns(s), "CASE_ID", s.caseId)
    ensures Shown(FixedColumns(s), "ASSET_ID", s.source.assetId)
    ensures Shown(FixedColumns(s), "ASSET_NUMBER", s.source.assetNumber)
    ensures Shown(FixedColumns(s), "P_BOOK_TYPE_CODE", s.source.bookTypeCode)
  {
    hide StrOrBlank, PyStr, Column;
    Columns(s.caseId);
    Columns(s.source.assetId);
    Columns(s.source.assetNumber);
    Columns(s.source.bookTypeCode);
  }

  lemma TransferColumns(s: Scenario)
    ensures Shown(FixedColumns(s), "TRANSFER_TO_ENTITY", s.dff.transferToEntity)
    ensures Shown(FixedColumns(s), "TRANSFER_DATE", s.dff.transferDate)
    ensures Shown(FixedColumns(s), "TRANSFER_TO_LOCATION", s.dff.transferToLocation)
    ensures Shown(FixedColumns(s), "FINAL_TARGET_BOOK_TYPE_CODE", s.dff.finalTargetBook)
  {
    hide StrOrBlank, PyStr, Column;
    Columns(s.dff.transferToEntity);
    Columns(s.dff.transferDate);
    Columns(s.dff.transferToLocation);
    Columns(s.dff.finalTargetBook);
  }

  /** The current location falls back on the first CCID of the source. */
  lemma TargetColumns(s: Scenario)
    ensures Shown(FixedColumns(s), "TARGET_LOCATION_ID", s.dff.targetLocationId)
    ensures Shown(FixedColumns(s), "TARGET_EXPENSE_CCID", s.dff.targetExpenseCcid)
    ensures var row := FixedColumns(s);
      "CURRENT_LOCATION_ID" in row && Located(s, row["CURRENT_LOCATION_ID"])
  {
    hide StrOrBlank, PyStr, Column, Located;
    Columns(s.dff.targetLocationId);
    Columns(s.dff.targetExpenseCcid);
    LocatedAt(s);
  }

  predicate Located(s: Scenario, t: string) {
    if !Blank(s.dff.currentLocationId) then s.dff.currentLocationId == Str(t)
    else if s.source.locationCcids == [] then t == ""
    else ReadsAs(s.source.locationCcids[0], t)
  }

  lemma LocatedAt(s: Scenario)
    ensures Located(s, PyStr(Or(s.dff.currentLocationId, FirstLocation(s.source.locationCcids))))
  {
  }

  /** Column `i` is the last extra column of its name. */
  ghost predicate LastNamed(extras: seq<(string, string)>, k: string, i: nat) {
    i < |extras| && extras[i].0 == k && forall j :: i < j < |extras| ==> extras[j].0 != k
  }

  /** A row holds the last extra column of each name, and its fixed columns under every other name. */
  lemma {:induction false} ExtrasExactly(row: Row, extras: seq<(string, string)>, k: string)
    ensures forall i: nat :: LastNamed(extras, k, i) ==>
      k in WithExtras(row, extras) && WithExtras(row, extras)[k] == extras[i].1
    ensures (forall i: nat :: !LastNamed(extras, k, i)) ==>
      (k in WithExtras(row, extras) <==> k in row) && (k in row ==> WithExtras(row, extras)[k] == row[k])
  {
    if extras != [] {
      var n := |extras| - 1;
      ExtrasExactly(row, Init(extras), k);
      if extras[n].0 == k {
        assert LastNamed(extras, k, n);
        forall i: nat | LastNamed(extras, k, i) ensures i == n { OneLast(extras, k, i, n); }
      } else {
        forall i: nat ensures LastNamed(extras, k, i) <==> LastNamed(Init(extras), k, i) { LastOfInit(extras, k, i); }
        assert forall i: nat :: i < n ==> Init(extras)[i] == extras[i];
      }
    }
  }

  lemma OneLast(extras: seq<(string, string)>, k: string, i: nat, n: nat)
    requires LastNamed(extras, k, i) && LastNamed(extras, k, n)
    ensures i == n
  {
  }

  lemma LastOfInit(extras: seq<(string, string)>, k: string, i: nat)
    requires extras != [] && Last(extras).0 != k
    ensures LastNamed(extras, k, i) <==> LastNamed(Init(extras), k, i)
  {
    assert forall j :: 0 <= j < |Init(extras)| ==> Init(extras)[j] == extras[j];
  }

  // ----- asking once for every listed book

  /** The reports of the listed books, one after the other. */
  function Reports(rows: seq<Row>, books: seq<string>): seq<Row> {
    if books == [] then [] else Reports(rows, Init(books)) + FiledUnder(rows, PyStrip(Last(books)))
  }

  /** How many listed books strip to `book`. */
  function Listings(books: seq<string>, book: string): nat {
    if books == [] then 0 else Listings(Init(books), book) + (if PyStrip(Last(books)) == book then 1 else 0)
  }

  lemma {:induction false} FiledCounts(rows: seq<Row>, book: string, row: Row)
    ensures multiset(FiledUnder(rows, book))[row] == if BookOf(row) == book then multiset(rows)[row] else 0
  {
    hide BookOf;
    if rows != [] {
      FiledCounts(Init(rows), book, row);
      InitLast(rows);
    }
  }

  /** A row comes back once for each listed book that strips to its own. */
  lemma {:induction false} ReportsCount(rows: seq<Row>, books: seq<string>, row: Row)
    ensures multiset(Reports(rows, books))[row] == multiset(rows)[row] * Listings(books, BookOf(row))
  {
    hide BookOf, FiledUnder, PyStrip;
    if books != [] {
      ReportsCount(rows, Init(books), row);
      FiledCounts(rows, PyStrip(Last(books)), row);
      OneMore(multiset(rows)[row], Listings(Init(books), BookOf(row)));
    }
  }

  lemma OneMore(n: nat, k: nat)
    ensures n * (k + 1) == n * k + n && n * (k + 0) == n * k
  {
  }

  /** The reports are a permutation of the rows exactly when, for every row, one listed book and only one
      strips to the row's book. */
  lemma PartitionExactly(rows: seq<Row>, books: seq<string>)
    ensures multiset(Reports(rows, books)) == multiset(rows) <==>
      forall row :: row in rows ==> Listings(books, BookOf(row)) == 1
  {
    hide BookOf, Reports, Listings;
    forall row
      ensures row in rows ==>
        (multiset(Reports(rows, books))[row] == multiset(rows)[row] <==> Listings(books, BookOf(row)) == 1)
      ensures row !in rows ==> multiset(Reports(rows, books))[row] == 0 == multiset(rows)[row]
    {
      ReportsCount(rows, books, row);
      CountOnce(multiset(rows)[row], Listings(books, BookOf(row)));
    }
  }

  lemma CountOnce(n: nat, k: nat)
    ensures n * k == n <==> n == 0 || k == 1
  {
    if k == 0 {
      assert n * k == 0;
    } else if k > 1 {
      assert n * k == n + n * (k - 1);
    }
  }

  /** The scenario names a book without padding. */
  predicate NamesItsBook(s: Scenario) {
    Truthy(s.source.bookTypeCode) && PyStrip(s.source.bookTypeCode.text) == s.source.bookTypeCode.text
  }

  /** When no book carries padding, every scenario names its book and no extra column overwrites it, asking
      once for each listed book returns every row of the catalogue exactly once. */
  lemma ReportPartition(ss: seq<Scenario>, m: EntityMap, books: seq<string>)
    requires Lists(books, ss, m)
    requires forall b :: b in m.Values ==> PyStrip(b) == b
    requires forall s :: s in ss ==> NamesItsBook(s)
    requires forall s, c :: s in ss && c in s.dff.extraColumns ==> c.0 != BOOK
    ensures multiset(Reports(Rows(ss), books)) == multiset(Rows(ss))
  {
    hide BuildBipRow, PyStrip, Reports, Listings, Sorted;
    forall b | b in books ensures PyStrip(b) == b { ListedTrimmed(ss, m, b); }
    forall row | row in Rows(ss) ensures Listings(books, BookOf(row)) == 1 {
      var i :| 0 <= i < |ss| && Rows(ss)[i] == row;
      assert ss[i] in ss && NamesItsBook(ss[i]);
      RowBook(ss[i]);
      assert Named(ss, m, ss[i].source.bookTypeCode.text);
      ListedOnce(books, ss[i].source.bookTypeCode.text);
    }
    PartitionExactly(Rows(ss), books);
  }

  lemma ListedTrimmed(ss: seq<Scenario>, m: EntityMap, b: string)
    requires Named(ss, m, b)
    requires forall b :: b in m.Values ==> PyStrip(b) == b
    requires forall s :: s in ss ==> NamesItsBook(s)
    ensures PyStrip(b) == b
  {
    forall s ensures PyStrip(ResolvedTargetBook(s, m)) == ResolvedTargetBook(s, m) {
      hide Strip;
      var final := OrEmpty(s.dff.finalTargetBook);
      StripIsTrimmed(final, PySpace);
      StripOfTrimmed(PyStrip(final), PySpace);
      var entity := PyStrip(OrEmpty(s.dff.transferToEntity));
      if entity in m { assert m[entity] in m.Values; }
      StripSpaces("", PySpace);
    }
  }

  lemma {:induction false} KeepsColumn(row: Row, extras: seq<(string, string)>, column: string)
    requires column in row && forall c :: c in extras ==> c.0 != column
    ensures column in WithExtras(row, extras) && WithExtras(row, extras)[column] == row[column]
  {
    if extras != [] { KeepsColumn(row, Init(extras), column); }
  }

  lemma RowBook(s: Scenario)
    requires Truthy(s.source.bookTypeCode) && forall c :: c in s.dff.extraColumns ==> c.0 != BOOK
    ensures BookOf(BuildBipRow(s)) == PyStrip(s.source.bookTypeCode.text)
  {
    hide PyStrip, WithExtras;
    KeepsColumn(FixedColumns(s), s.dff.extraColumns, BOOK);
  }

  lemma {:induction false} ListedOnce(books: seq<string>, book: string)
    requires forall b :: b in books ==> PyStrip(b) == b
    requires Distinct(books, (b: string) => b)
    ensures Listings(books, book) == if book in books then 1 else 0
  {
    hide PyStrip;
    if books != [] {
      ListedOnce(Init(books), book);
      InitLast(books);
      assert forall b :: b in books <==> b in Init(books) || b == Last(books);
      assert Last(books) !in Init(books);
    }
  }
}
