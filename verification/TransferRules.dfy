/** The rules of the batch executor over the configuration as it is written: books and entities are compared
    without their padding and in any letter case. */
module TransferRules {
  import opened Text
  import opened Transfers

  ghost predicate SameName(a: string, b: string) {
    SameLetters(PyStrip(a), PyStrip(b))
  }

  /** Some entry of the configuration, not a blank one, names the book. */
  ghost predicate IsBlocked(config: seq<string>, book: string) {
    exists i :: 0 <= i < |config| && PyStrip(config[i]) != "" && SameName(config[i], book)
  }

  /** Entry `k` is the last one for the entity. */
  ghost predicate LastFor(entries: seq<(string, string)>, entity: string, k: nat) {
    k < |entries| && SameName(entries[k].0, entity)
    && forall j :: k < j < |entries| ==> !SameName(entries[j].0, entity)
  }

  /** The entity is not blank, and the last entry for it gives the book. */
  ghost predicate ResolvesTo(entries: seq<(string, string)>, entity: string, book: string) {
    PyStrip(entity) != "" && book != "" && exists k: nat :: LastFor(entries, entity, k) && book == PyStrip(entries[k].1)
  }

  /** The target book: the row's own, or else that of its entity. */
  ghost predicate GoesTo(entries: seq<(string, string)>, row: Row, book: string) {
    if row.targetBook != "" then book == row.targetBook else ResolvesTo(entries, row.entity, book)
  }

  lemma NormSame(a: string, b: string)
    ensures Norm(a) == Norm(b) <==> SameName(a, b)
  {
    hide Strip, Upper, SameLetters;
    UpperStripped(a);
    UpperStripped(b);
    SameCased(PyStrip(a), PyStrip(b));
  }

  lemma BlockedSame(config: seq<string>, book: string)
    ensures Norm(book) in BlockedBooks(config) <==> IsBlocked(config, book)
  {
    hide Norm, Strip, SameName;
    if Norm(book) in BlockedBooks(config) {
      var b :| b in config && b != "" && PyStrip(b) != "" && Norm(b) == Norm(book);
      NormSame(b, book);
      var i :| 0 <= i < |config| && config[i] == b;
      assert IsBlocked(config, book);
    }
    if IsBlocked(config, book) {
      var i :| 0 <= i < |config| && PyStrip(config[i]) != "" && SameName(config[i], book);
      NormSame(config[i], book);
      StripSpaces("", PySpace);
      assert config[i] in config;
    }
  }

  /** A transfer is cross-book exactly when the books differ by more than padding and case. */
  lemma CrossExactly(row: Row, target: string)
    ensures CrossBook(row, target) <==> !SameName(row.book, target)
  {
    hide Strip, Upper, SameLetters;
    SameCased(PyStrip(row.book), PyStrip(target));
  }

  lemma {:induction false} NormalisedExactly(entries: seq<(string, string)>, entity: string, book: string)
    ensures Norm(entity) in Normalised(entries) && Normalised(entries)[Norm(entity)] == book <==>
      exists k: nat :: LastFor(entries, entity, k) && book == PyStrip(entries[k].1)
  {
    hide Norm, Strip, SameName;
    if entries != [] {
      var n := |entries| - 1;
      NormalisedExactly(entries[..n], entity, book);
      NormSame(entries[n].0, entity);
      if SameName(entries[n].0, entity) {
        assert LastFor(entries, entity, n);
        forall k: nat | LastFor(entries, entity, k) ensures k == n { LastIsLater(entries, entity, k, n); }
      } else {
        forall k: nat ensures LastFor(entries, entity, k) <==> LastFor(entries[..n], entity, k) {
          LastOfFront(entries, entity, k);
        }
        assert forall k: nat :: k < n ==> entries[..n][k] == entries[k];
      }
    }
  }

  lemma LastIsLater(entries: seq<(string, string)>, entity: string, k: nat, n: nat)
    requires LastFor(entries, entity, k) && n < |entries| && SameName(entries[n].0, entity)
    ensures n <= k
  {
    hide SameName;
  }

  lemma LastOfFront(entries: seq<(string, string)>, entity: string, k: nat)
    requires entries != [] && !SameName(entries[|entries| - 1].0, entity)
    ensures LastFor(entries, entity, k) <==> LastFor(entries[..|entries| - 1], entity, k)
  {
    hide SameName;
    var front := entries[..|entries| - 1];
    assert forall j :: 0 <= j < |front| ==> front[j] == entries[j];
  }

  /** An entity resolves to the trimmed book of the last entry that names it, in any case and padding. */
  lemma ResolveExactly(entries: seq<(string, string)>, entity: string, book: string)
    ensures Resolve(Normalised(entries), entity) == Some(book) <==> ResolvesTo(entries, entity, book)
  {
    hide Norm, Strip, LastFor, Normalised;
    NormOfBlank(entity);
    NormalisedExactly(entries, entity, book);
  }

  lemma TargetExactly(entries: seq<(string, string)>, row: Row, book: string)
    ensures TargetOf(Normalised(entries), row) == Some(book) <==> GoesTo(entries, row, book)
  {
    hide Resolve, ResolvesTo, Normalised;
    ResolveExactly(entries, row.entity, book);
  }

  /** The guard over the configuration: a trimmed row is skipped exactly when a configured book, in any case
      and padding, is its source or the book it goes to. */
  lemma SkippedExactly(row: Row, config: seq<string>, entries: seq<(string, string)>)
    requires row.targetBook == PyStrip(row.targetBook)
    ensures Offender(row, BlockedBooks(config), Normalised(entries)).Some? <==>
      IsBlocked(config, row.book) || exists t :: GoesTo(entries, row, t) && IsBlocked(config, t)
  {
    hide Offender, BlockedBooks, Norm, TargetOf, Normalised, IsBlocked, GoesTo, Strip;
    var r := Normalised(entries);
    Transfers.BlockedExactly(row, config, r);
    BlockedSame(config, row.book);
    forall t ensures GoesTo(entries, row, t) <==> TargetOf(r, row) == Some(t) { TargetExactly(entries, row, t); }
    if TargetOf(r, row).Some? { BlockedSame(config, TargetOf(r, row).value); }
  }

  /** What execution does with a row that goes to book `t`, field by field. */
  lemma RowExactly(row: Row, config: seq<string>, entries: seq<(string, string)>, t: string, service: Service)
    requires row.targetBook == PyStrip(row.targetBook) && GoesTo(entries, row, t)
    ensures var (result, posted) := Executed(row, BlockedBooks(config), Normalised(entries), service);
      var blocked := IsBlocked(config, row.book) || IsBlocked(config, t);
      var read := service.info.Returns? && service.buildError.None?;
      var cross := !SameName(row.book, t);
      && (posted <==> !blocked && read && (cross || !service.sameState))
      && (result.status == Skipped <==> blocked)
      && (!blocked && service.info.Raises? ==> result == Result(
          row.requestId, row.assetNumber, row.book, Failed, "", "", None, service.info.error))
      && (!blocked && service.info.Returns? && service.buildError.Some? ==> result == Result(
          row.requestId, row.assetNumber, row.book, Failed, "", "", None, service.buildError.value))
      && (!blocked && read && !posted ==> result == Result(
          row.requestId, row.assetNumber, row.book, NoChange, service.info.value, t, Some(false), ""))
      && (posted && service.post.Raises? ==> result == Result(
          row.requestId, row.assetNumber, row.book, Failed, "", "", None, service.post.error))
      && (posted && service.post.Returns? && PyStrip(service.post.value.code) == "S" ==> result == Result(
          row.requestId, row.assetNumber, row.book, Transferred, service.info.value, t, Some(cross), ""))
      && (posted && service.post.Returns? && PyStrip(service.post.value.code) != "S" ==>
          && result.error == "X_RETURN_STATUS=" + PyStrip(service.post.value.code) + ": " + service.post.value.message
          && result.(error := "") == Result(
              row.requestId, row.assetNumber, row.book, Failed, service.info.value, t, Some(cross), ""))
  {
    hide Offender, BlockedBooks, Norm, TargetOf, Normalised, IsBlocked, GoesTo, Strip, CrossBook, SameName;
    SkippedExactly(row, config, entries);
    TargetExactly(entries, row, t);
    forall u | GoesTo(entries, row, u) ensures u == t { TargetExactly(entries, row, u); }
    CrossExactly(row, t);
  }

  /** A skipped row names the source book if that is the blocked one, and otherwise its target in capitals. */
  lemma SkippedNames(row: Row, config: seq<string>, entries: seq<(string, string)>, service: Service)
    requires Offender(row, BlockedBooks(config), Normalised(entries)).Some?
    ensures var (result, posted) := Executed(row, BlockedBooks(config), Normalised(entries), service);
      && !posted
      && exists book :: result == Result(row.requestId, row.assetNumber, row.book, Skipped, row.assetId, "", None,
          "blocked book: " + book) && IsBlocked(config, book) && (IsBlocked(config, row.book) ==> book == row.book)
  {
    hide Resolve, BlockedBooks, Normalised, IsBlocked, Strip, Upper, Norm;
    var book := Offender(row, BlockedBooks(config), Normalised(entries)).value;
    BlockedSame(config, row.book);
    BlockedSame(config, book);
    if Norm(row.book) !in BlockedBooks(config) { CapitalsStay(row, BlockedBooks(config), Normalised(entries)); }
  }

  lemma NormTwice(s: string)
    ensures Norm(Norm(s)) == Norm(s)
  {
    hide Strip;
    StripIsTrimmed(Upper(s), PySpace);
    StripOfTrimmed(Norm(s), PySpace);
    UpperStripped(s);
    assert Upper(Upper(PyStrip(s))) == Upper(PyStrip(s));
    StripOfTrimmed(PyStrip(Upper(s)), PySpace);
  }

  lemma CapitalsStay(row: Row, blocked: set<string>, r: Resolver)
    requires Norm(row.book) !in blocked && Offender(row, blocked, r).Some?
    ensures var o := Offender(row, blocked, r).value; Norm(o) == o && o in blocked
  {
    hide Norm, Resolve;
    NormTwice(row.targetBook);
    if Resolve(r, row.entity).Some? { NormTwice(Resolve(r, row.entity).value); }
  }

  /** A dry run over the configuration: it ends at the first row that is neither skipped nor goes anywhere, and
      otherwise plans each row for the book it goes to. */
  lemma PlannedExactly(row: Row, config: seq<string>, entries: seq<(string, string)>, t: string)
    requires row.targetBook == PyStrip(row.targetBook) && GoesTo(entries, row, t)
    requires !IsBlocked(config, row.book) && !IsBlocked(config, t)
    ensures Planned(row, BlockedBooks(config), Normalised(entries)) == Some(Result(
        row.requestId, row.assetNumber, row.book, DryRun, row.assetId, t, Some(!SameName(row.book, t)), ""))
  {
    hide Offender, BlockedBooks, TargetOf, Normalised, IsBlocked, GoesTo, Strip, CrossBook, SameName;
    SkippedExactly(row, config, entries);
    TargetExactly(entries, row, t);
    forall u | GoesTo(entries, row, u) ensures u == t { TargetExactly(entries, row, u); }
    CrossExactly(row, t);
  }

  /** A row that goes nowhere, from a book that is not blocked: execution records it as failed and posts nothing,
      and a dry run ends there. */
  lemma NowhereFails(row: Row, config: seq<string>, entries: seq<(string, string)>, service: Service)
    requires row.targetBook == PyStrip(row.targetBook) && !IsBlocked(config, row.book)
    requires forall t :: !GoesTo(entries, row, t)
    ensures var (result, posted) := Executed(row, BlockedBooks(config), Normalised(entries), service);
      !posted && result.(error := "") == Result(row.requestId, row.assetNumber, row.book, Failed, "", "", None, "")
    ensures Planned(row, BlockedBooks(config), Normalised(entries)) == None
  {
    hide Offender, BlockedBooks, TargetOf, Normalised, IsBlocked, GoesTo, Strip, CrossBook;
    SkippedExactly(row, config, entries);
    if TargetOf(Normalised(entries), row).Some? {
      TargetExactly(entries, row, TargetOf(Normalised(entries), row).value);
    }
  }
}
