/** The source-line audit of render() (`auditRenderPassGuards`) and what its verdict guarantees. */
module RenderAudit {
  import opened RenderPasses
  import opened Text

  const ENTRY := "async function render() {"
  const CATCH := "  } catch (e) {"
  const GUARD := "if (renderPass !== myRenderPass) return;"

  predicate Includes(s: string, pattern: string) {
    exists i: nat :: i <= |s| && At(s, i, pattern)
  }

  predicate IsNoise(line: string) {
    At(Trim(line), 0, "//") || Trim(line) == ""
  }

  predicate IsAwait(line: string) {
    Includes(line, "await ") && !At(Trim(line), 0, "//") && !At(Trim(line), 0, "*")
  }

  predicate EndsStatement(line: string) {
    var t := StripRight(line, JsSpace);
    t != "" && t[|t| - 1] == ';'
  }

  predicate IsGuard(line: string) {
    At(Trim(line), 0, GUARD)
  }

  /** `NotLocated` and `RanOff` stand for the two exceptions: render() not found, and a statement or a
      search for the next one running past the end of the file. */
  datatype Verdict = NotLocated | RanOff | Report(total: nat, unguarded: seq<nat>)

  predicate Passed(v: Verdict) {
    v.Report? && v.unguarded == []
  }

  // ---- specification ----

  /** First index at or after `i` holding `line`; the number of lines when there is none. */
  function IndexOf(lines: seq<string>, i: nat, line: string): (r: nat)
    requires i <= |lines|
    ensures i <= r <= |lines|
    decreases |lines| - i
  {
    if i == |lines| || lines[i] == line then i else IndexOf(lines, i + 1, line)
  }

  function StatementEnd(lines: seq<string>, i: nat): (r: nat)
    requires i <= |lines|
    ensures i <= r <= |lines|
    decreases |lines| - i
  {
    if i == |lines| || EndsStatement(lines[i]) then i else StatementEnd(lines, i + 1)
  }

  function NextCode(lines: seq<string>, i: nat): (r: nat)
    requires i <= |lines|
    ensures i <= r <= |lines|
    decreases |lines| - i
  {
    if i == |lines| || !IsNoise(lines[i]) then i else NextCode(lines, i + 1)
  }

  /** A verdict on the rest of the lines, with what was found before. */
  function Plus(total: nat, unguarded: seq<nat>, rest: Verdict): Verdict {
    match rest
    case Report(t, u) => Report(total + t, unguarded + u)
    case v => v
  }

  function Scan(lines: seq<string>, i: nat, last: nat): Verdict
    requires last < |lines|
    decreases |lines| - i
  {
    if i > last then Report(0, [])
    else if !IsAwait(lines[i]) then Scan(lines, i + 1, last)
    else
      var end := StatementEnd(lines, i);
      if end == |lines| then RanOff
      else
        var next := NextCode(lines, end + 1);
        if next == |lines| then RanOff
        else Plus(1, if IsGuard(lines[next]) then [] else [i], Scan(lines, end + 1, last))
  }

  /** The line of the try block's end, searched for after render()'s first line. */
  function GuardEnd(lines: seq<string>, start: nat): nat
    requires start <= |lines|
  {
    IndexOf(lines, if start < |lines| then start + 1 else 0, CATCH)
  }

  function Audited(lines: seq<string>): Verdict {
    var start := IndexOf(lines, 0, ENTRY);
    var last := GuardEnd(lines, start);
    if start == |lines| || last == |lines| then NotLocated else Scan(lines, start, last)
  }

  // ---- the audit ----

  method Audit(lines: seq<string>) returns (verdict: Verdict)
    ensures verdict == Audited(lines)
  {
    hide IsAwait, EndsStatement, IsNoise, IsGuard, IndexOf, Plus;
    var start := IndexOf(lines, 0, ENTRY);
    var guardEnd := GuardEnd(lines, start);
    if start == |lines| || guardEnd == |lines| {
      return NotLocated;
    }
    var unguarded: seq<nat> := [];
    var total := 0;
    var i := start;
    PlusNothing(Scan(lines, start, guardEnd));
    while i <= guardEnd
      invariant Audited(lines) == Plus(total, unguarded, Scan(lines, i, guardEnd))
      decreases |lines| - i
    {
      if IsAwait(lines[i]) {
        var end := i;
        while end < |lines| && !EndsStatement(lines[end])
          invariant i <= end <= |lines|
          invariant StatementEnd(lines, i) == StatementEnd(lines, end)
        {
          end := end + 1;
        }
        if end == |lines| {
          PlusEnd(total, unguarded);
          return RanOff;
        }
        var next := end + 1;
        while next < |lines| && IsNoise(lines[next])
          invariant end + 1 <= next <= |lines|
          invariant NextCode(lines, end + 1) == NextCode(lines, next)
        {
          next := next + 1;
        }
        if next == |lines| {
          PlusEnd(total, unguarded);
          return RanOff;
        }
        PlusOne(total, unguarded, if IsGuard(lines[next]) then [] else [i], Scan(lines, end + 1, guardEnd));
        assert unguarded + [] == unguarded;
        total := total + 1;
        if !IsGuard(lines[next]) {
          unguarded := unguarded + [i];
        }
        i := end + 1;
      } else {
        i := i + 1;
      }
    }
    verdict := Report(total, unguarded);
    PlusEnd(total, unguarded);
  }

  lemma PlusNothing(rest: Verdict)
    ensures Plus(0, [], rest) == rest
  {
  }

  lemma PlusEnd(total: nat, unguarded: seq<nat>)
    ensures Plus(total, unguarded, Report(0, [])) == Report(total, unguarded)
    ensures Plus(total, unguarded, RanOff) == RanOff
  {
  }

  lemma PlusOne(total: nat, unguarded: seq<nat>, more: seq<nat>, rest: Verdict)
    ensures Plus(total, unguarded, Plus(1, more, rest)) == Plus(total + 1, unguarded + more, rest)
  {
    if rest.Report? { assert unguarded + (more + rest.unguarded) == unguarded + more + rest.unguarded; }
  }

  // ---- laying statements out as lines ----

  /** A statement on its lines, after blank and comment lines. */
  datatype Chunk = Chunk(noise: seq<string>, body: seq<string>, stmt: Stmt)

  // What the lines of a statement look like, without the audit's own tests.

  predicate White(c: char) {
    c in {' ', '\t', '\n', '\U{b}', '\U{c}', '\r'}
  }

  /** The text of a line begins at `k`. */
  predicate TextFrom(line: string, k: nat) {
    k <= |line| && (forall i :: 0 <= i < k ==> White(line[i])) && (k < |line| ==> !White(line[k]))
  }

  ghost predicate BlankOrComment(line: string) {
    exists k: nat :: TextFrom(line, k) && (k == |line| || At(line, k, "//"))
  }

  /** A line comment, or a line inside a block comment. */
  ghost predicate InComment(line: string) {
    exists k: nat :: TextFrom(line, k) && (At(line, k, "*") || At(line, k, "//"))
  }

  ghost predicate HasAwait(line: string) {
    exists i: nat :: At(line, i, "await ")
  }

  /** The last character of the line that is not white space is a semicolon. */
  ghost predicate EndsInSemicolon(line: string) {
    exists e :: 0 <= e < |line| && line[e] == ';' && forall i :: e < i < |line| ==> White(line[i])
  }

  ghost predicate StartsWithGuard(line: string) {
    exists k: nat :: TextFrom(line, k) && At(line, k, "if (renderPass !== myRenderPass) return;")
  }

  /** A chunk is what its kind says: an await statement starts on a line with an await and ends with the first
      line that ends in a semicolon; the guard starts with its text; other statements hold no await. */
  ghost predicate Laid(c: Chunk) {
    && (forall line :: line in c.noise ==> BlankOrComment(line))
    && c.body != [] && !BlankOrComment(c.body[0]) && (StartsWithGuard(c.body[0]) <==> c.stmt == Guard)
    && (c.stmt == Await ==> HasAwait(c.body[0]) && !InComment(c.body[0]) && EndsInSemicolon(c.body[|c.body| - 1]))
    && (c.stmt == Await ==> forall i :: 0 <= i < |c.body| - 1 ==> !EndsInSemicolon(c.body[i]))
    && (c.stmt != Await ==> forall i :: 0 <= i < |c.body| ==> !HasAwait(c.body[i]) || InComment(c.body[i]))
  }

  lemma TextOnce(line: string, a: nat, b: nat)
    ensures TextFrom(line, a) && TextFrom(line, b) ==> a == b
  {
    hide White;
  }

  /** Where the text of a line begins. */
  lemma {:induction false} FindText(line: string, i: nat) returns (k: nat)
    requires i <= |line| && forall j :: 0 <= j < i ==> White(line[j])
    ensures TextFrom(line, k) && forall j: nat :: TextFrom(line, j) ==> j == k
    decreases |line| - i
  {
    hide White;
    if i < |line| && White(line[i]) {
      k := FindText(line, i + 1);
    } else {
      k := i;
      forall j: nat | TextFrom(line, j) ensures j == i { TextOnce(line, i, j); }
    }
  }

  lemma WhiteIsSpace()
    ensures forall c :: White(c) <==> JsSpace(c)
  {
  }

  lemma NoiseExactly(line: string)
    ensures IsNoise(line) <==> BlankOrComment(line)
  {
    hide Strip;
    WhiteIsSpace();
    var k := FindText(line, 0);
    StrippedStarts(line, JsSpace, k, "//");
    BlankIsSpace(line, JsSpace);
  }

  lemma CommentExactly(line: string)
    ensures At(Trim(line), 0, "//") || At(Trim(line), 0, "*") <==> InComment(line)
  {
    hide Strip;
    WhiteIsSpace();
    var k := FindText(line, 0);
    StrippedStarts(line, JsSpace, k, "//");
    StrippedStarts(line, JsSpace, k, "*");
  }

  lemma AwaitExactly(line: string)
    ensures IsAwait(line) <==> HasAwait(line) && !InComment(line)
  {
    hide Strip, At, InComment;
    CommentExactly(line);
    IncludesAwait(line);
  }

  lemma AtFits(s: string, i: nat, pattern: string)
    requires At(s, i, pattern)
    ensures i + |pattern| <= |s|
  {
  }

  lemma IncludesAwait(line: string)
    ensures Includes(line, "await ") <==> HasAwait(line)
  {
    hide At;
    if i: nat :| At(line, i, "await ") { AtFits(line, i, "await "); }
  }

  lemma EndsExactly(line: string)
    ensures EndsStatement(line) <==> EndsInSemicolon(line)
  {
    WhiteIsSpace();
    var m := StripRightPrefix(line, JsSpace);
    if e :| 0 <= e < |line| && line[e] == ';' && forall i :: e < i < |line| ==> White(line[i]) {
      assert !White(line[e]);
      assert m == e + 1;
    }
  }

  lemma GuardExactly(line: string)
    ensures IsGuard(line) <==> StartsWithGuard(line)
  {
    hide Strip;
    WhiteIsSpace();
    var k := FindText(line, 0);
    StrippedStarts(line, JsSpace, k, GUARD);
  }

  /** A laid-out chunk as the audit's tests see it. */
  lemma LaidOut(c: Chunk)
    requires Laid(c)
    ensures c.body != []
    ensures forall i :: 0 <= i < |c.noise| ==> IsNoise(c.noise[i])
    ensures !IsNoise(c.body[0]) && (IsGuard(c.body[0]) <==> c.stmt == Guard)
    ensures c.stmt == Await ==> IsAwait(c.body[0]) && EndsStatement(c.body[|c.body| - 1])
    ensures c.stmt == Await ==> forall i :: 0 <= i < |c.body| - 1 ==> !EndsStatement(c.body[i])
    ensures c.stmt != Await ==> forall i :: 0 <= i < |c.body| ==> !IsAwait(c.body[i])
  {
    hide IsNoise, IsGuard, IsAwait, EndsStatement, BlankOrComment, InComment, HasAwait, EndsInSemicolon;
    hide StartsWithGuard;
    forall line ensures IsNoise(line) <==> BlankOrComment(line) { NoiseExactly(line); }
    forall line ensures IsAwait(line) <==> HasAwait(line) && !InComment(line) { AwaitExactly(line); }
    forall line ensures EndsStatement(line) <==> EndsInSemicolon(line) { EndsExactly(line); }
    GuardExactly(c.body[0]);
  }

  function Lines(cs: seq<Chunk>): seq<string> {
    if cs == [] then [] else cs[0].noise + cs[0].body + Lines(cs[1..])
  }

  function Stmts(cs: seq<Chunk>): seq<Stmt> {
    seq(|cs|, i requires 0 <= i < |cs| => cs[i].stmt)
  }

  /** The first lines of the awaits that the guard does not follow, the chunks standing from line `i` on. */
  function BareLines(cs: seq<Chunk>, i: nat): seq<nat> {
    if cs == [] then []
    else
      (if cs[0].stmt == Await && !(|cs| > 1 && cs[1].stmt == Guard) then [i + |cs[0].noise|] else [])
      + BareLines(cs[1..], i + |cs[0].noise| + |cs[0].body|)
  }

  lemma {:induction false} BareLinesCount(cs: seq<Chunk>, i: nat)
    ensures |BareLines(cs, i)| == Bare(Stmts(cs))
  {
    if cs != [] {
      BareLinesCount(cs[1..], i + |cs[0].noise| + |cs[0].body|);
      assert Stmts(cs)[1..] == Stmts(cs[1..]);
    }
  }

  function Bare(p: seq<Stmt>): nat {
    if p == [] then 0
    else (if p[0] == Await && !(|p| > 1 && p[1] == Guard) then 1 else 0) + Bare(p[1..])
  }

  lemma {:induction false} BareIsUnguarded(p: seq<Stmt>)
    ensures Bare(p) == 0 <==> GuardFollowsAwait(p)
  {
    if p != [] {
      BareIsUnguarded(p[1..]);
      if GuardFollowsAwait(p) {
        forall i | 0 <= i < |p[1..]| && p[1..][i] == Await ensures i + 1 < |p[1..]| && p[1..][i + 1] == Guard {
          assert p[i + 1] == Await;
        }
      }
      if Bare(p) == 0 {
        forall i | 0 <= i < |p| && p[i] == Await ensures i + 1 < |p| && p[i + 1] == Guard {
          if i > 0 { assert p[1..][i - 1] == Await; }
        }
      }
    }
  }

  lemma LacksAwait(line: string)
    requires forall i :: 0 <= i < |line| - 1 && line[i] == 'a' ==> line[i + 1] != 'w'
    ensures !Includes(line, "await ")
  {
    forall i: nat | i <= |line| ensures !At(line, i, "await ") {
      if i < |line| && line[i] == 'a' { NotAt(line, i, "await ", 1); } else { NotAt(line, i, "await ", 0); }
    }
  }

  lemma NoiseIsNoAwait(line: string)
    requires IsNoise(line)
    ensures !IsAwait(line)
  {
    if Trim(line) == "" {
      BlankIsSpace(line, JsSpace);
      LacksAwait(line);
    }
  }

  lemma CatchIsPlain()
    ensures !IsNoise(CATCH) && !IsGuard(CATCH) && !IsAwait(CATCH)
  {
    assert Trim(CATCH) == "} catch (e) {" by {
      StripPadded("  ", "} catch (e) {", "", JsSpace);
      assert CATCH == "  " + "} catch (e) {" + "";
    }
    LacksAwait(CATCH);
    NotAt(Trim(CATCH), 0, GUARD, 0);
    NotAt(Trim(CATCH), 0, "//", 0);
  }

  lemma EntryIsNoAwait()
    ensures !IsAwait(ENTRY)
  {
    LacksAwait(ENTRY);
  }

  lemma {:induction false} IndexOfIs(lines: seq<string>, i: nat, line: string, r: nat)
    requires i <= r < |lines| && lines[r] == line && forall k :: i <= k < r ==> lines[k] != line
    ensures IndexOf(lines, i, line) == r
    decreases r - i
  {
    if i < r { IndexOfIs(lines, i + 1, line, r); }
  }

  lemma {:induction false} StatementEndIs(lines: seq<string>, i: nat, r: nat)
    requires i <= r < |lines| && EndsStatement(lines[r]) && forall k :: i <= k < r ==> !EndsStatement(lines[k])
    ensures StatementEnd(lines, i) == r
    decreases r - i
  {
    hide EndsStatement;
    if i < r { StatementEndIs(lines, i + 1, r); }
  }

  lemma {:induction false} NextCodeIs(lines: seq<string>, i: nat, r: nat)
    requires i <= r < |lines| && !IsNoise(lines[r]) && forall k :: i <= k < r ==> IsNoise(lines[k])
    ensures NextCode(lines, i) == r
    decreases r - i
  {
    hide IsNoise;
    if i < r { NextCodeIs(lines, i + 1, r); }
  }

  lemma {:induction false} ScanSkips(lines: seq<string>, i: nat, j: nat, last: nat)
    requires i <= j <= last + 1 && last < |lines|
    requires forall k :: i <= k < j ==> !IsAwait(lines[k])
    ensures Scan(lines, i, last) == Scan(lines, j, last)
    decreases j - i
  {
    hide IsAwait, IsGuard, IsNoise, EndsStatement;
    if i < j { ScanSkips(lines, i + 1, j, last); }
  }

  /** The lines `part` stand in `lines` from index `i` on. */
  ghost predicate Placed(lines: seq<string>, i: nat, part: seq<string>) {
    i + |part| <= |lines| && forall k :: i <= k < i + |part| ==> lines[k] == part[k - i]
  }

  lemma PlacedSplit(lines: seq<string>, i: nat, a: seq<string>, b: seq<string>)
    requires Placed(lines, i, a + b)
    ensures Placed(lines, i, a) && Placed(lines, i + |a|, b)
  {
    forall k | i + |a| <= k < i + |a| + |b| ensures lines[k] == b[k - i - |a|] {
      assert lines[k] == (a + b)[k - i];
    }
  }

  lemma ChunkPlaced(lines: seq<string>, cs: seq<Chunk>, i: nat)
    requires cs != [] && Placed(lines, i, Lines(cs))
    ensures var c := cs[0];
      && Placed(lines, i, c.noise) && Placed(lines, i + |c.noise|, c.body)
      && Placed(lines, i + |c.noise| + |c.body|, Lines(cs[1..]))
  {
    hide Placed;
    PlacedSplit(lines, i, cs[0].noise + cs[0].body, Lines(cs[1..]));
    PlacedSplit(lines, i, cs[0].noise, cs[0].body);
  }

  /** The first line after `i` that is not noise, when the chunks `cs` and then the end of the try block
      follow, is the next statement's first line, or that end. */
  lemma NextStatement(lines: seq<string>, cs: seq<Chunk>, i: nat, last: nat)
    requires i + |Lines(cs)| == last < |lines| && Placed(lines, i, Lines(cs)) && lines[last] == CATCH
    requires forall c :: c in cs ==> Laid(c)
    ensures NextCode(lines, i) < |lines|
    ensures IsGuard(lines[NextCode(lines, i)]) <==> cs != [] && cs[0].stmt == Guard
  {
    hide IsAwait, IsGuard, IsNoise, EndsStatement, Lines, Laid;
    CatchIsPlain();
    if cs == [] {
      assert Lines(cs) == [] by { NoLines(); }
      NextCodeIs(lines, i, i);
    } else {
      ChunkPlaced(lines, cs, i);
      LaidOut(cs[0]);
      NextCodeIs(lines, i, i + |cs[0].noise|);
    }
  }

  lemma NoLines()
    ensures Lines([]) == []
  {
  }

  /** One laid-out statement: what the scan makes of it, given its verdict on the rest. */
  lemma ScanChunk(lines: seq<string>, cs: seq<Chunk>, i: nat, last: nat)
    requires cs != [] && i + |Lines(cs)| == last < |lines| && Placed(lines, i, Lines(cs)) && lines[last] == CATCH
    requires forall c :: c in cs ==> Laid(c)
    ensures var c := cs[0];
      var after := i + |c.noise| + |c.body|;
      after <= last + 1 && Scan(lines, i, last) ==
        if c.stmt != Await then Scan(lines, after, last)
        else Plus(1, if |cs| > 1 && cs[1].stmt == Guard then [] else [i + |c.noise|], Scan(lines, after, last))
  {
    hide IsAwait, IsGuard, IsNoise, EndsStatement, Laid;
    var c, rest := cs[0], cs[1..];
    var at, after := i + |c.noise|, i + |c.noise| + |c.body|;
    ChunkPlaced(lines, cs, i);
    LaidOut(c);
    forall k | i <= k < at ensures !IsAwait(lines[k]) { NoiseIsNoAwait(lines[k]); }
    ScanSkips(lines, i, at, last);
    if c.stmt == Await {
      StatementEndIs(lines, at, after - 1);
      NextStatement(lines, rest, after, last);
    } else {
      ScanSkips(lines, at, after, last);
    }
  }

  /** The audit counts every await and lists exactly those whose next statement is not the guard. */
  lemma {:induction false} ScanChunks(lines: seq<string>, cs: seq<Chunk>, i: nat, last: nat)
    requires i + |Lines(cs)| == last < |lines| && Placed(lines, i, Lines(cs)) && lines[last] == CATCH
    requires forall c :: c in cs ==> Laid(c)
    ensures var v := Scan(lines, i, last);
      v.Report? && v.total == Awaits(Stmts(cs), |cs|) && v.unguarded == BareLines(cs, i)
  {
    hide IsAwait, IsGuard, IsNoise, EndsStatement, Placed, Laid;
    if cs == [] {
      CatchIsPlain();
      assert Scan(lines, last, last) == Scan(lines, last + 1, last);
    } else {
      ScanChunk(lines, cs, i, last);
      ChunkPlaced(lines, cs, i);
      ScanChunks(lines, cs[1..], i + |cs[0].noise| + |cs[0].body|, last);
      assert Stmts(cs)[1..] == Stmts(cs[1..]);
      AwaitsCons(Stmts(cs));
    }
  }

  lemma {:induction false} AwaitsCons(p: seq<Stmt>)
    requires p != []
    ensures Awaits(p, |p|) == (if p[0] == Await then 1 else 0) + Awaits(p[1..], |p| - 1)
  {
    AwaitsShift(p, |p|);
  }

  lemma {:induction false} AwaitsShift(p: seq<Stmt>, n: nat)
    requires 1 <= n <= |p|
    ensures Awaits(p, n) == (if p[0] == Await then 1 else 0) + Awaits(p[1..], n - 1)
  {
    if n > 1 { AwaitsShift(p, n - 1); }
  }

  /** render() as the audit finds it: its first line, its statements laid out, the end of the try block. */
  ghost predicate Source(lines: seq<string>, head: seq<string>, cs: seq<Chunk>, tail: seq<string>) {
    && lines == head + [ENTRY] + Lines(cs) + [CATCH] + tail
    && ENTRY !in head && CATCH !in Lines(cs)
    && forall c :: c in cs ==> Laid(c)
  }

  lemma Located(lines: seq<string>, head: seq<string>, cs: seq<Chunk>, tail: seq<string>)
    requires Source(lines, head, cs, tail)
    ensures var start, last := |head|, |head| + 1 + |Lines(cs)|;
      && last < |lines| && lines[start] == ENTRY && lines[last] == CATCH && Placed(lines, start + 1, Lines(cs))
      && IndexOf(lines, 0, ENTRY) == start && IndexOf(lines, start + 1, CATCH) == last
    ensures forall c :: c in cs ==> Laid(c)
  {
    hide Lines, Laid, Placed;
    var start, last := |head|, |head| + 1 + |Lines(cs)|;
    WholePlaced(lines);
    PlacedSplit(lines, 0, head + [ENTRY] + Lines(cs) + [CATCH], tail);
    PlacedSplit(lines, 0, head + [ENTRY] + Lines(cs), [CATCH]);
    PlacedSplit(lines, 0, head + [ENTRY], Lines(cs));
    PlacedSplit(lines, 0, head, [ENTRY]);
    PlacedIndex(lines, 0, head, ENTRY);
    PlacedIndex(lines, start + 1, Lines(cs), CATCH);
  }

  lemma AuditedScan(lines: seq<string>, start: nat, last: nat)
    requires start < last < |lines|
    requires IndexOf(lines, 0, ENTRY) == start && IndexOf(lines, start + 1, CATCH) == last
    ensures Audited(lines) == Scan(lines, start, last)
  {
    hide IndexOf, Scan;
  }

  lemma {:induction false} IndexOfSpec(lines: seq<string>, i: nat, line: string)
    requires i <= |lines|
    ensures var r := IndexOf(lines, i, line); i <= r <= |lines| && (r < |lines| ==> lines[r] == line)
    ensures forall k :: i <= k < IndexOf(lines, i, line) ==> lines[k] != line
    decreases |lines| - i
  {
    if i < |lines| && lines[i] != line { IndexOfSpec(lines, i + 1, line); }
  }

  /** The audit gives up exactly when render()'s first line is not followed by the end of its try block. */
  lemma NotLocatedExactly(lines: seq<string>)
    ensures Audited(lines) == NotLocated <==>
      forall i, j :: 0 <= i < j < |lines| && lines[i] == "async function render() {" ==> lines[j] != "  } catch (e) {"
  {
    hide IndexOf;
    IndexOfSpec(lines, 0, ENTRY);
    var start := IndexOf(lines, 0, ENTRY);
    if start < |lines| {
      IndexOfSpec(lines, start + 1, CATCH);
      var last := IndexOf(lines, start + 1, CATCH);
      if last < |lines| { ScanReports(lines, start, last); }
    }
  }

  lemma {:induction false} ScanReports(lines: seq<string>, i: nat, last: nat)
    requires last < |lines|
    ensures Scan(lines, i, last) != NotLocated
    decreases |lines| - i
  {
    hide IsAwait, IsGuard, IsNoise, EndsStatement;
    if i <= last {
      ScanReports(lines, i + 1, last);
      if StatementEnd(lines, i) < |lines| { ScanReports(lines, StatementEnd(lines, i) + 1, last); }
    }
  }

  lemma WholePlaced(lines: seq<string>)
    ensures Placed(lines, 0, lines)
  {
  }

  /** The first `line` after a part without it is right behind that part. */
  lemma PlacedIndex(lines: seq<string>, i: nat, part: seq<string>, line: string)
    requires Placed(lines, i, part) && line !in part && Placed(lines, i + |part|, [line])
    ensures i + |part| < |lines| && lines[i + |part|] == line && IndexOf(lines, i, line) == i + |part|
  {
    assert forall k :: i <= k < i + |part| ==> lines[k] == part[k - i];
    IndexOfIs(lines, i, line, i + |part|);
  }

  /** On any layout of render(), however wrapped and commented, the audit counts each await once, lists the
      first lines of exactly the unguarded ones, and passes if and only if the guard follows every await. */
  lemma AuditExact(lines: seq<string>, head: seq<string>, cs: seq<Chunk>, tail: seq<string>)
    requires Source(lines, head, cs, tail)
    ensures Audited(lines) == Report(Awaits(Stmts(cs), |cs|), BareLines(cs, |head| + 1))
    ensures Passed(Audited(lines)) <==> GuardFollowsAwait(Stmts(cs))
  {
    hide IsAwait, IsGuard, IsNoise, EndsStatement, Scan, Bare, Awaits, Placed, IndexOf, Laid, Lines, Stmts, BareLines;
    hide GuardFollowsAwait, Source, Audited, GuardEnd;
    var start, last := |head|, |head| + 1 + |Lines(cs)|;
    Located(lines, head, cs, tail);
    AuditedScan(lines, start, last);
    EntryIsNoAwait();
    ScanSkips(lines, start, start + 1, last);
    ScanChunks(lines, cs, start + 1, last);
    BareLinesCount(cs, start + 1);
    BareIsUnguarded(Stmts(cs));
  }

  /** A render() that passes the audit cannot be torn: in every interleaving of its passes, every write is
      made by the newest one. */
  lemma PassingAuditIsSafe(lines: seq<string>, head: seq<string>, cs: seq<Chunk>, tail: seq<string>, run: seq<Step>)
    requires Source(lines, head, cs, tail) && Passed(Audited(lines))
    ensures Safe(Execute(Stmts(cs), run))
  {
    hide Audited, Source, Execute, Stmts;
    AuditExact(lines, head, cs, tail);
    AuditSound(Stmts(cs), run);
  }

  // ---- a text the audit rejects although it is safe ----

  const INDENT := "    "
  const AWAIT_TEXT := "const x = await f();"
  const LOCAL_TEXT := "note(1);"
  const WRITE_TEXT := "users = x;"

  /** render() with one statement between its await and its guard, and the write after both. */
  const SAFE_TEXT := [ENTRY, INDENT + AWAIT_TEXT, INDENT + LOCAL_TEXT, INDENT + GUARD, INDENT + WRITE_TEXT, CATCH]

  const SAFE_STMTS := [Await, Local, Guard, Write]

  lemma Indented(text: string)
    requires text != "" && !JsSpace(text[0]) && !JsSpace(text[|text| - 1])
    ensures Trim(INDENT + text) == text && StripRight(INDENT + text, JsSpace) == INDENT + text
  {
    StripPadded(INDENT, text, "", JsSpace);
    assert INDENT + text + "" == INDENT + text;
    StripRightPadded(INDENT + text, "", JsSpace);
  }

  /** An indented statement on one line is laid out as what it is. */
  lemma OneLine(text: string, stmt: Stmt)
    requires text != "" && !JsSpace(text[0]) && text[|text| - 1] == ';' && text[0] != '/' && text[0] != '*'
    requires stmt == Guard <==> At(text, 0, GUARD)
    requires stmt == Await <==> Includes(INDENT + text, "await ")
    ensures Laid(Chunk([], [INDENT + text], stmt))
  {
    hide Includes, StripRight, StripLeft, Strip, BlankOrComment, InComment, HasAwait, EndsInSemicolon, StartsWithGuard;
    var line := INDENT + text;
    Indented(text);
    NotAt(text, 0, "//", 0);
    NotAt(text, 0, "*", 0);
    LastOfIndented(text);
    NoiseExactly(line);
    CommentExactly(line);
    IncludesAwait(line);
    EndsExactly(line);
    GuardExactly(line);
  }

  lemma LastOfIndented(text: string)
    requires text != ""
    ensures (INDENT + text)[|INDENT + text| - 1] == text[|text| - 1]
  {
  }

  lemma IncludesMiddle(before: string, pattern: string, after: string)
    ensures Includes(before + pattern + after, pattern)
  {
    var s := before + pattern + after;
    assert s[|before|..|before| + |pattern|] == pattern;
    assert At(s, |before|, pattern);
  }

  lemma AwaitLine()
    ensures Laid(Chunk([], [INDENT + AWAIT_TEXT], Await))
  {
    hide Includes, Laid;
    IncludesMiddle("    const x = ", "await ", "f();");
    assert INDENT + AWAIT_TEXT == "    const x = " + "await " + "f();";
    NotAt(AWAIT_TEXT, 0, GUARD, 0);
    OneLine(AWAIT_TEXT, Await);
  }

  lemma LocalLine()
    ensures Laid(Chunk([], [INDENT + LOCAL_TEXT], Local))
  {
    hide Includes, Laid;
    LacksAwait(INDENT + LOCAL_TEXT);
    NotAt(LOCAL_TEXT, 0, GUARD, 0);
    OneLine(LOCAL_TEXT, Local);
  }

  lemma GuardLine()
    ensures Laid(Chunk([], [INDENT + GUARD], Guard))
  {
    hide Includes, Laid;
    LacksAwait(INDENT + GUARD);
    assert GUARD[0..|GUARD|] == GUARD;
    OneLine(GUARD, Guard);
  }

  lemma WriteLine()
    ensures Laid(Chunk([], [INDENT + WRITE_TEXT], Write))
  {
    hide Includes, Laid;
    LacksAwait(INDENT + WRITE_TEXT);
    NotAt(WRITE_TEXT, 0, GUARD, 0);
    OneLine(WRITE_TEXT, Write);
  }

  lemma LinesOfFour(a: string, b: string, c: string, d: string, cs: seq<Chunk>)
    requires |cs| == 4 && forall i :: 0 <= i < 4 ==> cs[i].noise == []
    requires cs[0].body == [a] && cs[1].body == [b] && cs[2].body == [c] && cs[3].body == [d]
    ensures Lines(cs) == [a, b, c, d]
  {
    assert Lines(cs[3..]) == [d] by { assert cs[3..][1..] == []; }
    assert Lines(cs[2..]) == [c, d] by { assert cs[2..][1..] == cs[3..]; }
    assert Lines(cs[1..]) == [b, c, d] by { assert cs[1..][1..] == cs[2..]; }
  }

  lemma SafeTextLaidOut() returns (cs: seq<Chunk>)
    ensures Stmts(cs) == SAFE_STMTS && Source(SAFE_TEXT, [], cs, [])
  {
    hide Laid, Lines;
    AwaitLine();
    LocalLine();
    GuardLine();
    WriteLine();
    cs := [Chunk([], [INDENT + AWAIT_TEXT], Await), Chunk([], [INDENT + LOCAL_TEXT], Local),
           Chunk([], [INDENT + GUARD], Guard), Chunk([], [INDENT + WRITE_TEXT], Write)];
    LinesOfFour(INDENT + AWAIT_TEXT, INDENT + LOCAL_TEXT, INDENT + GUARD, INDENT + WRITE_TEXT, cs);
    forall line | line in Lines(cs) ensures line != CATCH { assert line[2] == ' ' && CATCH[2] == '}'; }
  }

  /** The audit rejects this text, and none of its interleavings makes a stale write. */
  lemma AuditRejectsSafeText()
    ensures Audited(SAFE_TEXT).Report? && !Passed(Audited(SAFE_TEXT))
    ensures forall run :: Safe(Execute(SAFE_STMTS, run))
  {
    hide Audited, Source, Execute, Safe, Shielded, GuardFollowsAwait, Stmts;
    var cs := SafeTextLaidOut();
    AuditExact(SAFE_TEXT, [], cs, []);
    AuditIsStricter();
    SafeExactlyWhenShielded(SAFE_STMTS);
  }
}
