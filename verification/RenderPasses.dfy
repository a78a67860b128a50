/** Overlapping render() passes, and when a superseded one can never write. */
module RenderPasses {

  /** A statement of render(), as the audit's contract sees it: an await binds only a local of the
      pass, the guard is the token recheck that stands a superseded pass down, a write touches state
      shared between passes. */
  datatype Stmt = Await | Guard | Write | Local

  /** One write: the token of the pass that made it and the newest token at that moment. */
  datatype Record = Record(writer: nat, newest: nat)

  /** The newest token, the passes suspended at an await (where they resume), and the writes so far. */
  datatype World = World(newest: nat, suspended: map<nat, nat>, log: seq<Record>)

  const Idle := World(0, map[], [])

  datatype Step = Enter | Resume(token: nat) | Reject(token: nat) | Invalidate

  /** Runs pass `mine` from `pc` to its next await, to a failed guard or to its end, uninterrupted: the
      token cannot move while a pass is running. */
  function Advance(p: seq<Stmt>, pc: nat, mine: nat, w: World): World
    requires pc <= |p|
    decreases |p| - pc
  {
    if pc == |p| then w
    else
      match p[pc]
      case Await => w.(suspended := w.suspended[mine := pc + 1])
      case Guard => if w.newest == mine then Advance(p, pc + 1, mine, w) else w
      case Write => Advance(p, pc + 1, mine, w.(log := w.log + [Record(mine, w.newest)]))
      case Local => Advance(p, pc + 1, mine, w)
  }

  /** A rejected await lands in the catch block, which rechecks the token before it paints. */
  function Caught(mine: nat, w: World): World {
    if w.newest == mine then w.(log := w.log + [Record(mine, w.newest)]) else w
  }

  function Apply(p: seq<Stmt>, w: World, a: Step): World {
    match a
    case Enter => Advance(p, 0, w.newest + 1, w.(newest := w.newest + 1))
    case Invalidate => w.(newest := w.newest + 1)
    case Resume(t) =>
      if t in w.suspended && w.suspended[t] <= |p|
      then Advance(p, w.suspended[t], t, w.(suspended := w.suspended - {t})) else w
    case Reject(t) =>
      if t in w.suspended then Caught(t, w.(suspended := w.suspended - {t})) else w
  }

  function Execute(p: seq<Stmt>, run: seq<Step>): World {
    if run == [] then Idle else Apply(p, Execute(p, run[..|run| - 1]), run[|run| - 1])
  }

  /** Every write was made by the newest pass. */
  ghost predicate Safe(w: World) {
    forall i :: 0 <= i < |w.log| ==> w.log[i].writer == w.log[i].newest
  }

  // ---- the conditions ----

  /** What the audit demands: the very next statement after every await is the guard. */
  ghost predicate GuardFollowsAwait(p: seq<Stmt>) {
    forall i :: 0 <= i < |p| && p[i] == Await ==> i + 1 < |p| && p[i + 1] == Guard
  }

  /** A guard stands between position `pc` and every write after it. */
  ghost predicate ShieldedFrom(p: seq<Stmt>, pc: nat) {
    forall j :: pc <= j < |p| && p[j] == Write ==> exists g :: pc <= g < j && p[g] == Guard
  }

  /** A guard stands between every await and every write after it. */
  ghost predicate Shielded(p: seq<Stmt>) {
    forall i: nat :: i < |p| && p[i] == Await ==> ShieldedFrom(p, i + 1)
  }

  lemma AuditedIsShielded(p: seq<Stmt>)
    requires GuardFollowsAwait(p)
    ensures Shielded(p)
  {
    forall i: nat, j | i < |p| && p[i] == Await && i + 1 <= j < |p| && p[j] == Write
      ensures exists g :: i + 1 <= g < j && p[g] == Guard
    {
      assert p[i + 1] == Guard;
    }
  }

  // ---- soundness ----

  /** Suspended passes stopped just after an await and are not newer than the newest token; the newest
      tokens in the log never go down. */
  ghost predicate Consistent(p: seq<Stmt>, w: World) {
    && (forall t :: t in w.suspended ==> 1 <= w.suspended[t] <= |p| && p[w.suspended[t] - 1] == Await)
    && (forall i :: 0 <= i < |w.log| ==> w.log[i].newest <= w.newest)
    && (forall i, j :: 0 <= i < j < |w.log| ==> w.log[i].newest <= w.log[j].newest)
  }

  /** A write by the newest pass keeps the log in order. */
  lemma WriteKeeps(p: seq<Stmt>, mine: nat, w: World)
    requires Consistent(p, w) && Safe(w) && w.newest == mine
    ensures Consistent(p, w.(log := w.log + [Record(mine, w.newest)]))
    ensures Safe(w.(log := w.log + [Record(mine, w.newest)]))
  {
  }

  lemma AwaitKeeps(p: seq<Stmt>, pc: nat, mine: nat, w: World)
    requires Consistent(p, w) && Safe(w) && pc < |p| && p[pc] == Await
    ensures Consistent(p, w.(suspended := w.suspended[mine := pc + 1]))
    ensures Safe(w.(suspended := w.suspended[mine := pc + 1]))
  {
  }

  lemma UnshieldedWrite(p: seq<Stmt>, pc: nat)
    requires pc < |p| && p[pc] == Write
    ensures !ShieldedFrom(p, pc)
  {
  }

  lemma {:induction false} AdvanceKeeps(p: seq<Stmt>, pc: nat, mine: nat, w: World)
    requires pc <= |p| && Consistent(p, w) && Safe(w)
    requires w.newest == mine || ShieldedFrom(p, pc)
    ensures Consistent(p, Advance(p, pc, mine, w)) && Safe(Advance(p, pc, mine, w))
    decreases |p| - pc
  {
    hide Consistent, Safe, ShieldedFrom;
    if pc < |p| {
      match p[pc]
      case Await => AwaitKeeps(p, pc, mine, w);
      case Guard => if w.newest == mine { AdvanceKeeps(p, pc + 1, mine, w); }
      case Write =>
        UnshieldedWrite(p, pc);
        WriteKeeps(p, mine, w);
        AdvanceKeeps(p, pc + 1, mine, w.(log := w.log + [Record(mine, w.newest)]));
      case Local =>
        if w.newest != mine { StillShielded(p, pc); }
        AdvanceKeeps(p, pc + 1, mine, w);
    }
  }

  lemma StillShielded(p: seq<Stmt>, pc: nat)
    requires pc < |p| && ShieldedFrom(p, pc) && p[pc] != Guard
    ensures ShieldedFrom(p, pc + 1)
  {
    forall j | pc + 1 <= j < |p| && p[j] == Write ensures exists g :: pc + 1 <= g < j && p[g] == Guard {
      var g :| pc <= g < j && p[g] == Guard;
    }
  }

  lemma StepKeeps(p: seq<Stmt>, w: World, a: Step)
    requires Shielded(p) && Consistent(p, w) && Safe(w)
    ensures Consistent(p, Apply(p, w, a)) && Safe(Apply(p, w, a))
  {
    hide Advance, ShieldedFrom;
    match a
    case Enter => AdvanceKeeps(p, 0, w.newest + 1, w.(newest := w.newest + 1));
    case Invalidate =>
    case Resume(t) =>
      if t in w.suspended { AdvanceKeeps(p, w.suspended[t], t, w.(suspended := w.suspended - {t})); }
    case Reject(t) =>
  }

  lemma {:induction false} RunKeeps(p: seq<Stmt>, run: seq<Step>)
    requires Shielded(p)
    ensures Consistent(p, Execute(p, run)) && Safe(Execute(p, run))
  {
    hide Apply, Consistent, Safe, Shielded;
    if run == [] {
      IdleIsSafe(p);
    } else {
      RunKeeps(p, run[..|run| - 1]);
      StepKeeps(p, Execute(p, run[..|run| - 1]), run[|run| - 1]);
    }
  }

  lemma IdleIsSafe(p: seq<Stmt>)
    ensures Consistent(p, Idle) && Safe(Idle)
  {
  }

  /** In every interleaving of an audited render(), a write happens only while the writer holds the
      newest token, so the tokens of successive writers never decrease. */
  lemma AuditSound(p: seq<Stmt>, run: seq<Step>)
    requires GuardFollowsAwait(p)
    ensures Safe(Execute(p, run))
    ensures var log := Execute(p, run).log;
      forall i, j :: 0 <= i < j < |log| ==> log[i].writer <= log[j].writer
  {
    hide Execute, Shielded;
    AuditedIsShielded(p);
    RunKeeps(p, run);
  }

  // ---- the exact condition ----

  function Resumes(n: nat): seq<Step> {
    seq(n, i => Resume(1))
  }

  function Awaits(p: seq<Stmt>, n: nat): nat
    requires n <= |p|
  {
    if n == 0 then 0 else Awaits(p, n - 1) + (if p[n - 1] == Await then 1 else 0)
  }

  /** A lone pass that has resumed at `pc` gets through to the await at `i`, or straight to it. */
  lemma {:induction false} AloneReaches(p: seq<Stmt>, pc: nat, i: nat, w: World)
    requires pc <= i < |p| && p[i] == Await && w.newest == 1
    requires forall k :: pc <= k < i ==> p[k] != Await
    ensures var w' := Advance(p, pc, 1, w); w'.newest == 1 && w'.suspended == w.suspended[1 := i + 1]
    decreases i - pc
  {
    if pc < i {
      match p[pc]
      case Guard => AloneReaches(p, pc + 1, i, w);
      case Local => AloneReaches(p, pc + 1, i, w);
      case Write => AloneReaches(p, pc + 1, i, w.(log := w.log + [Record(1, w.newest)]));
    }
  }

  /** The last await before position `n`, if there is one. */
  lemma {:induction false} LastAwait(p: seq<Stmt>, n: nat) returns (i: int)
    requires n <= |p|
    ensures -1 <= i < n && (i >= 0 ==> p[i] == Await) && forall k :: i < k < n ==> p[k] != Await
    ensures i >= 0 ==> Awaits(p, n) == Awaits(p, i) + 1
    ensures i < 0 ==> Awaits(p, n) == 0
  {
    if n == 0 {
      i := -1;
    } else if p[n - 1] == Await {
      i := n - 1;
    } else {
      i := LastAwait(p, n - 1);
    }
  }

  /** Left alone, the first pass suspends at each await in turn. */
  lemma {:induction false} AloneSuspendsAt(p: seq<Stmt>, i: nat)
    requires i < |p| && p[i] == Await
    ensures var w := Execute(p, [Enter] + Resumes(Awaits(p, i))); w.newest == 1 && w.suspended == map[1 := i + 1]
  {
    hide Advance;
    var n := Awaits(p, i);
    var run := [Enter] + Resumes(n);
    var before := LastAwait(p, i);
    if before < 0 {
      assert run == [Enter] && run[..0] == [];
      AloneReaches(p, 0, i, Idle.(newest := 1));
    } else {
      AloneSuspendsAt(p, before);
      assert run[..|run| - 1] == [Enter] + Resumes(n - 1) && run[|run| - 1] == Resume(1);
      var w := Execute(p, run[..|run| - 1]);
      AloneReaches(p, before + 1, i, w.(suspended := w.suspended - {1}));
    }
  }

  /** A pass touches no other pass, nor the newest token. */
  lemma {:induction false} AdvanceLeavesOthers(p: seq<Stmt>, pc: nat, mine: nat, w: World, other: nat)
    requires pc <= |p| && other in w.suspended && other != mine
    ensures var w' := Advance(p, pc, mine, w);
      w'.newest == w.newest && other in w'.suspended && w'.suspended[other] == w.suspended[other]
    decreases |p| - pc
  {
    if pc < |p| {
      match p[pc]
      case Await =>
      case Guard => if w.newest == mine { AdvanceLeavesOthers(p, pc + 1, mine, w, other); }
      case Write => AdvanceLeavesOthers(p, pc + 1, mine, w.(log := w.log + [Record(mine, w.newest)]), other);
      case Local => AdvanceLeavesOthers(p, pc + 1, mine, w, other);
    }
  }

  /** Writes once made stay in the log. */
  lemma {:induction false} AdvanceLogs(p: seq<Stmt>, pc: nat, mine: nat, w: World)
    requires pc <= |p|
    ensures w.log <= Advance(p, pc, mine, w).log
    decreases |p| - pc
  {
    if pc < |p| {
      match p[pc]
      case Await =>
      case Guard => if w.newest == mine { AdvanceLogs(p, pc + 1, mine, w); }
      case Write => AdvanceLogs(p, pc + 1, mine, w.(log := w.log + [Record(mine, w.newest)]));
      case Local => AdvanceLogs(p, pc + 1, mine, w);
    }
  }

  /** A superseded pass that resumes with no guard and no await before a write makes that write. */
  lemma {:induction false} StaleWrite(p: seq<Stmt>, pc: nat, j: nat, mine: nat, w: World)
    requires pc <= j < |p| && p[j] == Write && w.newest != mine
    requires forall k :: pc <= k < j ==> p[k] != Guard && p[k] != Await
    ensures !Safe(Advance(p, pc, mine, w))
    decreases j - pc
  {
    hide Safe;
    var w' := w.(log := w.log + [Record(mine, w.newest)]);
    if p[pc] == Write {
      AdvanceLogs(p, pc + 1, mine, w');
      var bad := Advance(p, pc, mine, w);
      assert bad.log[|w.log|] == Record(mine, w.newest);
      UnsafeAt(bad, |w.log|);
    } else {
      StaleWrite(p, pc + 1, j, mine, w);
    }
  }

  lemma UnsafeAt(w: World, i: nat)
    requires i < |w.log| && w.log[i].writer != w.log[i].newest
    ensures !Safe(w)
  {
  }

  /** render() can never write stale state, in any interleaving, exactly when a guard stands between every
      await and every write after it; the audit's rule is the syntactic way to ensure that. */
  lemma SafeExactlyWhenShielded(p: seq<Stmt>)
    ensures (forall run :: Safe(Execute(p, run))) <==> Shielded(p)
  {
    hide Execute, Safe;
    if Shielded(p) {
      forall run ensures Safe(Execute(p, run)) { RunKeeps(p, run); }
    } else {
      var i: nat :| i < |p| && p[i] == Await && !ShieldedFrom(p, i + 1);
      var j :| i + 1 <= j < |p| && p[j] == Write && !exists g :: i + 1 <= g < j && p[g] == Guard;
      var run := TornRun(p, i, j);
      assert !Safe(Execute(p, run));
    }
  }

  /** The tear: the first pass suspends at its last await before the write, a second pass enters, and
      the first resumes. */
  lemma TornRun(p: seq<Stmt>, i: nat, j: nat) returns (run: seq<Step>)
    requires i < j < |p| && p[i] == Await && p[j] == Write
    requires forall k :: i < k < j ==> p[k] != Guard
    ensures !Safe(Execute(p, run))
  {
    hide Advance, Safe, Awaits;
    var last := LastAwait(p, j);
    AloneSuspendsAt(p, last);
    var alone := [Enter] + Resumes(Awaits(p, last));
    run := alone + [Enter] + [Resume(1)];
    assert run[..|run| - 1] == alone + [Enter];
    assert (alone + [Enter])[..|alone|] == alone;
    var before := Execute(p, alone);
    AdvanceLeavesOthers(p, 0, 2, before.(newest := 2), 1);
    var w := Execute(p, alone + [Enter]);
    assert w.newest == 2 && w.suspended[1] == last + 1;
    StaleWrite(p, last + 1, j, 1, w.(suspended := w.suspended - {1}));
  }

  // ---- rejected awaits ----

  /** A pass suspends nobody but itself, and moves no token. */
  lemma {:induction false} AdvanceSuspends(p: seq<Stmt>, pc: nat, mine: nat, w: World)
    requires pc <= |p|
    ensures var w' := Advance(p, pc, mine, w);
      w'.newest == w.newest && forall t :: t in w'.suspended ==> t in w.suspended || t == mine
    decreases |p| - pc
  {
    if pc < |p| {
      match p[pc]
      case Await =>
      case Guard => if w.newest == mine { AdvanceSuspends(p, pc + 1, mine, w); }
      case Write => AdvanceSuspends(p, pc + 1, mine, w.(log := w.log + [Record(mine, w.newest)]));
      case Local => AdvanceSuspends(p, pc + 1, mine, w);
    }
  }

  lemma {:induction false} TokensIssued(p: seq<Stmt>, run: seq<Step>)
    ensures forall t :: t in Execute(p, run).suspended ==> t <= Execute(p, run).newest
  {
    hide Advance;
    if run != [] {
      var w, a := Execute(p, run[..|run| - 1]), run[|run| - 1];
      TokensIssued(p, run[..|run| - 1]);
      match a
      case Enter => AdvanceSuspends(p, 0, w.newest + 1, w.(newest := w.newest + 1));
      case Resume(t) =>
        if t in w.suspended && w.suspended[t] <= |p| {
          AdvanceSuspends(p, w.suspended[t], t, w.(suspended := w.suspended - {t}));
        }
      case _ =>
    }
  }

  lemma GoneStays(p: seq<Stmt>, w: World, a: Step, t: nat)
    requires t <= w.newest && t !in w.suspended
    ensures t <= Apply(p, w, a).newest && t !in Apply(p, w, a).suspended
  {
    hide Advance;
    match a
    case Enter => AdvanceSuspends(p, 0, w.newest + 1, w.(newest := w.newest + 1));
    case Resume(u) =>
      if u in w.suspended && w.suspended[u] <= |p| {
        AdvanceSuspends(p, w.suspended[u], u, w.(suspended := w.suspended - {u}));
      }
    case _ =>
  }

  /** A pass whose await was rejected paints its error once if it is the newest, nothing otherwise, and never
      goes on, whatever happens afterwards. */
  lemma {:induction false} RejectionEnds(p: seq<Stmt>, run: seq<Step>, t: nat, more: seq<Step>)
    requires t in Execute(p, run).suspended
    ensures var w, w' := Execute(p, run), Execute(p, run + [Reject(t)]);
      w'.log == w.log + (if w.newest == t then [Record(t, t)] else [])
    ensures var w := Execute(p, run + [Reject(t)] + more); t <= w.newest && t !in w.suspended
  {
    hide Advance;
    var all := run + [Reject(t)] + more;
    if more == [] {
      assert all == run + [Reject(t)];
    } else {
      RejectionEnds(p, run, t, more[..|more| - 1]);
      assert all[..|all| - 1] == run + [Reject(t)] + more[..|more| - 1];
      GoneStays(p, Execute(p, all[..|all| - 1]), all[|all| - 1], t);
    }
    assert (run + [Reject(t)])[..|run|] == run;
    TokensIssued(p, run);
    assert Execute(p, run).log + [] == Execute(p, run).log;
  }

  /** The audit asks for more than safety needs. */
  lemma AuditIsStricter()
    ensures Shielded([Await, Local, Guard, Write]) && !GuardFollowsAwait([Await, Local, Guard, Write])
  {
    var p := [Await, Local, Guard, Write];
    assert p[2] == Guard && p[0] == Await && p[1] == Local;
  }
}
