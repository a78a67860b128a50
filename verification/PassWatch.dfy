/** The pass watch of coach-scope.js: every render() invocation is numbered on entry and stamped when it
    settles, and a barrier waits for the invocations that were in flight at a snapshot. */
module PassWatch {
  import opened RenderPasses

  function InFlight(entered: nat, ended: set<nat>): set<nat> {
    set id: nat | 1 <= id <= entered && id !in ended
  }

  // ---- the watch beside the passes ----

  /** The passes, the token each invocation claimed (invocation `id` at position `id - 1`), and the
      invocations that have ended. */
  datatype Watched = Watched(world: World, tokens: seq<nat>, ended: set<nat>)

  /** The token of the pass that a step runs, if it runs one. */
  function Running(w: World, a: Step): (r: set<nat>) {
    match a
    case Enter => {w.newest + 1}
    case Invalidate => {}
    case Resume(t) => if t in w.suspended then {t} else {}
    case Reject(t) => if t in w.suspended then {t} else {}
  }

  function Watch(p: seq<Stmt>, v: Watched, a: Step): Watched {
    var world := Apply(p, v.world, a);
    var tokens := if a.Enter? then v.tokens + [v.world.newest + 1] else v.tokens;
    Watched(world, tokens, v.ended + Settled(tokens, Running(v.world, a), world))
  }

  predicate HoldsToken(tokens: seq<nat>, id: nat, among: set<nat>) {
    1 <= id <= |tokens| && tokens[id - 1] in among
  }

  /** The invocations whose pass was run and is not suspended again. */
  function Settled(tokens: seq<nat>, running: set<nat>, world: World): set<nat> {
    set id: nat | 1 <= id <= |tokens| &&
      HoldsToken(tokens, id, running) && !HoldsToken(tokens, id, world.suspended.Keys)
  }

  function Observe(p: seq<Stmt>, v: Watched, run: seq<Step>): Watched {
    if run == [] then v else Watch(p, Observe(p, v, run[..|run| - 1]), run[|run| - 1])
  }

  const Start := Watched(Idle, [], {})

  class PassWatch {
    var entered: nat
    var ended: set<nat>

    constructor ()
      ensures entered == 0 && ended == {}
    {
      entered, ended := 0, {};
    }

    /** The wrapper on entry. */
    method Begin() returns (id: nat)
      modifies this`entered
      ensures id == entered == old(entered) + 1
    {
      entered := entered + 1;
      id := entered;
    }

    /** The wrapper's `finally`. */
    method End(id: nat)
      modifies this`ended
      ensures ended == old(ended) + {id}
    {
      ended := ended + {id};
    }

    /** Every pass that has been entered and has not yet ended, in order of entry. */
    method PassesInFlight() returns (live: seq<nat>)
      ensures forall id: nat :: id in live <==> id in InFlight(entered, ended)
      ensures forall i, j :: 0 <= i < j < |live| ==> live[i] < live[j]
    {
      live := [];
      for id := 1 to entered + 1
        invariant forall i: nat :: i in live <==> i in InFlight(id - 1, ended)
        invariant forall i :: 0 <= i < |live| ==> live[i] < id
        invariant forall i, j :: 0 <= i < j < |live| ==> live[i] < live[j]
      {
        if id !in ended {
          live := live + [id];
        }
      }
    }

    /** The object stands where the account of the run stands. */
    ghost predicate Tracks(v: Watched)
      reads this
    {
      entered == |v.tokens| && ended == v.ended
    }

    /** What the wrapper does while the system takes one step: number the invocation that enters, stamp those
        that settle. */
    method Follow(p: seq<Stmt>, v: Watched, a: Step)
      requires Tracks(v)
      modifies this
      ensures Tracks(Watch(p, v, a))
    {
      hide Apply, Settled;
      if a.Enter? {
        var _ := Begin();
      }
      var next := Watch(p, v, a);
      var settled := Settled(next.tokens, Running(v.world, a), next.world);
      var todo := settled;
      while todo != {}
        invariant todo <= settled && ended == v.ended + (settled - todo)
        invariant entered == |next.tokens|
        decreases |todo|
      {
        var id :| id in todo;
        End(id);
        todo := todo - {id};
      }
    }

    /** What the barrier polls. */
    method AllEnded(ids: seq<nat>) returns (all: bool)
      ensures all <==> forall id :: id in ids ==> id in ended
    {
      for i := 0 to |ids|
        invariant forall k :: 0 <= k < i ==> ids[k] in ended
      {
        if ids[i] !in ended {
          return false;
        }
      }
      return true;
    }
  }

  /** The object after any run is what the account of that run says, so what holds of the one holds of the
      other. */
  method Replay(p: seq<Stmt>, run: seq<Step>) returns (watch: PassWatch)
    ensures fresh(watch) && watch.Tracks(Observe(p, Start, run))
  {
    hide Watch;
    watch := new PassWatch();
    var v := Start;
    for i := 0 to |run|
      invariant v == Observe(p, Start, run[..i]) && watch.Tracks(v) && fresh(watch)
    {
      assert run[..i + 1][..i] == run[..i];
      watch.Follow(p, v, run[i]);
      v := Watch(p, v, run[i]);
    }
    assert run[..|run|] == run;
  }

  /** Suspended passes claimed a token, and tokens were claimed in increasing order. */
  ghost predicate Claimed(p: seq<Stmt>, v: Watched) {
    && (forall t :: t in v.world.suspended ==> v.world.suspended[t] <= |p| && t in v.tokens)
    && (forall i :: 0 <= i < |v.tokens| ==> v.tokens[i] <= v.world.newest)
    && (forall i, j :: 0 <= i < j < |v.tokens| ==> v.tokens[i] < v.tokens[j])
  }

  ghost predicate StampedRight(v: Watched, id: nat) {
    id in v.ended <==> 1 <= id <= |v.tokens| && v.tokens[id - 1] !in v.world.suspended
  }

  /** An invocation has ended exactly when it is not suspended. */
  ghost predicate Accurate(p: seq<Stmt>, v: Watched) {
    Claimed(p, v) && forall id: nat :: StampedRight(v, id)
  }

  /** Running pass `mine` changes nobody else's suspension and writes under its own token only. */
  lemma {:induction false} AdvanceOwn(p: seq<Stmt>, pc: nat, mine: nat, w: World)
    requires pc <= |p|
    ensures var w' := Advance(p, pc, mine, w);
      && w'.newest == w.newest && w.log <= w'.log
      && (forall i :: |w.log| <= i < |w'.log| ==> w'.log[i].writer == mine)
      && (forall t :: t != mine ==> (t in w'.suspended <==> t in w.suspended))
      && (forall t :: t != mine && t in w.suspended ==> w'.suspended[t] == w.suspended[t])
      && (mine in w'.suspended && mine !in w.suspended ==> w'.suspended[mine] <= |p|)
    decreases |p| - pc
  {
    if pc < |p| {
      match p[pc]
      case Await =>
      case Guard => if w.newest == mine { AdvanceOwn(p, pc + 1, mine, w); }
      case Write => AdvanceOwn(p, pc + 1, mine, w.(log := w.log + [Record(mine, w.newest)]));
      case Local => AdvanceOwn(p, pc + 1, mine, w);
    }
  }

  /** A step runs one pass or none: the rest stay where they were, and new writes are that pass's. */
  lemma ApplyOwn(p: seq<Stmt>, w: World, a: Step)
    requires forall t :: t in w.suspended ==> t <= w.newest && w.suspended[t] <= |p|
    ensures var w' := Apply(p, w, a);
      && w.newest <= w'.newest && w.log <= w'.log
      && (forall i :: |w.log| <= i < |w'.log| ==> w'.log[i].writer in Running(w, a))
      && (forall t :: t !in Running(w, a) ==> (t in w'.suspended <==> t in w.suspended))
      && (forall t :: t in w'.suspended ==> w'.suspended[t] <= |p| && (t in w.suspended || t in Running(w, a)))
      && w'.newest == w.newest + (if a.Enter? || a.Invalidate? then 1 else 0)
  {
    hide Advance;
    match a
    case Enter => AdvanceOwn(p, 0, w.newest + 1, w.(newest := w.newest + 1));
    case Invalidate =>
    case Resume(t) =>
      if t in w.suspended { AdvanceOwn(p, w.suspended[t], t, w.(suspended := w.suspended - {t})); }
    case Reject(t) =>
  }

  lemma WatchStays(p: seq<Stmt>, v: Watched, a: Step)
    requires Accurate(p, v)
    ensures Accurate(p, Watch(p, v, a))
  {
    hide Claimed, StampedRight, Watch;
    ClaimedStays(p, v, a);
    forall id: nat ensures StampedRight(Watch(p, v, a), id) { StampedStays(p, v, a, id); }
  }

  lemma ClaimedStays(p: seq<Stmt>, v: Watched, a: Step)
    requires Claimed(p, v)
    ensures Claimed(p, Watch(p, v, a))
  {
    hide Apply, Settled;
    ApplyOwn(p, v.world, a);
    var v' := Watch(p, v, a);
    forall t | t in v'.world.suspended ensures t in v'.tokens {
      if t in v.tokens {
        var i :| 0 <= i < |v.tokens| && v.tokens[i] == t;
        assert v'.tokens[i] == t;
      } else {
        assert a.Enter? && v'.tokens[|v.tokens|] == t;
      }
    }
  }

  /** The token of an invocation already entered is run by a step only if it was suspended. */
  lemma RunningWas(p: seq<Stmt>, v: Watched, a: Step, i: nat)
    requires Claimed(p, v) && i < |v.tokens| && v.tokens[i] in Running(v.world, a)
    ensures v.tokens[i] in v.world.suspended
  {
  }

  lemma StampedStays(p: seq<Stmt>, v: Watched, a: Step, id: nat)
    requires Claimed(p, v) && StampedRight(v, id)
    ensures StampedRight(Watch(p, v, a), id)
  {
    hide Apply, Claimed, Running;
    var v' := Watch(p, v, a);
    var running := Running(v.world, a);
    StepFacts(p, v, a);
    InSettled(v'.tokens, running, v'.world, id);
    if 1 <= id <= |v.tokens| {
      assert v'.tokens[id - 1] == v.tokens[id - 1];
      if v.tokens[id - 1] in running { RunningWas(p, v, a, id - 1); }
    } else if id == |v'.tokens| {
      assert a.Enter? ==> v'.tokens[id - 1] in running;
    }
  }

  lemma StepFacts(p: seq<Stmt>, v: Watched, a: Step)
    requires Claimed(p, v)
    ensures a.Enter? ==> v.world.newest + 1 in Running(v.world, a)
    ensures forall t :: t !in Running(v.world, a) ==> (t in Apply(p, v.world, a).suspended <==> t in v.world.suspended)
  {
    hide Apply;
    ApplyOwn(p, v.world, a);
  }

  lemma InSettled(tokens: seq<nat>, running: set<nat>, world: World, id: nat)
    ensures id in Settled(tokens, running, world) <==>
      1 <= id <= |tokens| && tokens[id - 1] in running && tokens[id - 1] !in world.suspended
  {
  }

  lemma {:induction false} AlwaysAccurate(p: seq<Stmt>, v: Watched, run: seq<Step>)
    requires Accurate(p, v)
    ensures Accurate(p, Observe(p, v, run))
  {
    hide Accurate, Watch;
    if run != [] {
      AlwaysAccurate(p, v, run[..|run| - 1]);
      WatchStays(p, Observe(p, v, run[..|run| - 1]), run[|run| - 1]);
    }
  }

  /** In every run a pass is in flight, by the watch's account, exactly when it is suspended at an await. */
  lemma InFlightIsSuspended(p: seq<Stmt>, run: seq<Step>)
    ensures var v := Observe(p, Start, run);
      && (forall i :: 0 <= i < |v.tokens| ==>
          (i + 1 in InFlight(|v.tokens|, v.ended) <==> v.tokens[i] in v.world.suspended))
      && (forall id :: id in InFlight(|v.tokens|, v.ended) ==> 1 <= id <= |v.tokens|)
      && (forall t :: t in v.world.suspended ==> t in v.tokens)
  {
    hide Observe;
    var v := Observe(p, Start, run);
    StartIsAccurate(p);
    AlwaysAccurate(p, Start, run);
    forall i | 0 <= i < |v.tokens|
      ensures i + 1 in InFlight(|v.tokens|, v.ended) <==> v.tokens[i] in v.world.suspended
    {
      assert StampedRight(v, i + 1);
    }
  }

  /** No pass that claimed a token up to `bound` is still running, and the log has grown past `from`
      only by later passes. */
  ghost predicate Silent(v: Watched, bound: nat, from: nat) {
    && bound <= v.world.newest && from <= |v.world.log|
    && (forall t :: t in v.world.suspended ==> bound < t)
    && forall i :: from <= i < |v.world.log| ==> bound < v.world.log[i].writer
  }

  lemma SilenceStays(p: seq<Stmt>, v: Watched, a: Step, bound: nat, from: nat)
    requires Accurate(p, v) && Silent(v, bound, from)
    ensures Silent(Watch(p, v, a), bound, from)
  {
    hide Apply;
    ApplyOwn(p, v.world, a);
  }

  lemma {:induction false} SilenceLasts(p: seq<Stmt>, v: Watched, run: seq<Step>, bound: nat, from: nat)
    requires Accurate(p, v) && Silent(v, bound, from)
    ensures Silent(Observe(p, v, run), bound, from)
  {
    hide Accurate, Watch, Silent;
    if run != [] {
      AlwaysAccurate(p, v, run[..|run| - 1]);
      SilenceLasts(p, v, run[..|run| - 1], bound, from);
      SilenceStays(p, Observe(p, v, run[..|run| - 1]), run[|run| - 1], bound, from);
    }
  }

  /** Invocations never leave the record, and tokens claimed later are larger. */
  lemma {:induction false} RecordGrows(p: seq<Stmt>, v: Watched, run: seq<Step>)
    requires Accurate(p, v)
    ensures var v' := Observe(p, v, run);
      && v.tokens <= v'.tokens && v.ended <= v'.ended && v.world.newest <= v'.world.newest
      && forall i :: |v.tokens| <= i < |v'.tokens| ==> v.world.newest < v'.tokens[i]
  {
    hide Accurate, Apply;
    if run != [] {
      var front := run[..|run| - 1];
      RecordGrows(p, v, front);
      AlwaysAccurate(p, v, front);
      NewestGrows(p, Observe(p, v, front), run[|run| - 1]);
    }
  }

  lemma NewestGrows(p: seq<Stmt>, v: Watched, a: Step)
    requires Accurate(p, v)
    ensures v.world.newest <= Apply(p, v.world, a).newest
  {
    hide Apply;
    ApplyOwn(p, v.world, a);
  }

  /** The barrier is sound whether or not render() carries its guards: once every pass of a snapshot has
      ended, no pass entered before the snapshot can ever write again. */
  lemma BarrierSilencesTheSnapshot(p: seq<Stmt>, before: seq<Step>, waiting: seq<Step>, after: seq<Step>)
    requires var u := Observe(p, Start, before);
      InFlight(|u.tokens|, u.ended) <= Observe(p, u, waiting).ended
    ensures var u := Observe(p, Start, before);
      var v := Observe(p, u, waiting);
      forall i :: |v.world.log| <= i < |Observe(p, v, after).world.log| ==>
        u.world.newest < Observe(p, v, after).world.log[i].writer
  {
    hide Accurate, Watch, Observe;
    var u := Observe(p, Start, before);
    var v := Observe(p, u, waiting);
    StartIsAccurate(p);
    AlwaysAccurate(p, Start, before);
    AlwaysAccurate(p, u, waiting);
    RecordGrows(p, u, waiting);
    NoneLeft(p, u, v);
    SilenceLasts(p, v, after, u.world.newest, |v.world.log|);
  }

  lemma StartIsAccurate(p: seq<Stmt>)
    ensures Accurate(p, Start)
  {
  }

  lemma NoneLeft(p: seq<Stmt>, u: Watched, v: Watched)
    requires Accurate(p, u) && Accurate(p, v) && InFlight(|u.tokens|, u.ended) <= v.ended
    requires u.tokens <= v.tokens && u.ended <= v.ended
    requires forall i :: |u.tokens| <= i < |v.tokens| ==> u.world.newest < v.tokens[i]
    ensures forall t :: t in v.world.suspended ==> u.world.newest < t
  {
    forall i | 0 <= i < |u.tokens| ensures v.tokens[i] !in v.world.suspended {
      assert i + 1 in u.ended || i + 1 in InFlight(|u.tokens|, u.ended);
      assert StampedRight(v, i + 1);
      assert v.tokens[(i + 1) - 1] !in v.world.suspended;
    }
  }
}
