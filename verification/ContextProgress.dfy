/** What every run of the gate and its server allows next: everybody inside can leave, and nothing is selected
    for a user before that user has switched. */
module ContextProgress {
  import opened ContextGate
  import opened ContextSwitch
  import opened Text

  // ---- users who have not switched ----

  lemma {:induction false} ContextsAreCommitted(run: seq<Step>, epoch: (string, Context) -> string, user: string)
    ensures var s := Execute(run, epoch);
      user in s.contexts ==> exists w :: w in s.commits && s.commits[w].user == user
  {
    hide GateAfter, PhasesAfter, AnswersAfter, PagesAfter, LatestAfter, EnteredAfter;
    if run != [] {
      var s, a := Execute(run[..|run| - 1], epoch), run[|run| - 1];
      ContextsAreCommitted(run[..|run| - 1], epoch, user);
      if Enabled(s, a) { CommitShows(s, a, epoch, user); }
    }
  }

  lemma CommitShows(s: Sys, a: Step, epoch: (string, Context) -> string, user: string)
    requires Enabled(s, a)
    requires user in s.contexts ==> exists w :: w in s.commits && s.commits[w].user == user
    ensures user in ContextsAfter(s, a) ==>
      exists w :: w in CommitsAfter(s, a) && CommitsAfter(s, a)[w].user == user
  {
    var after := CommitsAfter(s, a);
    if user in s.contexts {
      var w :| w in s.commits && s.commits[w].user == user;
      assert w in after && after[w].user == user;
    }
    if a.Commit? { assert a.w in after; }
  }

  /** In every run, a user none of whose switches has committed is in generation 0 with nothing selected, so
      that no season is answered. */
  lemma NothingSelectedYet(run: seq<Step>, epoch: (string, Context) -> string, user: string, season: string)
    requires forall w :: w in Execute(run, epoch).commits ==> Execute(run, epoch).commits[w].user != user
    ensures ContextOf(Execute(run, epoch), user) == Context(0, Selection("", ""))
    ensures Ceiling(season, ContextOf(Execute(run, epoch), user).selection) == 404
  {
    hide Execute;
    ContextsAreCommitted(run, epoch, user);
  }

  // ---- everybody can leave ----

  lemma OneMore(run: seq<Step>, epoch: (string, Context) -> string, a: Step)
    requires Enabled(Execute(run, epoch), a)
    ensures Execute(run + [a], epoch) == Apply(Execute(run, epoch), a, epoch)
  {
    hide Apply, Enabled;
    assert (run + [a])[..|run|] == run;
  }

  /** Every read inside can leave at once, and so they all can. */
  lemma {:induction false} ReadsDrain(run: seq<Step>, epoch: (string, Context) -> string) returns (more: seq<Step>)
    ensures var s, s' := Execute(run, epoch), Execute(run + more, epoch);
      s'.gate == s.gate.(readers := map[]) && s'.entered == s.entered
    decreases |Execute(run, epoch).gate.readers|
  {
    hide Execute;
    var s := Execute(run, epoch);
    if s.gate.readers == map[] {
      more := [];
      assert run + [] == run;
    } else {
      var r :| r in s.gate.readers;
      OneMore(run, epoch, LeaveRead(r));
      assert s.gate.readers.Keys - {r} == (s.gate.readers - {r}).Keys;
      var rest := ReadsDrain(run + [LeaveRead(r)], epoch);
      more := [LeaveRead(r)] + rest;
      assert run + more == run + [LeaveRead(r)] + rest;
    }
  }

  lemma {:induction false} Earliest(tickets: set<nat>) returns (t: nat)
    requires tickets != {}
    ensures t in tickets && forall u :: u in tickets ==> t <= u
  {
    var x :| x in tickets;
    if tickets == {x} {
      t := x;
    } else {
      var u := Earliest(tickets - {x});
      t := if u < x then u else x;
      assert forall v :: v in tickets ==> v == x || v in tickets - {x};
    }
  }

  /** With no read inside, the earliest switch enters without waiting and leaves, and so they all do in turn. */
  lemma {:induction false} SwitchesDrain(run: seq<Step>, epoch: (string, Context) -> string) returns (more: seq<Step>)
    requires Execute(run, epoch).gate.readers == map[]
    ensures var s, s' := Execute(run, epoch), Execute(run + more, epoch);
      s'.gate == s.gate.(writers := map[])
    decreases |Execute(run, epoch).gate.writers|
  {
    hide Execute, Apply;
    var s := Execute(run, epoch);
    if s.gate.writers == map[] {
      more := [];
      assert run + [] == run;
    } else {
      var w := Earliest(s.gate.writers.Keys);
      EarliestUnblocked(s.gate, w);
      var enter := if w in s.entered then [] else [EnterSwitch(w)];
      var inside := EntersFreely(run, epoch, w, enter);
      OneMore(run + enter, epoch, LeaveSwitch(w));
      LeavesAlone(inside, epoch, w);
      var rest := SwitchesDrain(run + enter + [LeaveSwitch(w)], epoch);
      more := enter + [LeaveSwitch(w)] + rest;
      assert run + more == run + enter + [LeaveSwitch(w)] + rest;
    }
  }

  lemma EarliestUnblocked(g: Gate, w: nat)
    requires g.readers == map[] && w in g.writers && forall u :: u in g.writers ==> w <= u
    ensures Blockers(g, w) == {}
  {
    WriterWaits(g, w, g.writers[w]);
  }

  lemma EntersFreely(run: seq<Step>, epoch: (string, Context) -> string, w: nat, enter: seq<Step>) returns (s: Sys)
    requires w in Execute(run, epoch).gate.writers && Blockers(Execute(run, epoch).gate, w) == {}
    requires enter == if w in Execute(run, epoch).entered then [] else [EnterSwitch(w)]
    ensures s == Execute(run + enter, epoch) && s.gate == Execute(run, epoch).gate && w in s.entered
  {
    hide Execute;
    if w in Execute(run, epoch).entered {
      assert run + [] == run;
    } else {
      OneMore(run, epoch, EnterSwitch(w));
    }
    s := Execute(run + enter, epoch);
  }

  lemma LeavesAlone(s: Sys, epoch: (string, Context) -> string, w: nat)
    requires w in s.gate.writers && w in s.entered
    ensures var g := Apply(s, LeaveSwitch(w), epoch).gate;
      g == s.gate.(writers := s.gate.writers - {w}) && |g.writers| < |s.gate.writers|
  {
    assert (s.gate.writers - {w}).Keys == s.gate.writers.Keys - {w};
  }

  /** Nobody is ever stuck: whatever has happened, there is a way on in which everybody leaves and no wait
      expires. */
  lemma EverybodyCanLeave(run: seq<Step>, epoch: (string, Context) -> string) returns (more: seq<Step>)
    ensures var s, s' := Execute(run, epoch), Execute(run + more, epoch);
      s'.gate.readers == map[] && s'.gate.writers == map[] && s'.gate.timeouts == s.gate.timeouts
  {
    hide Execute;
    var reading := ReadsDrain(run, epoch);
    var switches := SwitchesDrain(run + reading, epoch);
    more := reading + switches;
    assert run + more == run + reading + switches;
  }

  ghost predicate Named(s: Sys) {
    && (forall r :: r in s.gate.readers ==> s.gate.readers[r] != Some(""))
    && (forall w :: w in s.gate.writers ==> s.gate.writers[w] != "")
    && (forall w :: w in s.commits ==> s.commits[w].user != "")
    && (forall p :: p in s.pages ==> s.pages[p].user != "")
  }

  /** In every run only named users bind reads, switch and load pages. */
  lemma {:induction false} UsersAreNamed(run: seq<Step>, epoch: (string, Context) -> string)
    ensures Named(Execute(run, epoch))
  {
    hide Apply, Enabled;
    if run == [] {
      NobodyYet();
    } else {
      UsersAreNamed(run[..|run| - 1], epoch);
      var s, a := Execute(run[..|run| - 1], epoch), run[|run| - 1];
      if Enabled(s, a) { UsersStayNamed(s, a, epoch); }
    }
  }

  lemma NobodyYet()
    ensures Named(Start)
  {
  }

  lemma UsersStayNamed(s: Sys, a: Step, epoch: (string, Context) -> string)
    requires Enabled(s, a) && Named(s)
    ensures Named(Apply(s, a, epoch))
  {
    hide Blockers, EpochVerdict, Ceiling, ContextOf, Discards, PhasesAfter, AnswersAfter, ContextsAfter, LatestAfter;
  }
}
