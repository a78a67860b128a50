/** The per-user gate ordering scoped reads against context switches (`ContextSwitchGate`).
    Each critical section of the source is one method; a wait is a predicate on the state. */
module ContextGate {
  import opened Text

  /** The gate's tables: a reader's user is unknown until it binds. */
  datatype Gate = Gate(seqNo: nat, readers: map<nat, Option<string>>, writers: map<nat, string>, timeouts: nat)

  const EmptyGate := Gate(0, map[], map[], 0)

  function Arrived(g: Gate): Gate {
    g.(seqNo := g.seqNo + 1, readers := g.readers[g.seqNo + 1 := None])
  }

  function Registered(g: Gate, user: string): Gate {
    g.(seqNo := g.seqNo + 1, writers := g.writers[g.seqNo + 1 := user])
  }

  function Narrowed(g: Gate, ticket: nat, user: string): Gate {
    if ticket in g.readers then g.(readers := g.readers[ticket := Some(user)]) else g
  }

  /** The participants a reader bound to `user` waits for: that user's earlier switches. */
  function ReaderBlockers(g: Gate, ticket: nat, user: string): set<nat> {
    set w | w in g.writers && w < ticket && g.writers[w] == user
  }

  /** The participants a switch waits for: earlier reads of its user or of nobody yet, and earlier
      switches of its user. */
  function WriterBlockers(g: Gate, ticket: nat, user: string): set<nat> {
    (set r | r in g.readers && r < ticket && (g.readers[r] == None || g.readers[r] == Some(user)))
    + (set w | w in g.writers && w < ticket && g.writers[w] == user)
  }

  /** Whom a registered participant waits for; an unbound arrival waits for nobody. */
  function Blockers(g: Gate, ticket: nat): set<nat> {
    if ticket in g.writers then WriterBlockers(g, ticket, g.writers[ticket])
    else if ticket in g.readers && g.readers[ticket].Some? then ReaderBlockers(g, ticket, g.readers[ticket].value)
    else {}
  }

  lemma WriterWaits(g: Gate, ticket: nat, user: string)
    ensures WriterBlockers(g, ticket, user) != {} <==>
      (exists r :: r in g.readers && r < ticket && (g.readers[r] == None || g.readers[r] == Some(user)))
      || (exists w :: w in g.writers && w < ticket && g.writers[w] == user)
  {
    if r :| r in g.readers && r < ticket && (g.readers[r] == None || g.readers[r] == Some(user)) {
      assert r in WriterBlockers(g, ticket, user);
    }
    if w :| w in g.writers && w < ticket && g.writers[w] == user {
      assert w in WriterBlockers(g, ticket, user);
    }
    if WriterBlockers(g, ticket, user) != {} {
      var x :| x in WriterBlockers(g, ticket, user);
    }
  }

  lemma ReaderWaits(g: Gate, ticket: nat, user: string)
    ensures ReaderBlockers(g, ticket, user) != {} <==>
      exists w :: w in g.writers && w < ticket && g.writers[w] == user
  {
    if w :| w in g.writers && w < ticket && g.writers[w] == user {
      assert w in ReaderBlockers(g, ticket, user);
    }
    if ReaderBlockers(g, ticket, user) != {} {
      var x :| x in ReaderBlockers(g, ticket, user);
    }
  }

  /** Who waits, without the sets: a bound read for an earlier switch of its own user, a switch for an earlier
      read of its user or of nobody yet, or for an earlier switch of its user; an unbound arrival for nobody. */
  lemma WaitsExactly(g: Gate, ticket: nat)
    requires WellFormed(g)
    ensures Blockers(g, ticket) != {} <==>
      || (ticket in g.readers && g.readers[ticket].Some? &&
          exists w :: w in g.writers && w < ticket && g.writers[w] == g.readers[ticket].value)
      || (ticket in g.writers &&
          ((exists r ::
              r in g.readers && r < ticket && (g.readers[r] == None || g.readers[r] == Some(g.writers[ticket])))
           || (exists w :: w in g.writers && w < ticket && g.writers[w] == g.writers[ticket])))
  {
    hide ReaderBlockers, WriterBlockers;
    if ticket in g.writers {
      WriterWaits(g, ticket, g.writers[ticket]);
    } else if ticket in g.readers && g.readers[ticket].Some? {
      ReaderWaits(g, ticket, g.readers[ticket].value);
    }
  }

  /** Tickets are issued once and never reused. */
  ghost predicate WellFormed(g: Gate) {
    && (forall t :: t in g.readers || t in g.writers ==> 1 <= t <= g.seqNo)
    && (forall t :: t in g.readers ==> t !in g.writers)
  }

  class ContextSwitchGate {
    var seqNo: nat
    var readers: map<nat, Option<string>>
    var writers: map<nat, string>
    var timeouts: nat

    ghost function State(): Gate
      reads this
    {
      Gate(seqNo, readers, writers, timeouts)
    }

    constructor ()
      ensures State() == EmptyGate
    {
      seqNo, readers, writers, timeouts := 0, map[], map[], 0;
    }

    method Arrive() returns (ticket: nat)
      requires WellFormed(State())
      modifies this
      ensures ticket !in old(readers) && ticket !in old(writers) && old(seqNo) < ticket
      ensures State() == Arrived(old(State())) && WellFormed(State()) && Blockers(State(), ticket) == {}
      ensures readers == old(readers)[ticket := None] && writers == old(writers) && timeouts == old(timeouts)
    {
      seqNo := seqNo + 1;
      readers := readers[seqNo := None];
      ticket := seqNo;
    }

    /** The first half of `_bind`: announce whose read this is; then wait while `blocked`. */
    method Narrow(ticket: nat, user: string) returns (blocked: bool)
      requires WellFormed(State())
      modifies this
      ensures State() == Narrowed(old(State()), ticket, user) && WellFormed(State())
      ensures blocked <==> ticket in readers && exists w :: w in writers && w < ticket && writers[w] == user
      ensures blocked <==> ticket in readers && Blockers(State(), ticket) != {}
      ensures readers == if ticket in old(readers) then old(readers)[ticket := Some(user)] else old(readers)
      ensures writers == old(writers) && seqNo == old(seqNo) && timeouts == old(timeouts)
      ensures ticket in old(readers) && old(readers)[ticket] == None ==>
        forall t :: t in writers ==> Blockers(State(), t) <= Blockers(old(State()), t)
    {
      blocked := false;
      if ticket in readers {
        readers := readers[ticket := Some(user)];
        blocked := exists w :: w in writers && w < ticket && writers[w] == user;
        ReaderWaits(State(), ticket, user);
      }
    }

    method ReleaseReader(ticket: nat)
      requires WellFormed(State())
      modifies this
      ensures State() == old(State()).(readers := old(readers) - {ticket}) && WellFormed(State())
    {
      if ticket in readers {
        readers := readers - {ticket};
      } else {
        assert readers - {ticket} == readers;
      }
    }

    /** Entry of `exclusive`: register, then wait while `blocked`. */
    method RegisterWriter(user: string) returns (ticket: nat, blocked: bool)
      requires WellFormed(State())
      modifies this
      ensures ticket !in old(readers) && ticket !in old(writers) && old(seqNo) < ticket
      ensures State() == Registered(old(State()), user) && WellFormed(State())
      ensures writers == old(writers)[ticket := user] && readers == old(readers) && timeouts == old(timeouts)
      ensures blocked <==>
        || (exists r :: r in readers && r < ticket && (readers[r] == None || readers[r] == Some(user)))
        || (exists w :: w in writers && w < ticket && writers[w] == user)
      ensures blocked <==> Blockers(State(), ticket) != {}
    {
      hide WriterBlockers;
      seqNo := seqNo + 1;
      ticket := seqNo;
      writers := writers[ticket := user];
      var byReader := exists r :: r in readers && r < ticket && (readers[r] == None || readers[r] == Some(user));
      var byWriter := exists w :: w in writers && w < ticket && writers[w] == user;
      blocked := byReader || byWriter;
      WriterWaits(State(), ticket, user);
    }

    method ReleaseWriter(ticket: nat)
      requires WellFormed(State())
      modifies this
      ensures State() == old(State()).(writers := old(writers) - {ticket}) && WellFormed(State())
    {
      if ticket in writers {
        writers := writers - {ticket};
      } else {
        assert writers - {ticket} == writers;
      }
    }

    /** `_await` giving up: the waiter proceeds and the expiry is counted. */
    method Expire()
      modifies this
      ensures State() == old(State()).(timeouts := old(timeouts) + 1)
    {
      timeouts := timeouts + 1;
    }
  }

  // ---- no deadlock, no starvation ----

  lemma Lowest(s: set<nat>) returns (least: nat)
    requires s != {}
    ensures least in s && forall x :: x in s ==> least <= x
  {
    var x :| x in s;
    if s == {x} {
      least := x;
    } else {
      assert s - {x} != {};
      var rest := Lowest(s - {x});
      assert forall y :: y in s ==> y == x || y in s - {x};
      least := if x < rest then x else rest;
    }
  }

  /** Waits point only to earlier arrivals, so no set of participants waits in a circle: whoever
      arrived first among those inside can proceed. */
  lemma SomeoneProceeds(g: Gate) returns (t: nat)
    requires g.readers.Keys + g.writers.Keys != {}
    ensures (t in g.readers || t in g.writers) && Blockers(g, t) == {}
  {
    t := Lowest(g.readers.Keys + g.writers.Keys);
    assert forall x :: x in g.readers || x in g.writers ==> x in g.readers.Keys + g.writers.Keys;
  }
}
