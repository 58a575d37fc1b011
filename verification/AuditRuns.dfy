/** Whole runs of one audit log process: when the in-memory check succeeds. */
module AuditRuns {
  import opened Base
  import opened HashChain
  import opened LogFiles
  import opened AuditWorker

  // ---------------------------------------------------------------------------
  // The in-memory check
  // ---------------------------------------------------------------------------

  /** No record whose write failed is followed by a committed one. */
  predicate NoGap(os: seq<Outcome>) {
    forall i, j | 0 <= i < j < |os| && os[i].NotWritten? :: !os[j].Committed?
  }

  lemma {:induction false} CommittedAmongChained(os: seq<Outcome>)
    ensures |CommittedEvents(os)| <= |ChainedEvents(os)|
    ensures |CommittedEvents(os)| == |ChainedEvents(os)| ==>
              CommittedEvents(os) == ChainedEvents(os) && forall i | 0 <= i < |os| :: !os[i].NotWritten?
  {
    if os != [] {
      CommittedAmongChained(os[..|os| - 1]);
    }
  }

  /** The place of the i-th committed event in the chain. */
  lemma {:induction false} PlaceInChain(os: seq<Outcome>, i: nat) returns (p: nat)
    requires i < |CommittedEvents(os)|
    ensures i <= p < |ChainedEvents(os)| && ChainedEvents(os)[p] == CommittedEvents(os)[i]
    ensures p == i == |CommittedEvents(os)| - 1 ==> NoGap(os)
  {
    var init := os[..|os| - 1];
    CommittedAmongChained(init);
    if os[|os| - 1].Committed? && i == |CommittedEvents(os)| - 1 {
      p := |ChainedEvents(init)|;
    } else {
      p := PlaceInChain(init, i);
    }
  }

  lemma {:induction false} NoGapIsPrefix(os: seq<Outcome>)
    requires NoGap(os)
    ensures CommittedEvents(os) <= ChainedEvents(os)
  {
    if os != [] {
      var init := os[..|os| - 1];
      NoGapIsPrefix(init);
      CommittedAmongChained(init);
      if os[|os| - 1].Committed? {
        NothingFailed(init);
      }
    }
  }

  lemma {:induction false} NothingFailed(os: seq<Outcome>)
    requires forall i | 0 <= i < |os| :: !os[i].NotWritten?
    ensures CommittedEvents(os) == ChainedEvents(os)
  {
    if os != [] {
      NothingFailed(os[..|os| - 1]);
    }
  }

  lemma PlaceIsUnique(c: Codec, log: seq<Event>, a: nat, b: nat)
    requires Distinguishes(c, EventSet(log)) && ChainEnd(c, ZERO, log).Some?
    requires a < |log| && b < |log| && log[a] == log[b]
    ensures a == b
  {
    ChainPrefix(c, ZERO, log, a);
    ChainPrefix(c, ZERO, log, b);
    PositionIsUnique(c, log, a, b);
  }

  lemma CheckSucceeds(c: Codec, os: seq<Outcome>, entries: seq<Event>)
    requires entries == Capped(CommittedEvents(os)) && ChainEnd(c, ZERO, ChainedEvents(os)).Some?
    requires |CommittedEvents(os)| <= MAX_IN_MEMORY_ENTRIES && NoGap(os)
    ensures ChainEnd(c, ZERO, entries).Some?
  {
    NoGapIsPrefix(os);
    ChainPrefix(c, ZERO, ChainedEvents(os), |entries|);
    assert entries == ChainedEvents(os)[..|entries|];
  }

  lemma CheckImplies(c: Codec, earlier: seq<Event>, os: seq<Outcome>, entries: seq<Event>)
    requires entries == Capped(CommittedEvents(os)) && entries != []
    requires Distinguishes(c, EventSet(earlier + ChainedEvents(os)))
    requires ChainEnd(c, ZERO, earlier + ChainedEvents(os)).Some? && ChainEnd(c, ZERO, entries).Some?
    ensures earlier == [] && |CommittedEvents(os)| <= MAX_IN_MEMORY_ENTRIES && NoGap(os)
  {
    hide ChainEnd, CommittedEvents, ChainedEvents, Distinguishes, NoGap, EventSet;
    var log := earlier + ChainedEvents(os);
    var committed := CommittedEvents(os);
    EntriesAreLogged(earlier, os, entries);
    EditedIsPrefix(c, log, entries);
    var first := |committed| - |entries|;
    var p := PlaceInChain(os, first);
    var q := PlaceInChain(os, |committed| - 1);
    PlacesInPrefix(c, log, entries, |earlier| + p, |earlier| + q);
  }

  lemma PlacesInPrefix(c: Codec, log: seq<Event>, entries: seq<Event>, a: nat, b: nat)
    requires Distinguishes(c, EventSet(log)) && ChainEnd(c, ZERO, log).Some?
    requires entries != [] && entries <= log && a < |log| && b < |log|
    requires log[a] == entries[0] && log[b] == entries[|entries| - 1]
    ensures a == 0 && b == |entries| - 1
  {
    PlaceIsUnique(c, log, 0, a);
    PlaceIsUnique(c, log, |entries| - 1, b);
  }

  lemma EntriesAreLogged(earlier: seq<Event>, os: seq<Outcome>, entries: seq<Event>)
    requires entries == Capped(CommittedEvents(os))
    ensures forall e | e in entries :: e in earlier + ChainedEvents(os)
  {
    var committed := CommittedEvents(os);
    forall e | e in entries
      ensures e in earlier + ChainedEvents(os)
    {
      assert e in committed;
      var i :| 0 <= i < |committed| && committed[i] == e;
      var p := PlaceInChain(os, i);
      assert (earlier + ChainedEvents(os))[|earlier| + p] == e;
    }
  }

  /** The in-memory check from the zero hash succeeds when the log has recorded nothing, or it started
      a new chain (no events from earlier processes), nothing has been capped off, and no failed write
      came before a committed event. If the hash distinguishes the events of the chain, it succeeds in
      no other case. */
  lemma VerifyChainSucceedsExactly(setup: Setup, earlier: seq<Event>, s: WorkerState, cmds: seq<Command>)
    requires s.entries == [] && ChainEnd(setup.codec, ZERO, earlier) == Some(s.lastHash)
    ensures var t := Run(setup, s, cmds);
            var intact := || CommittedEvents(t.outcomes) == []
                          || (&& earlier == []
                              && |CommittedEvents(t.outcomes)| <= MAX_IN_MEMORY_ENTRIES
                              && NoGap(t.outcomes));
            var succeeds := ChainEnd(setup.codec, ZERO, t.state.entries).Some?;
            && (intact ==> succeeds)
            && (Distinguishes(setup.codec, EventSet(earlier + ChainedEvents(t.outcomes))) ==> (succeeds <==> intact))
  {
    hide Distinguishes;
    var c, t := setup.codec, Run(setup, s, cmds);
    RunChains(setup, s, cmds);
    RunKeepsLatest(setup, s, cmds);
    var os, entries := t.outcomes, t.state.entries;
    assert s.entries + CommittedEvents(os) == CommittedEvents(os);
    ChainConcat(c, ZERO, earlier, ChainedEvents(os));
    if earlier == [] && |CommittedEvents(os)| <= MAX_IN_MEMORY_ENTRIES && NoGap(os) {
      CheckSucceeds(c, os, entries);
    }
    if entries != [] && ChainEnd(c, ZERO, entries).Some? && Distinguishes(c, EventSet(earlier + ChainedEvents(os))) {
      CheckImplies(c, earlier, os, entries);
    }
  }

  /** One failed write is enough: the record after it names a hash that is not in the list, unless the
      first event happens to hash to zero. */
  lemma FailedWriteBreaksCheck(setup: Setup, s: WorkerState, q: Request, left: Disk)
    requires setup.persistent && s == Started(setup, map[], Missing)
    requires forall p :: setup.codec.payloadBytes(p).Some?
    requires NoZero(setup.codec, {FirstEvent(q)})
    ensures var t := Run(setup, s, [Record(q, Env(1, Fails(left)), true), Record(q, Env(2, Completes), true)]);
            && |t.state.entries| == 1
            && ChainEnd(setup.codec, ZERO, t.state.entries).None?
  {
    hide Run, Append;
    var a, b := Record(q, Env(1, Fails(left)), true), Record(q, Env(2, Completes), true);
    assert [a, b][..1] == [a] && [a][..0] == [];
    RunNothing(setup, s);
    RunUnfold(setup, s, [a]);
    RunUnfold(setup, s, [a, b]);
    assert StepCommand(setup, s, a).outcome == NotWritten(FirstEvent(q));
    var s1 := Run(setup, s, [a]).state;
    assert s1.lastHash != ZERO && s1.entries == [] && !s1.tampered && s1.lastTimestamp == 1;
    OneEntry(setup, s1, b);
  }

  /** What the first record of a new log becomes at clock reading 1. */
  function FirstEvent(q: Request): Event {
    Event(Payload(1, q.session, q.operation, q.keyId, q.result), ZERO)
  }

  lemma RunNothing(setup: Setup, s: WorkerState)
    ensures Run(setup, s, []).state == s
  {
  }

  lemma OneEntry(setup: Setup, s: WorkerState, c: Command)
    requires c.Record? && c.env.io.Completes? && !s.tampered && s.lastTimestamp < U64_MAX
    requires s.entries == [] && s.lastHash != ZERO && forall p :: setup.codec.payloadBytes(p).Some?
    ensures var entries := StepCommand(setup, s, c).state.entries;
            |entries| == 1 && ChainEnd(setup.codec, ZERO, entries).None?
  {
    hide Append;
    var step := StepCommand(setup, s, c);
    assert step.state.entries == [step.outcome.event];
    assert step.state.entries[..0] == [];
  }
}
