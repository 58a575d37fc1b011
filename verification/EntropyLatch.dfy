/** The process-wide monitor and its sticky error flag, over every interleaving of callers. */
module EntropyLatch {
  import opened Base
  import opened EntropyHealth

  /** A caller of `global_observe` has found the flag clear once, has found it clear a second time, or
      has seen a test fail and holds the lock until the flag is set. */
  datatype Pc = Idle | Entered(bytes: seq<byte>) | Ready(bytes: seq<byte>) | Tripped

  datatype Event = Passed(thread: nat, bytes: seq<byte>) | Refused(thread: nat) | Panicked(thread: nat)

  /** `history` is what the two tests have been given: startup samples, then the bytes of each caller
      in the order they took the lock, each up to the first one refused. */
  datatype State = State(
    flag: bool,
    monitor: Option<Monitor>,
    threads: map<nat, Pc>,
    events: seq<Event>,
    history: History)

  datatype Action =
    | Enter(thread: nat, bytes: seq<byte>)
    | Force(startup: seq<byte>)
    | Recheck(thread: nat)
    | Observe(thread: nat)
    | SetFlag(thread: nat)

  const INITIAL := State(false, None, map[], [], NONE)

  function PcOf(s: State, t: nat): Pc {
    if t in s.threads then s.threads[t] else Idle
  }

  function Goto(s: State, t: nat, pc: Pc): State {
    s.(threads := s.threads[t := pc])
  }

  function Finish(s: State, t: nat, e: Event): State {
    s.(threads := s.threads[t := Idle], events := s.events + [e])
  }

  predicate LockFree(s: State) {
    forall t | t in s.threads :: s.threads[t] != Tripped
  }

  function Fresh(): (m: Monitor)
    ensures |m.window| == ADAPTIVE_PROPORTION_WINDOW && !m.startupPassed
  {
    Monitor(0, 0, false, seq(ADAPTIVE_PROPORTION_WINDOW, _ => 0), 0, 0, 0, false, false)
  }

  /** The monitor's window is an array of fixed size. */
  predicate Sized(s: State) {
    s.monitor.Some? ==> |s.monitor.value.window| == ADAPTIVE_PROPORTION_WINDOW
  }

  /** One atomic step; impossible actions change nothing. `Force` is the one-time initialisation. */
  ghost function Next(s: State, a: Action): (s': State)
    requires Sized(s)
    ensures Sized(s')
  {
    match a
    case Enter(t, bytes) =>
      if !PcOf(s, t).Idle? then s
      else if s.flag then Finish(s, t, Refused(t))
      else Goto(s, t, Entered(bytes))
    case Force(startup) =>
      if s.monitor.Some? || |startup| != STARTUP_SAMPLES then s
      else
        var r := Startup(Fresh(), startup);
        s.(monitor := Some(r.monitor), flag := s.flag || !r.verdict.Healthy?,
           history := JudgeAll(NONE, startup).history)
    case Recheck(t) =>
      if !PcOf(s, t).Entered? || s.monitor.None? then s
      else if s.flag then Finish(s, t, Refused(t))
      else Goto(s, t, Ready(PcOf(s, t).bytes))
    case Observe(t) =>
      if !PcOf(s, t).Ready? || !LockFree(s) || s.monitor.None? then s
      else
        var bytes := PcOf(s, t).bytes;
        var r := FeedBytes(s.monitor.value, bytes);
        var given := if s.monitor.value.startupPassed then bytes else [];
        var s' := s.(monitor := Some(r.monitor), history := JudgeAll(s.history, given).history);
        (match r.verdict
         case Healthy => Finish(s', t, Passed(t, bytes))
         case Failed => Goto(s', t, Tripped)
         case OutOfBounds => Finish(s', t, Panicked(t)))
    case SetFlag(t) =>
      if !PcOf(s, t).Tripped? then s else Finish(s.(flag := true), t, Refused(t))
  }

  ghost function Run(s: State, actions: seq<Action>): (s': State)
    requires Sized(s)
    ensures Sized(s')
  {
    if actions == [] then s else Next(Run(s, actions[..|actions| - 1]), actions[|actions| - 1])
  }

  // ---------------------------------------------------------------------------
  // Up to the latch
  // ---------------------------------------------------------------------------

  /** The monitor always tracks its streams, and until a test has failed they are one healthy stream.
      A caller gets ready only after the startup test has passed. */
  ghost predicate Inv(s: State) {
    && Sized(s)
    && (if s.monitor.Some? then Tracks(s.monitor.value, s.history) else s.history == NONE)
    && (forall t | t in s.threads && (s.threads[t].Ready? || s.threads[t].Tripped?) :: Started(s))
    && (!s.flag && s.monitor.Some? ==> Started(s))
    && (!s.flag && LockFree(s) && s.monitor.Some? ==> HealthyHistory(s.history))
  }

  predicate Started(s: State) {
    s.monitor.Some? && s.monitor.value.startupPassed
  }

  ghost predicate HealthyHistory(h: History) {
    h.tested == h.windowed && HealthyStream(h.tested)
  }

  lemma ForceKeepsInv(s: State, startup: seq<byte>)
    requires Inv(s)
    ensures Inv(Next(s, Force(startup)))
  {
    hide HealthyStream, Tracks, FeedAll, JudgeAll;
    if s.monitor.None? && |startup| == STARTUP_SAMPLES {
      var reset := Reset(Fresh());
      ResetTracks(Fresh());
      assert startup[..STARTUP_SAMPLES] == startup;
      FeedAllTracks(reset, NONE, startup);
      FlagKeepsTracks(FeedAll(reset, startup).monitor, JudgeAll(NONE, startup).history);
      FromNothing(startup);
    }
  }

  /** Bytes that follow a healthy history are accepted exactly if the history stays healthy. */
  lemma HealthyGoesOn(h: History, xs: seq<byte>)
    requires HealthyHistory(h)
    ensures JudgeAll(h, xs).verdict.Healthy? <==> HealthyStream(h.tested + xs)
    ensures JudgeAll(h, xs).verdict.Healthy? ==> JudgeAll(h, xs).history == History(h.tested + xs, h.tested + xs)
    ensures !JudgeAll(h, xs).verdict.OutOfBounds?
  {
    hide RepeatedAt, BiasedAt, JudgeAll;
    JudgeAllMeaning(h, xs);
    CleanIsHealthy(h, xs);
    if xs == [] {
      assert h.tested + xs == h.tested;
    }
  }

  lemma FromNothing(xs: seq<byte>)
    ensures JudgeAll(NONE, xs).verdict.Healthy? <==> HealthyStream(xs)
    ensures JudgeAll(NONE, xs).verdict.Healthy? ==> JudgeAll(NONE, xs).history == History(xs, xs)
  {
    hide JudgeAll;
    HealthyGoesOn(NONE, xs);
    assert [] + xs == xs;
  }

  lemma FlagKeepsTracks(m: Monitor, h: History)
    ensures Tracks(m, h) ==> Tracks(Flagged(m), h)
  {
  }

  lemma ObserveKeepsInv(s: State, t: nat)
    requires Inv(s)
    ensures Inv(Next(s, Observe(t)))
  {
    hide HealthyStream, Tracks, FeedAll, JudgeAll;
    if PcOf(s, t).Ready? && LockFree(s) && s.monitor.Some? {
      assert t in s.threads && Started(s);
      var bytes := PcOf(s, t).bytes;
      FeedAllTracks(s.monitor.value, s.history, bytes);
      var s' := Next(s, Observe(t));
      assert Started(s') && Tracks(s'.monitor.value, s'.history);
      if !s.flag {
        HealthyGoesOn(s.history, bytes);
        if FeedAll(s.monitor.value, bytes).verdict.Failed? {
          assert s'.threads[t] == Tripped;
        }
      }
    }
  }

  lemma NextKeepsInv(s: State, a: Action)
    requires Inv(s)
    ensures Inv(Next(s, a))
  {
    hide HealthyStream, Tracks, FeedAll, JudgeAll;
    match a {
      case Enter(t, bytes) => OtherStep(s, a);
      case Force(startup) => ForceKeepsInv(s, startup);
      case Recheck(t) => OtherStep(s, a);
      case Observe(t) => ObserveKeepsInv(s, t);
      case SetFlag(t) =>
    }
  }

  lemma OtherStep(s: State, a: Action)
    requires Inv(s) && (a.Enter? || a.Recheck?)
    ensures Inv(Next(s, a))
  {
    hide HealthyHistory, Tracks, FeedAll, JudgeAll;
    var s' := Next(s, a);
    assert s'.monitor == s.monitor && s'.history == s.history && s'.flag == s.flag;
    if !LockFree(s) {
      var t :| t in s.threads && s.threads[t] == Tripped;
      assert s'.threads[t] == Tripped;
    }
  }

  lemma {:induction false} RunKeepsInv(actions: seq<Action>)
    ensures Inv(Run(INITIAL, actions))
  {
    hide HealthyHistory, Tracks, Next;
    if actions != [] {
      RunKeepsInv(actions[..|actions| - 1]);
      NextKeepsInv(Run(INITIAL, actions[..|actions| - 1]), actions[|actions| - 1]);
    }
  }

  /** In every interleaving, as long as no test has failed, everything observed since startup is a
      healthy stream. */
  lemma HealthyUntilLatched(actions: seq<Action>)
    ensures var s := Run(INITIAL, actions);
            !s.flag && LockFree(s) && s.monitor.Some? ==> HealthyHistory(s.history)
  {
    RunKeepsInv(actions);
  }

  // ---------------------------------------------------------------------------
  // After the latch
  // ---------------------------------------------------------------------------

  /** Since state `s0`, in which the flag was set, only callers that were ready then have got bytes
      through, each at most once. */
  ghost predicate OnlyReadyPassed(s0: State, s: State) {
    && s.flag
    && s0.events <= s.events
    && (forall t | PcOf(s, t).Ready? :: PcOf(s0, t) == PcOf(s, t) && NotPassedSince(s0, s, t))
    && (forall i | |s0.events| <= i < |s.events| && s.events[i].Passed? ::
          PcOf(s0, s.events[i].thread) == Ready(s.events[i].bytes))
    && (forall i, j | |s0.events| <= i < j < |s.events| && s.events[i].Passed? && s.events[j].Passed? ::
          s.events[i].thread != s.events[j].thread)
  }

  ghost predicate NotPassedSince(s0: State, s: State, t: nat) {
    forall i | |s0.events| <= i < |s.events| :: !(s.events[i].Passed? && s.events[i].thread == t)
  }

  lemma LatchedStep(s0: State, s: State, a: Action)
    requires Sized(s) && OnlyReadyPassed(s0, s)
    ensures OnlyReadyPassed(s0, Next(s, a))
  {
    hide FeedAll, Startup;
    var s' := Next(s, a);
    if a.Observe? && s' != s {
      assert PcOf(s, a.thread).Ready?;
    }
    forall t | PcOf(s', t).Ready?
      ensures PcOf(s0, t) == PcOf(s', t) && NotPassedSince(s0, s', t)
    {
      assert PcOf(s, t).Ready?;
    }
  }

  /** Once the flag is set it stays set, and bytes get through only for callers that had found it
      clear for the second time before; if there is none, nothing passes any more. */
  lemma {:induction false} LatchHolds(s0: State, actions: seq<Action>)
    requires Sized(s0) && s0.flag
    ensures OnlyReadyPassed(s0, Run(s0, actions))
    ensures (forall t :: !PcOf(s0, t).Ready?) ==>
              var s := Run(s0, actions);
              forall i | |s0.events| <= i < |s.events| :: !s.events[i].Passed?
  {
    if actions != [] {
      LatchHolds(s0, actions[..|actions| - 1]);
      LatchedStep(s0, Run(s0, actions[..|actions| - 1]), actions[|actions| - 1]);
    }
  }

  /** Exactly what becomes of a caller that is ready, before the latch or after it, in every
      interleaving. Its bytes pass if none of them, behind all that the tests were given so far, is at
      a rejected position. Behind a window that failed on its 1024th sample it panics, unless the
      repetition test refuses its first byte. Otherwise it finds a failure of its own. */
  lemma ReadyPassesExactly(actions: seq<Action>, t: nat)
    requires var s := Run(INITIAL, actions); PcOf(s, t).Ready? && LockFree(s)
    ensures var s := Run(INITIAL, actions);
            var bytes, h := PcOf(s, t).bytes, s.history;
            var s' := Next(s, Observe(t));
            var passes := bytes == [] || (!Jammed(h.windowed) && Clean(h, bytes));
            var panics := bytes != [] && Jammed(h.windowed) && !RepeatedAt(h.tested + bytes, |h.tested|);
            && (s'.events == s.events + [Passed(t, bytes)] <==> passes)
            && (s'.events == s.events + [Panicked(t)] <==> panics)
            && (PcOf(s', t) == Tripped <==> !passes && !panics)
  {
    hide Run, Clean, Jammed, RepeatedAt, Tracks, FeedAll, JudgeAll;
    RunKeepsInv(actions);
    var s := Run(INITIAL, actions);
    assert t in s.threads && Started(s);
    FeedAllTracks(s.monitor.value, s.history, PcOf(s, t).bytes);
    JudgeAllMeaning(s.history, PcOf(s, t).bytes);
    assert s.events + [Passed(t, PcOf(s, t).bytes)] != s.events + [Panicked(t)] by {
      assert (s.events + [Panicked(t)])[|s.events|].Panicked?;
    }
  }

  /** After a failure of the proportion test nothing but empty strings passes any more, whoever is
      ready. */
  lemma {:induction false} BiasIsFinal(actions: seq<Action>, more: seq<Action>)
    requires Spent(Run(INITIAL, actions).history.windowed)
    ensures var s0, s := Run(INITIAL, actions), Run(INITIAL, actions + more);
            && Spent(s.history.windowed) && s0.events <= s.events
            && forall i | |s0.events| <= i < |s.events| && s.events[i].Passed? :: s.events[i].bytes == []
  {
    hide Spent, Next, Run;
    if more == [] {
      assert actions + more == actions;
    } else {
      var n := |more| - 1;
      BiasIsFinal(actions, more[..n]);
      assert actions + more == (actions + more[..n]) + [more[n]];
      RunMore(INITIAL, actions + more[..n], more[n]);
      RunKeepsInv(actions + more[..n]);
      SpentNext(Run(INITIAL, actions + more[..n]), more[n]);
    }
  }

  lemma SpentNext(s: State, a: Action)
    requires Inv(s) && Spent(s.history.windowed)
    ensures Spent(Next(s, a).history.windowed)
    ensures var s' := Next(s, a);
            s'.events == s.events
            || (|s'.events| == |s.events| + 1 && s.events <= s'.events
                && (s'.events[|s.events|].Passed? ==> s'.events[|s.events|].bytes == []))
  {
    hide Spent, Tracks, FeedAll, JudgeAll, HealthyHistory;
    if a.Observe? && PcOf(s, a.thread).Ready? && LockFree(s) && s.monitor.Some? {
      assert a.thread in s.threads && Started(s);
      FeedAllTracks(s.monitor.value, s.history, PcOf(s, a.thread).bytes);
      SpentForGood(s.history, PcOf(s, a.thread).bytes);
    } else if a.Force? {
      Unspent(s);
    }
  }

  /** Nothing is spent before the monitor exists. */
  lemma Unspent(s: State)
    requires Inv(s) && Spent(s.history.windowed)
    ensures s.monitor.Some?
  {
  }

  lemma RunMore(s: State, actions: seq<Action>, a: Action)
    requires Sized(s)
    ensures Run(s, actions + [a]) == Next(Run(s, actions), a)
  {
    assert (actions + [a])[..|actions|] == actions;
  }

  // ---------------------------------------------------------------------------
  // Callers that come after the latch
  // ---------------------------------------------------------------------------

  /** Two callers find the flag clear twice. */
  function BothReady(bad: seq<byte>, good: seq<byte>, startup: seq<byte>): seq<Action> {
    [Enter(1, bad)] + [Enter(2, good)] + [Force(startup)] + [Recheck(1)] + [Recheck(2)]
  }

  lemma BothReadyOutcome(bad: seq<byte>, good: seq<byte>, startup: seq<byte>)
    requires |startup| == STARTUP_SAMPLES && Startup(Fresh(), startup).verdict == Healthy
    ensures Run(INITIAL, BothReady(bad, good, startup)) ==
            State(false, Some(Startup(Fresh(), startup).monitor), map[1 := Ready(bad), 2 := Ready(good)], [],
                  JudgeAll(NONE, startup).history)
  {
    hide FeedBytes, Startup, Fresh, Run, JudgeAll;
    assert Run(INITIAL, [Enter(1, bad)]) == Next(INITIAL, Enter(1, bad)) by {
      RunOne(INITIAL, Enter(1, bad));
    }
    RunMore(INITIAL, [Enter(1, bad)], Enter(2, good));
    var entered := [Enter(1, bad)] + [Enter(2, good)];
    RunMore(INITIAL, entered, Force(startup));
    RunMore(INITIAL, entered + [Force(startup)], Recheck(1));
    RunMore(INITIAL, entered + [Force(startup)] + [Recheck(1)], Recheck(2));
  }

  lemma RunOne(s: State, a: Action)
    requires Sized(s)
    ensures Run(s, [a]) == Next(s, a)
  {
    assert [a][..0] == [];
  }

  lemma HealthyStartup(startup: seq<byte>)
    requires |startup| == STARTUP_SAMPLES && HealthyStream(startup)
    ensures Startup(Fresh(), startup).verdict == Healthy
  {
    hide HealthyStream, Tracks, FeedAll, Fresh;
    assert startup[..STARTUP_SAMPLES] == startup;
    ResetTracks(Fresh());
    AcceptsExactly(Reset(Fresh()), startup);
  }

  /** Then the first caller's bytes fail and set the flag. */
  function Race(bad: seq<byte>, good: seq<byte>, startup: seq<byte>): seq<Action> {
    BothReady(bad, good, startup) + [Observe(1)] + [SetFlag(1)]
  }

  lemma RaceOutcome(bad: seq<byte>, good: seq<byte>, startup: seq<byte>)
    requires |startup| == STARTUP_SAMPLES && HealthyStream(startup)
    requires JudgeAll(History(startup, startup), bad).verdict == Failed
    ensures var s := Run(INITIAL, Race(bad, good, startup));
            && s.flag && LockFree(s) && PcOf(s, 2) == Ready(good)
            && s.history == JudgeAll(History(startup, startup), bad).history
  {
    hide Fresh, Run, BothReady, JudgeAll, HealthyStream, Tracks, FeedAll;
    var ready := BothReady(bad, good, startup);
    HealthyStartup(startup);
    BothReadyOutcome(bad, good, startup);
    FromNothing(startup);
    RunKeepsInv(ready);
    var s := Run(INITIAL, ready);
    assert 1 in s.threads && Started(s);
    FeedAllTracks(s.monitor.value, s.history, bad);
    RunMore(INITIAL, ready, Observe(1));
    RunMore(INITIAL, ready + [Observe(1)], SetFlag(1));
  }

  /** A stream with no two equal neighbours and a first byte that does not come back. */
  function Restless(n: nat): (s: seq<byte>)
    ensures |s| == n && forall i | 0 <= i < n :: s[i] == if i == 0 then 0 else 1 + i % 2
  {
    seq(n, i => if i == 0 then 0 else 1 + i % 2)
  }

  lemma CountAbsent(s: seq<byte>, v: byte)
    requires v !in s
    ensures multiset(s)[v] == 0
  {
  }

  lemma CountWithin(s: seq<byte>, v: byte)
    ensures multiset(s)[v] <= |s|
  {
    assert multiset(s)[v] <= |multiset(s)|;
  }

  lemma RestlessAccepted(s: seq<byte>, k: nat)
    requires k < STARTUP_SAMPLES <= |s| && s[..STARTUP_SAMPLES] == Restless(STARTUP_SAMPLES)
    ensures !RejectedAt(s, k)
  {
    hide Restless;
    var start := s[..STARTUP_SAMPLES];
    assert forall i | 0 <= i < STARTUP_SAMPLES :: s[i] == start[i];
    if k > 0 {
      assert s[k] != s[k - 1];
    }
    var rest := s[1..k + 1];
    assert s[WindowStart(k)..k + 1] == [0] + rest;
    assert 0 !in rest;
    CountAbsent(rest, 0);
    assert multiset([0] + rest)[0] == 1 + multiset(rest)[0];
  }

  /** Bytes behind the restless startup, before the window they open is full. */
  lemma SecondWindow(xs: seq<byte>, k: nat)
    requires k < |xs| <= ADAPTIVE_PROPORTION_WINDOW
    ensures var s := Restless(STARTUP_SAMPLES) + xs;
            && WindowStart(STARTUP_SAMPLES + k) == STARTUP_SAMPLES
            && (BiasedAt(s, STARTUP_SAMPLES + k) <==> ADAPTIVE_PROPORTION_CUTOFF <= multiset(xs[..k + 1])[xs[0]])
  {
    hide Restless;
    var s := Restless(STARTUP_SAMPLES) + xs;
    assert s[STARTUP_SAMPLES..STARTUP_SAMPLES + k + 1] == xs[..k + 1];
    assert s[STARTUP_SAMPLES] == xs[0];
  }

  /** Byte k of xs, behind the restless startup, keeps both tests content. */
  ghost predicate Fits(xs: seq<byte>, k: nat)
    requires k < |xs|
  {
    && !RepeatedAt(Restless(STARTUP_SAMPLES) + xs, STARTUP_SAMPLES + k)
    && multiset(xs[..k + 1])[xs[0]] < ADAPTIVE_PROPORTION_CUTOFF
  }

  lemma RestlessThen(xs: seq<byte>)
    requires |xs| <= ADAPTIVE_PROPORTION_WINDOW
    requires forall k | 0 <= k < |xs| :: Fits(xs, k)
    ensures HealthyStream(Restless(STARTUP_SAMPLES) + xs)
  {
    hide Restless, RepeatedAt, BiasedAt;
    var s := Restless(STARTUP_SAMPLES) + xs;
    assert s[..STARTUP_SAMPLES] == Restless(STARTUP_SAMPLES);
    forall k | 0 <= k < |s|
      ensures !RejectedAt(s, k)
    {
      if k < STARTUP_SAMPLES {
        RestlessAccepted(s, k);
      } else {
        SecondWindow(xs, k - STARTUP_SAMPLES);
        assert Fits(xs, k - STARTUP_SAMPLES);
      }
    }
  }

  lemma RestlessHealthy()
    ensures HealthyStream(Restless(STARTUP_SAMPLES))
  {
    hide Restless, RepeatedAt;
    RestlessThen([]);
    assert Restless(STARTUP_SAMPLES) + [] == Restless(STARTUP_SAMPLES);
  }

  function Stuck(n: nat): (s: seq<byte>)
    ensures |s| == n && forall i | 0 <= i < n :: s[i] == 7
  {
    seq(n, _ => 7)
  }

  lemma StuckHealthy()
    ensures HealthyStream(Restless(STARTUP_SAMPLES) + Stuck(40))
  {
    hide Restless, Stuck;
    var xs := Stuck(40);
    var s := Restless(STARTUP_SAMPLES) + xs;
    forall k | 0 <= k < |xs|
      ensures Fits(xs, k)
    {
      assert s[STARTUP_SAMPLES + k] == 7 && s[STARTUP_SAMPLES + k + 1 - REPETITION_COUNT_CUTOFF] != 7;
      CountWithin(xs[..k + 1], xs[0]);
    }
    RestlessThen(xs);
  }

  /** The 41st repetition of 7 is refused, and does not reach the proportion test. */
  lemma StuckFails()
    ensures var start := Restless(STARTUP_SAMPLES);
            JudgeAll(History(start, start), Stuck(41))
            == Judgement(History(start + Stuck(41), start + Stuck(40)), Failed)
  {
    hide Restless, Stuck, JudgeAll, HealthyStream, BiasedAt, Clean, Jammed;
    var start := Restless(STARTUP_SAMPLES);
    var h := History(start, start);
    RestlessHealthy();
    StuckHealthy();
    CleanIsHealthy(h, Stuck(40));
    assert Stuck(41)[..40] == Stuck(40) && Stuck(41)[..41] == Stuck(41);
    CleanPrefix(h, Stuck(41));
    assert RepeatedAt(start + Stuck(41), STARTUP_SAMPLES + 40);
    FirstFailure(h, Stuck(41), 40);
  }

  lemma EightFits()
    ensures var start := Restless(STARTUP_SAMPLES);
            var h := History(start + Stuck(41), start + Stuck(40));
            !Jammed(h.windowed) && Clean(h, [8])
  {
    hide Restless, Stuck;
    var start := Restless(STARTUP_SAMPLES);
    var r, w := start + Stuck(41) + [8], start + Stuck(40) + [8];
    assert r[STARTUP_SAMPLES + 41] == 8 && r[STARTUP_SAMPLES + 40] == 7;
    assert w == start + (Stuck(40) + [8]);
    SecondWindow(Stuck(40) + [8], 40);
    CountWithin((Stuck(40) + [8])[..41], 7);
  }

  /** Byte 8 gets through after the latch: caller 2 found the flag clear twice before caller 1
      saw the 41st repetition. */
  lemma LateCallerPasses()
    ensures var s := Run(INITIAL, Race(Stuck(41), [8], Restless(STARTUP_SAMPLES)));
            s.flag && Next(s, Observe(2)).events == s.events + [Passed(2, [8])]
  {
    hide Restless, Stuck, Run, Race, Next, JudgeAll, HealthyStream, Clean, Jammed, RepeatedAt;
    RestlessHealthy();
    StuckFails();
    RaceOutcome(Stuck(41), [8], Restless(STARTUP_SAMPLES));
    EightFits();
    ReadyPassesExactly(Race(Stuck(41), [8], Restless(STARTUP_SAMPLES)), 2);
  }

  // A window that fails on its 1024th sample.

  /** 7, 7, 8, over and over. */
  function Triples(n: nat): (s: seq<byte>)
    ensures |s| == 3 * n && multiset(s)[7] == 2 * n
    ensures forall i | 0 <= i < 3 * n :: s[i] == if i % 3 == 2 then 8 else 7
  {
    if n == 0 then [] else Triples(n - 1) + [7, 7, 8]
  }

  /** 8, 9, over and over. */
  function Pairs(n: nat): (s: seq<byte>)
    ensures |s| == n && forall i | 0 <= i < n :: s[i] == 8 + i % 2
  {
    seq(n, i => 8 + i % 2)
  }

  /** 1023 samples with 669 sevens. */
  function Almost(): (s: seq<byte>)
    ensures |s| == 1023 && multiset(s)[7] == 669 && s[0] == 7
  {
    var tail := Pairs(20);
    CountAbsent(tail, 7);
    var sevens := Triples(334) + [7];
    assert multiset(sevens + tail) == multiset(sevens) + multiset(tail);
    sevens + tail
  }

  /** Within any three neighbours there are two different samples. */
  lemma AlmostVaries(k: nat)
    requires k < 1024
    ensures var xs := Almost() + [7];
            && xs[k] > 2 && (k >= 2 ==> xs[k] != xs[k - 1] || xs[k] != xs[k - 2])
  {
    hide Triples, Pairs;
    var xs := Almost() + [7];
    assert xs == Triples(334) + ([7] + Pairs(20) + [7]);
  }

  lemma AlmostRestless(xs: seq<byte>, k: nat)
    requires xs <= Almost() + [7] && k < |xs|
    ensures !RepeatedAt(Restless(STARTUP_SAMPLES) + xs, STARTUP_SAMPLES + k)
  {
    hide Restless, Almost;
    var s, p := Restless(STARTUP_SAMPLES) + xs, STARTUP_SAMPLES + k;
    AlmostVaries(k);
    assert s[p] == (Almost() + [7])[k];
    if k >= 2 {
      assert s[p - 1] == (Almost() + [7])[k - 1] && s[p - 2] == (Almost() + [7])[k - 2];
    } else {
      assert s[STARTUP_SAMPLES - 1] != s[p];
    }
  }

  lemma PrefixCount(xs: seq<byte>, n: nat, v: byte)
    requires n <= |xs|
    ensures multiset(xs[..n])[v] <= multiset(xs)[v]
  {
    assert xs == xs[..n] + xs[n..];
    assert multiset(xs) == multiset(xs[..n]) + multiset(xs[n..]);
  }

  lemma AlmostHealthy()
    ensures HealthyStream(Restless(STARTUP_SAMPLES) + Almost())
  {
    hide Restless, Almost, RepeatedAt;
    forall k | 0 <= k < |Almost()|
      ensures Fits(Almost(), k)
    {
      AlmostRestless(Almost(), k);
      PrefixCount(Almost(), k + 1, 7);
    }
    RestlessThen(Almost());
  }

  /** The 1024th sample makes the window fail, and jams it. */
  lemma LastSampleJams()
    ensures var start, xs := Restless(STARTUP_SAMPLES), Almost() + [7];
            && JudgeAll(History(start, start), xs) == Judgement(History(start + xs, start + xs), Failed)
            && Jammed(start + xs)
  {
    hide Restless, Almost, JudgeAll, HealthyStream, BiasedAt, Clean, RepeatedAt;
    var start, xs := Restless(STARTUP_SAMPLES), Almost() + [7];
    var h := History(start, start);
    RestlessHealthy();
    AlmostHealthy();
    CleanIsHealthy(h, Almost());
    assert xs[..1023] == Almost() && xs[..1024] == xs;
    CleanPrefix(h, xs);
    SecondWindow(xs, 1023);
    assert multiset(xs) == multiset(Almost()) + multiset{7};
    AlmostRestless(xs, 1023);
    FirstFailure(h, xs, 1023);
    assert Filled(|start + xs|) == 0;
  }

  /** A caller that is ready when a window fails on its last sample panics after the latch. */
  lemma LateCallerPanics()
    ensures var s := Run(INITIAL, Race(Almost() + [7], [8], Restless(STARTUP_SAMPLES)));
            s.flag && Next(s, Observe(2)).events == s.events + [Panicked(2)]
  {
    hide Restless, Almost, Run, Race, Next, JudgeAll, HealthyStream, Clean, Jammed;
    var start, xs := Restless(STARTUP_SAMPLES), Almost() + [7];
    RestlessHealthy();
    LastSampleJams();
    RaceOutcome(xs, [8], start);
    var r := start + xs + [8];
    assert r[|start + xs|] == 8 && r[|start + xs| - 1] == 7;
    ReadyPassesExactly(Race(xs, [8], start), 2);
  }
}
