/** Per-session and global rate limits over any interleaving of checks and closed sessions. */
module RateLimiter {
  import opened Base
  import opened TokenBucket

  const MAX_SESSION_BUCKETS := 10_000

  /** Operations per second; zero switches a limit off. */
  datatype Config = Config(perSession: nat, global: nat)

  datatype Limiter = Limiter(sessions: map<nat, Bucket>, global: Option<Bucket>)

  function NewLimiter(c: Config, now: nat): Limiter {
    Limiter(map[], if c.global > 0 then Some(NewBucket(c.global, now)) else None)
  }

  /** The bucket a check on this session uses. */
  function SessionBucket(c: Config, l: Limiter, session: nat, now: nat): Bucket {
    if session in l.sessions then l.sessions[session] else NewBucket(c.perSession, now)
  }

  predicate NoRoom(l: Limiter, session: nat) {
    session !in l.sessions && |l.sessions| >= MAX_SESSION_BUCKETS
  }

  predicate SessionGrants(c: Config, l: Limiter, session: nat, now: nat) {
    c.perSession == 0 || (!NoRoom(l, session) && Grants(SessionBucket(c, l, session, now), now))
  }

  predicate GlobalGrants(l: Limiter, now: nat) {
    l.global.None? || Grants(l.global.value, now)
  }

  predicate Allows(c: Config, l: Limiter, session: nat, now: nat) {
    SessionGrants(c, l, session, now) && GlobalGrants(l, now)
  }

  function AfterCheck(c: Config, l: Limiter, session: nat, now: nat): Limiter {
    Limiter(
      if c.perSession == 0 || NoRoom(l, session) then l.sessions
      else l.sessions[session := Consume(SessionBucket(c, l, session, now), now)],
      if SessionGrants(c, l, session, now) && l.global.Some? then Some(Consume(l.global.value, now)) else l.global)
  }

  class RateLimiter {
    const config: Config
    var sessions: map<nat, Bucket>
    var global: Option<Bucket>

    function Value(): Limiter
      reads this
    {
      Limiter(sessions, global)
    }

    /** There is a global bucket exactly if that limit is set. */
    ghost predicate Valid()
      reads this
    {
      global.Some? == (config.global > 0)
    }

    constructor (c: Config, now: nat)
      ensures Valid() && config == c && Value() == NewLimiter(c, now)
    {
      config := c;
      sessions := map[];
      global := if c.global > 0 then Some(NewBucket(c.global, now)) else None;
    }

    method CheckRate(session: nat, now: nat) returns (r: Result<(), HsmError>)
      requires Valid()
      modifies this
      ensures Valid()
      ensures r == if Allows(config, old(Value()), session, now) then Ok(()) else Err(GeneralError)
      ensures Value() == AfterCheck(config, old(Value()), session, now)
    {
      if config.perSession > 0 {
        if session !in sessions && |sessions| >= MAX_SESSION_BUCKETS {
          return Err(GeneralError);
        }
        var bucket := if session in sessions then sessions[session] else NewBucket(config.perSession, now);
        sessions := sessions[session := Consume(bucket, now)];
        if !Grants(bucket, now) {
          return Err(GeneralError);
        }
      }
      if config.global > 0 {
        match global {
          case None =>
          case Some(bucket) =>
            global := Some(Consume(bucket, now));
            if !Grants(bucket, now) {
              return Err(GeneralError);
            }
        }
      }
      return Ok(());
    }

    method RemoveSession(session: nat)
      requires Valid()
      modifies this
      ensures Valid()
      ensures Value() == old(Value()).(sessions := old(sessions) - {session})
    {
      sessions := sessions - {session};
    }
  }

  // ---------------------------------------------------------------------------
  // Concurrent checks
  // ---------------------------------------------------------------------------

  /** A check has found room for its session's bucket, or has been granted by it and has the global
      bucket before it. */
  datatype Pc = Idle | Roomy(session: nat) | Charged(session: nat)

  datatype System = System(limiter: Limiter, threads: map<nat, Pc>)

  /** The three critical sections of a check, and the closing of a session. */
  datatype Action =
    | Enter(time: nat, thread: nat, session: nat)
    | Charge(time: nat, thread: nat)
    | Settle(time: nat, thread: nat)
    | Remove(time: nat, session: nat)

  function PcOf(x: System, t: nat): Pc {
    if t in x.threads then x.threads[t] else Idle
  }

  function Goto(x: System, t: nat, pc: Pc): System {
    x.(threads := x.threads[t := pc])
  }

  /** One critical section; impossible actions change nothing. */
  function Next(c: Config, x: System, a: Action): System {
    var l := x.limiter;
    match a
    case Enter(_, t, session) =>
      if !PcOf(x, t).Idle? then x
      else if c.perSession == 0 then Goto(x, t, Charged(session))
      else if NoRoom(l, session) then x
      else Goto(x, t, Roomy(session))
    case Charge(now, t) =>
      if !PcOf(x, t).Roomy? then x
      else
        var session := PcOf(x, t).session;
        var b := SessionBucket(c, l, session, now);
        Goto(x.(limiter := l.(sessions := l.sessions[session := Consume(b, now)])), t,
             if Grants(b, now) then Charged(session) else Idle)
    case Settle(now, t) =>
      if !PcOf(x, t).Charged? then x
      else
        Goto(x.(limiter := l.(global := if l.global.Some? then Some(Consume(l.global.value, now)) else None)), t, Idle)
    case Remove(_, session) => x.(limiter := l.(sessions := l.sessions - {session}))
  }

  function Run(c: Config, created: nat, actions: seq<Action>): System {
    if actions == [] then System(NewLimiter(c, created), map[])
    else Next(c, Run(c, created, actions[..|actions| - 1]), actions[|actions| - 1])
  }

  /** A check that nothing interrupts is the one of `CheckRate`. */
  lemma CheckIsThreeSteps(c: Config, x: System, t: nat, session: nat, now: nat)
    requires PcOf(x, t).Idle? && x.limiter.global.Some? == (c.global > 0)
    ensures var x1 := Next(c, x, Enter(now, t, session));
            var x2 := Next(c, x1, Charge(now, t));
            var x3 := Next(c, x2, Settle(now, t));
            && x3.limiter == AfterCheck(c, x.limiter, session, now) && PcOf(x3, t).Idle?
            && (Counts(c, x2, Settle(now, t), AllowedAny) <==> Allows(c, x.limiter, session, now))
  {
    hide Grants, Consume, NewBucket;
  }

  /** What to count in a run: operations allowed, of all sessions or of one, or granted by a session's
      bucket. */
  datatype Kind = AllowedAny | AllowedOf(session: nat) | ChargedOf(session: nat)

  predicate Counts(c: Config, x: System, a: Action, kind: Kind) {
    match kind
    case AllowedAny => a.Settle? && PcOf(x, a.thread).Charged? && GlobalGrants(x.limiter, a.time)
    case AllowedOf(s) => a.Settle? && PcOf(x, a.thread) == Charged(s) && GlobalGrants(x.limiter, a.time)
    case ChargedOf(s) =>
      a.Charge? && PcOf(x, a.thread) == Roomy(s) && Grants(SessionBucket(c, x.limiter, s, a.time), a.time)
  }

  function CountFrom(c: Config, created: nat, actions: seq<Action>, i: nat, kind: Kind): nat {
    if |actions| <= i then 0
    else
      var before := actions[..|actions| - 1];
      CountFrom(c, created, before, i, kind)
      + if Counts(c, Run(c, created, before), actions[|actions| - 1], kind) then 1 else 0
  }

  ghost predicate Ordered(created: nat, actions: seq<Action>) {
    && (forall k | 0 <= k < |actions| :: created <= actions[k].time)
    && (forall k, l | 0 <= k < l < |actions| :: actions[k].time <= actions[l].time)
  }

  ghost predicate BucketOk(b: Bucket, ops: nat, now: nat) {
    && b.Valid() && b.lastRefill <= now
    && b.rate == NewBucket(ops, 0).rate && b.capacity == NewBucket(ops, 0).capacity
  }

  ghost predicate Inv(c: Config, x: System, now: nat) {
    && (forall s | s in x.limiter.sessions :: BucketOk(x.limiter.sessions[s], c.perSession, now))
    && x.limiter.global.Some? == (c.global > 0)
    && (x.limiter.global.Some? ==> BucketOk(x.limiter.global.value, c.global, now))
    && (forall t | t in x.threads && x.threads[t].Roomy? :: c.perSession > 0)
  }

  lemma NextKeepsInv(c: Config, x: System, a: Action, now: nat)
    requires Inv(c, x, now) && now <= a.time
    ensures Inv(c, Next(c, x, a), a.time)
  {
    hide Refilled;
  }

  function LastTime(created: nat, actions: seq<Action>): nat {
    if actions == [] then created else actions[|actions| - 1].time
  }

  /** In every interleaving each bucket keeps its rate and capacity. */
  lemma {:induction false} RunKeepsInv(c: Config, created: nat, actions: seq<Action>)
    requires Ordered(created, actions)
    ensures Inv(c, Run(c, created, actions), LastTime(created, actions))
  {
    if actions != [] {
      hide Next;
      var n := |actions| - 1;
      RunKeepsInv(c, created, actions[..n]);
      NextKeepsInv(c, Run(c, created, actions[..n]), actions[n], LastTime(created, actions[..n]));
    }
  }

  // ---------------------------------------------------------------------------
  // How many sessions have a bucket
  // ---------------------------------------------------------------------------

  /** The sessions whose checks have found room and not yet used it. */
  function Waiting(threads: map<nat, Pc>): set<nat> {
    set t | t in threads && threads[t].Roomy? :: threads[t].session
  }

  predicate Below(threads: map<nat, Pc>, n: nat) {
    forall t | t in threads :: t < n
  }

  lemma {:induction false} WaitingSize(threads: map<nat, Pc>, n: nat)
    requires Below(threads, n)
    ensures |Waiting(threads)| <= n
  {
    if n == 0 {
      assert Waiting(threads) == {};
    } else {
      var t := n - 1;
      var rest := threads - {t};
      WaitingSize(rest, t);
      var here: set<nat> := if t in threads && threads[t].Roomy? then {threads[t].session} else {};
      forall s | s in Waiting(threads)
        ensures s in Waiting(rest) + here
      {
        var u :| u in threads && threads[u].Roomy? && threads[u].session == s;
        assert u != t ==> u in rest && rest[u] == threads[u];
      }
      SubsetSize(Waiting(threads), Waiting(rest) + here);
    }
  }

  /** With n threads at most n - 1 sessions more than the limit have a bucket or are about to. */
  ghost predicate RoomOk(x: System, n: nat) {
    && Below(x.threads, n)
    && |x.limiter.sessions.Keys + Waiting(x.threads)| <= MAX_SESSION_BUCKETS - 1 + n
  }

  predicate ThreadBelow(a: Action, n: nat) {
    a.Remove? || a.thread < n
  }

  lemma WaitingMoves(threads: map<nat, Pc>, t: nat, pc: Pc)
    ensures Waiting(threads[t := pc]) <= Waiting(threads) + if pc.Roomy? then {pc.session} else {}
  {
    var more := threads[t := pc];
    forall s | s in Waiting(more)
      ensures s in Waiting(threads) + if pc.Roomy? then {pc.session} else {}
    {
      var u :| u in more && more[u].Roomy? && more[u].session == s;
      assert u != t ==> u in threads && threads[u] == more[u];
    }
  }

  lemma NextKeepsRoom(c: Config, x: System, a: Action, n: nat)
    requires RoomOk(x, n) && ThreadBelow(a, n)
    ensures RoomOk(Next(c, x, a), n)
  {
    hide Consume, Grants, NewBucket;
    var x' := Next(c, x, a);
    if !a.Remove? && x' != x {
      WaitingMoves(x.threads, a.thread, PcOf(x', a.thread));
    }
    var before, after := x.limiter.sessions.Keys + Waiting(x.threads), x'.limiter.sessions.Keys + Waiting(x'.threads);
    if a.Enter? && PcOf(x', a.thread).Roomy? && a.session !in x.limiter.sessions && x' != x {
      WaitingSize(x'.threads, n);
      UnionSize(x.limiter.sessions.Keys, Waiting(x'.threads));
      assert |x.limiter.sessions.Keys| == |x.limiter.sessions|;
    } else {
      if a.Charge? && x' != x {
        assert PcOf(x, a.thread).session in Waiting(x.threads);
      }
      assert after <= before;
      SubsetSize(after, before);
    }
  }

  lemma UnionSize(a: set<nat>, b: set<nat>)
    ensures |a + b| <= |a| + |b|
  {
    assert |a + b| == |a| + |b - a|;
    SubsetSize(b - a, b);
  }

  /** In every interleaving of n threads at most 10,000 + n - 1 sessions have a bucket: the test for room
      and the insertion are two steps. */
  lemma {:induction false} SessionsBounded(c: Config, created: nat, actions: seq<Action>, n: nat)
    requires 0 < n && forall k | 0 <= k < |actions| :: ThreadBelow(actions[k], n)
    ensures RoomOk(Run(c, created, actions), n)
    ensures |Run(c, created, actions).limiter.sessions| <= MAX_SESSION_BUCKETS - 1 + n
  {
    hide Next;
    if actions != [] {
      SessionsBounded(c, created, actions[..|actions| - 1], n);
      NextKeepsRoom(c, Run(c, created, actions[..|actions| - 1]), actions[|actions| - 1], n);
    } else {
      assert Waiting(map[]) == {};
    }
    var x := Run(c, created, actions);
    SubsetSize(x.limiter.sessions.Keys, x.limiter.sessions.Keys + Waiting(x.threads));
    assert |x.limiter.sessions.Keys| == |x.limiter.sessions|;
  }

  lemma UpdateSize(m: map<nat, Bucket>, s: nat, b: Bucket)
    ensures |m[s := b]| == if s in m then |m| else |m| + 1
  {
    var m' := m[s := b];
    assert m'.Keys == m.Keys + {s};
    assert |m'.Keys| == |m'| && |m.Keys| == |m|;
  }

  /** The bound is attained: two threads that find the last place free both take it. */
  lemma TwoTakeTheLastPlace(c: Config, x: System, s: nat, r: nat, now: nat)
    requires c.perSession > 0 && PcOf(x, 0).Idle? && PcOf(x, 1).Idle? && s != r
    requires s !in x.limiter.sessions && r !in x.limiter.sessions && |x.limiter.sessions| == MAX_SESSION_BUCKETS - 1
    ensures var x2 := Next(c, Next(c, x, Enter(now, 0, s)), Enter(now, 1, r));
            |Next(c, Next(c, x2, Charge(now, 0)), Charge(now, 1)).limiter.sessions| == MAX_SESSION_BUCKETS + 1
  {
    hide Consume, Grants;
    var m := x.limiter.sessions;
    var b := Consume(NewBucket(c.perSession, now), now);
    UpdateSize(m, s, b);
    UpdateSize(m[s := b], r, b);
  }

  // ---------------------------------------------------------------------------
  // Window bounds
  // ---------------------------------------------------------------------------

  lemma OpensWindow(b: Bucket, start: nat)
    requires b.Valid()
    ensures WithinWindow(b, start, 0)
  {
  }

  lemma WithinWindowBound(b: Bucket, start: nat, end: nat, granted: nat)
    requires WithinWindow(b, start, granted) && start <= end && b.lastRefill <= end
    ensures granted * MICROTOKENS_PER_OP <= b.capacity + Allowance(b.rate, start, end)
  {
    hide Allowance;
    if start <= b.lastRefill {
      AllowanceAdds(b.rate, start, b.lastRefill, end);
    }
  }

  lemma GlobalStep(c: Config, x: System, a: Action, now: nat, start: nat, granted: nat)
    requires Inv(c, x, now) && now <= a.time && c.global > 0 && start <= a.time
    requires WithinWindow(x.limiter.global.value, start, granted)
    ensures Next(c, x, a).limiter.global.Some?
    ensures WithinWindow(Next(c, x, a).limiter.global.value, start,
                         granted + if Counts(c, x, a, AllowedAny) then 1 else 0)
  {
    hide WithinWindow, Consume, Grants, NewBucket;
    ConsumeStaysWithin(x.limiter.global.value, a.time, start, granted);
  }

  lemma {:induction false} GlobalWithin(c: Config, created: nat, actions: seq<Action>, i: nat)
    requires Ordered(created, actions) && i < |actions| && c.global > 0
    ensures Run(c, created, actions).limiter.global.Some?
    ensures WithinWindow(Run(c, created, actions).limiter.global.value, actions[i].time,
                         CountFrom(c, created, actions, i, AllowedAny))
  {
    hide WithinWindow, Next, Counts;
    var n := |actions| - 1;
    var x := Run(c, created, actions[..n]);
    RunKeepsInv(c, created, actions[..n]);
    if i < n {
      GlobalWithin(c, created, actions[..n], i);
    } else {
      OpensWindow(x.limiter.global.value, actions[i].time);
    }
    GlobalStep(c, x, actions[n], LastTime(created, actions[..n]), actions[i].time,
               CountFrom(c, created, actions[..n], i, AllowedAny));
  }

  /** In every interleaving, between any two actions i <= j, all sessions together are allowed no more
      operations than the global bucket's capacity plus what its rate yields in that time. */
  lemma GlobalWindowBound(c: Config, created: nat, actions: seq<Action>, i: nat, j: nat)
    requires Ordered(created, actions) && i <= j < |actions| && c.global > 0
    ensures var b := NewBucket(c.global, 0);
            CountFrom(c, created, actions[..j + 1], i, AllowedAny) * MICROTOKENS_PER_OP
            <= b.capacity + Allowance(b.rate, actions[i].time, actions[j].time)
  {
    hide WithinWindow, Allowance;
    var run := actions[..j + 1];
    GlobalWithin(c, created, run, i);
    RunKeepsInv(c, created, run);
    WithinWindowBound(Run(c, created, run).limiter.global.value, actions[i].time, actions[j].time,
                      CountFrom(c, created, run, i, AllowedAny));
  }

  /** The bucket of `s`, if it has one, is within the window. */
  ghost predicate SessionWithin(l: Limiter, s: nat, start: nat, granted: nat) {
    if s in l.sessions then WithinWindow(l.sessions[s], start, granted) else granted == 0
  }

  lemma SessionStep(c: Config, x: System, a: Action, now: nat, s: nat, start: nat, granted: nat)
    requires Inv(c, x, now) && now <= a.time && start <= a.time
    requires SessionWithin(x.limiter, s, start, granted) && !(a.Remove? && a.session == s)
    ensures SessionWithin(Next(c, x, a).limiter, s, start, granted + if Counts(c, x, a, ChargedOf(s)) then 1 else 0)
  {
    hide WithinWindow, Consume, Grants, Refilled;
    if a.Charge? && PcOf(x, a.thread) == Roomy(s) {
      var b := SessionBucket(c, x.limiter, s, a.time);
      if s !in x.limiter.sessions {
        OpensWindow(b, start);
      }
      ConsumeStaysWithin(b, a.time, start, granted);
    }
  }

  predicate NotRemoved(actions: seq<Action>, i: nat, s: nat) {
    forall k | i <= k < |actions| :: !(actions[k].Remove? && actions[k].session == s)
  }

  lemma {:induction false} SessionStaysWithin(c: Config, created: nat, actions: seq<Action>, i: nat, s: nat)
    requires Ordered(created, actions) && i < |actions| && NotRemoved(actions, i, s)
    ensures SessionWithin(Run(c, created, actions).limiter, s, actions[i].time,
                          CountFrom(c, created, actions, i, ChargedOf(s)))
  {
    hide WithinWindow, Next, Counts;
    var n := |actions| - 1;
    var x := Run(c, created, actions[..n]);
    RunKeepsInv(c, created, actions[..n]);
    if i < n {
      SessionStaysWithin(c, created, actions[..n], i, s);
    } else if s in x.limiter.sessions {
      OpensWindow(x.limiter.sessions[s], actions[i].time);
    }
    SessionStep(c, x, actions[n], LastTime(created, actions[..n]), s, actions[i].time,
                CountFrom(c, created, actions[..n], i, ChargedOf(s)));
  }

  /** In every interleaving, between any two actions i <= j with the session not removed, its bucket
      grants no more operations than its capacity plus what the rate yields in that time. */
  lemma SessionChargeBound(c: Config, created: nat, actions: seq<Action>, i: nat, j: nat, s: nat)
    requires Ordered(created, actions) && i <= j < |actions| && NotRemoved(actions[..j + 1], i, s)
    ensures var b := NewBucket(c.perSession, 0);
            CountFrom(c, created, actions[..j + 1], i, ChargedOf(s)) * MICROTOKENS_PER_OP
            <= b.capacity + Allowance(b.rate, actions[i].time, actions[j].time)
  {
    hide WithinWindow, Allowance;
    var run := actions[..j + 1];
    SessionStaysWithin(c, created, run, i, s);
    RunKeepsInv(c, created, run);
    var l := Run(c, created, run).limiter;
    if s in l.sessions {
      WithinWindowBound(l.sessions[s], actions[i].time, actions[j].time, CountFrom(c, created, run, i, ChargedOf(s)));
    }
  }

  /** Threads that the session's bucket has granted an operation not yet settled. */
  function UnderWay(x: System, s: nat): set<nat> {
    set t | t in x.threads && x.threads[t] == Charged(s)
  }

  lemma UnderWayStep(c: Config, x: System, a: Action, s: nat)
    requires c.perSession > 0
    ensures |UnderWay(Next(c, x, a), s)| + (if Counts(c, x, a, AllowedOf(s)) then 1 else 0)
            <= |UnderWay(x, s)| + if Counts(c, x, a, ChargedOf(s)) then 1 else 0
  {
    hide Consume, Grants, NewBucket;
    var before, after := UnderWay(x, s), UnderWay(Next(c, x, a), s);
    if Counts(c, x, a, ChargedOf(s)) {
      assert after == before + {a.thread};
    } else if a.Settle? && PcOf(x, a.thread) == Charged(s) {
      assert a.thread in before && after == before - {a.thread};
    } else {
      assert after <= before;
      SubsetSize(after, before);
    }
  }

  lemma {:induction false} AllowedWereCharged(c: Config, created: nat, actions: seq<Action>, i: nat, s: nat)
    requires c.perSession > 0 && i <= |actions|
    ensures CountFrom(c, created, actions, i, AllowedOf(s)) + |UnderWay(Run(c, created, actions), s)|
            <= CountFrom(c, created, actions, i, ChargedOf(s)) + |UnderWay(Run(c, created, actions[..i]), s)|
  {
    hide Next, Counts;
    if i == |actions| {
      assert actions[..i] == actions;
    } else {
      var n := |actions| - 1;
      assert actions[..n][..i] == actions[..i];
      AllowedWereCharged(c, created, actions[..n], i, s);
      UnderWayStep(c, Run(c, created, actions[..n]), actions[n], s);
    }
  }

  /** So a session is allowed no more than that, and the operations it had under way at the start. */
  lemma SessionWindowBound(c: Config, created: nat, actions: seq<Action>, i: nat, j: nat, s: nat)
    requires Ordered(created, actions) && i <= j < |actions| && c.perSession > 0 && NotRemoved(actions[..j + 1], i, s)
    ensures var b := NewBucket(c.perSession, 0);
            (CountFrom(c, created, actions[..j + 1], i, AllowedOf(s)) - |UnderWay(Run(c, created, actions[..i]), s)|)
            * MICROTOKENS_PER_OP
            <= b.capacity + Allowance(b.rate, actions[i].time, actions[j].time)
  {
    hide Allowance;
    SessionChargeBound(c, created, actions, i, j, s);
    assert actions[..j + 1][..i] == actions[..i];
    AllowedWereCharged(c, created, actions[..j + 1], i, s);
  }

  /** A session that was closed and comes back is not held to what it used before: its limit grants the
      first check, exactly if there is room for its bucket. */
  lemma ClosedSessionStartsOver(c: Config, created: nat, actions: seq<Action>, s: nat, now: nat)
    requires 0 < c.perSession <= U64_MAX && actions != []
    requires actions[|actions| - 1].Remove? && actions[|actions| - 1].session == s
    ensures var l := Run(c, created, actions).limiter;
            && (SessionGrants(c, l, s, now) <==> |l.sessions| < MAX_SESSION_BUCKETS)
            && forall other | other != s ::
                 var before := Run(c, created, actions[..|actions| - 1]).limiter;
                 SessionBucket(c, l, other, now) == SessionBucket(c, before, other, now)
  {
    NothingElapsed(NewBucket(c.perSession, now), now);
  }

  // ---------------------------------------------------------------------------
  // What a new session is granted at once
  // ---------------------------------------------------------------------------

  /** Checks at one instant, by their sessions. */
  function CheckedAll(c: Config, l: Limiter, checks: seq<nat>, now: nat): Limiter {
    if checks == [] then l
    else AfterCheck(c, CheckedAll(c, l, checks[..|checks| - 1], now), checks[|checks| - 1], now)
  }

  function Times(checks: seq<nat>, s: nat): nat {
    if checks == [] then 0 else Times(checks[..|checks| - 1], s) + if checks[|checks| - 1] == s then 1 else 0
  }

  /** A bucket used so often at one instant: each use costs a million microtokens while they last. */
  function UsedUp(full: Bucket, uses: nat): Bucket {
    var spent := uses * MICROTOKENS_PER_OP;
    full.(tokens := if spent <= full.capacity then full.capacity - spent else full.capacity % MICROTOKENS_PER_OP)
  }

  lemma LeftOver(capacity: nat, uses: nat)
    requires uses * MICROTOKENS_PER_OP <= capacity < (uses + 1) * MICROTOKENS_PER_OP
    ensures capacity - uses * MICROTOKENS_PER_OP == capacity % MICROTOKENS_PER_OP
  {
  }

  lemma OneUse(b: Bucket, uses: nat, now: nat)
    requires b.Valid() && b.tokens == b.capacity && b.lastRefill == now
    ensures Grants(UsedUp(b, uses), now) <==> (uses + 1) * MICROTOKENS_PER_OP <= b.capacity
    ensures Consume(UsedUp(b, uses), now) == UsedUp(b, uses + 1)
  {
    hide Refilled;
    NothingElapsed(UsedUp(b, uses), now);
    if uses * MICROTOKENS_PER_OP <= b.capacity < (uses + 1) * MICROTOKENS_PER_OP {
      LeftOver(b.capacity, uses);
    }
  }

  lemma {:induction false} BucketAfterChecks(c: Config, l: Limiter, checks: seq<nat>, s: nat, now: nat)
    requires c.perSession > 0 && checks != [] && checks[0] == s && !NoRoom(l, s) && s !in l.sessions
    ensures var l' := CheckedAll(c, l, checks, now);
            s in l'.sessions && l'.sessions[s] == UsedUp(NewBucket(c.perSession, now), Times(checks, s))
  {
    hide UsedUp, Consume, Grants;
    var n, b := |checks| - 1, NewBucket(c.perSession, now);
    if n == 0 {
      assert checks[..n] == [];
      Unused(b);
      OneUse(b, 0, now);
    } else {
      BucketAfterChecks(c, l, checks[..n], s, now);
      OneUse(b, Times(checks[..n], s), now);
    }
  }

  lemma Unused(b: Bucket)
    requires b.tokens == b.capacity
    ensures UsedUp(b, 0) == b
  {
  }

  /** A session that has just got its bucket is granted its configured number of checks at one instant
      and no more, whatever other sessions do at that instant. */
  lemma NewSessionBurst(c: Config, l: Limiter, checks: seq<nat>, s: nat, now: nat)
    requires 0 < c.perSession <= U64_MAX && s !in l.sessions && |l.sessions| < 10_000
    requires checks != [] ==> checks[0] == s
    ensures var granted := SessionGrants(c, CheckedAll(c, l, checks, now), s, now);
            && (granted <==> (Times(checks, s) + 1) * 1_000_000 <= NewBucket(c.perSession, now).capacity)
            && (c.perSession * 1_000_000 <= U64_MAX ==> (granted <==> Times(checks, s) < c.perSession))
  {
    hide UsedUp, Consume, Grants;
    var b := NewBucket(c.perSession, now);
    OneUse(b, Times(checks, s), now);
    if checks == [] {
      Unused(b);
    } else {
      BucketAfterChecks(c, l, checks, s, now);
    }
  }
}
