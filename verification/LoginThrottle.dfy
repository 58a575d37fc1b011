/** The timed lockout of the daemon, kept apart for logins and for token initialisation. Times are
    readings of a monotonic clock. */
module LoginThrottle {
  import opened Base

  const MAX_THROTTLE_ENTRIES := 1024
  const U32_MAX := 0xFFFF_FFFF

  datatype Key = Key(slot: nat, client: string)

  datatype Entry = Entry(failed: nat, until: Option<nat>)

  type Attempts = map<Key, Entry>

  /** Allowed attempts, zero to switch the throttle off, and the cooldown of a lockout. */
  datatype Config = Config(max: nat, cooldown: nat) {
    predicate Valid() {
      max <= U32_MAX
    }
  }

  predicate Expired(e: Entry, now: nat) {
    e.until.Some? && e.until.value <= now
  }

  predicate Locked(c: Config, m: Attempts, k: Key, now: nat) {
    c.max > 0 && k in m && m[k].until.Some? && now < m[k].until.value
  }

  function AfterCheck(c: Config, m: Attempts, k: Key, now: nat): Attempts {
    if c.max > 0 && k in m && Expired(m[k], now) then m[k := Entry(0, None)] else m
  }

  function Unexpired(m: Attempts, now: nat): Attempts {
    map k | k in m && !Expired(m[k], now) :: m[k]
  }

  /** `kept` is what eviction leaves of `m`: no expired lockouts, then at most 1024 entries, those
      with the fewest failures removed first. Which of several equal ones is removed is open. */
  ghost predicate Evicts(m: Attempts, now: nat, kept: Attempts) {
    var live := Unexpired(m, now);
    && (forall k | k in kept :: k in live && kept[k] == live[k])
    && (|live| <= MAX_THROTTLE_ENTRIES ==> kept == live)
    && (|live| > MAX_THROTTLE_ENTRIES ==> |kept| == MAX_THROTTLE_ENTRIES)
    && FewestRemoved(live, kept)
  }

  ghost predicate FewestRemoved(live: Attempts, kept: Attempts) {
    forall r, k | r in live && r !in kept && k in kept :: live[r].failed <= kept[k].failed
  }

  function Recorded(c: Config, m: Attempts, k: Key, now: nat): Attempts {
    var failed := Min((if k in m then m[k].failed else 0) + 1, U32_MAX);
    var until := if failed >= c.max then Some(now + c.cooldown) else if k in m then m[k].until else None;
    m[k := Entry(failed, until)]
  }

  class Throttle {
    const config: Config
    var attempts: Attempts

    constructor (c: Config)
      ensures config == c && attempts == map[]
    {
      config := c;
      attempts := map[];
    }

    method Check(k: Key, now: nat) returns (ok: bool)
      modifies this
      ensures ok == !Locked(config, old(attempts), k, now)
      ensures attempts == AfterCheck(config, old(attempts), k, now)
    {
      if config.max == 0 || k !in attempts {
        return true;
      }
      match attempts[k].until {
        case None => ok := true;
        case Some(until) =>
          ok := until <= now;
          if ok {
            attempts := attempts[k := Entry(0, None)];
          }
      }
    }

    method EvictExpired(now: nat)
      modifies this
      ensures Evicts(old(attempts), now, attempts)
    {
      var live := Unexpired(attempts, now);
      attempts := live;
      while |attempts| > MAX_THROTTLE_ENTRIES
        invariant forall k | k in attempts :: k in live && attempts[k] == live[k]
        invariant |live| <= MAX_THROTTLE_ENTRIES ==> attempts == live
        invariant |live| > MAX_THROTTLE_ENTRIES ==> |attempts| >= MAX_THROTTLE_ENTRIES
        invariant FewestRemoved(live, attempts)
      {
        var k := FewestFailures(attempts);
        RemoveSize(attempts, k);
        attempts := attempts - {k};
      }
    }

    method RecordFailure(k: Key, evictAt: nat, lockAt: nat) returns (ghost kept: Attempts)
      modifies this
      ensures config.max == 0 ==> attempts == old(attempts)
      ensures config.max > 0 ==>
                Evicts(old(attempts), evictAt, kept) && attempts == Recorded(config, kept, k, lockAt)
    {
      kept := attempts;
      if config.max == 0 {
        return;
      }
      EvictExpired(evictAt);
      kept := attempts;
      var e := if k in attempts then attempts[k] else Entry(0, None);
      var failed := Min(e.failed + 1, U32_MAX);
      var until := if failed >= config.max then Some(lockAt + config.cooldown) else e.until;
      attempts := attempts[k := Entry(failed, until)];
    }

    method Clear(k: Key)
      modifies this
      ensures attempts == if config.max == 0 then old(attempts) else old(attempts) - {k}
    {
      if config.max != 0 {
        attempts := attempts - {k};
      }
    }
  }

  lemma RemoveSize(m: Attempts, k: Key)
    requires k in m
    ensures |m - {k}| == |m| - 1
  {
    var rest := m - {k};
    assert rest.Keys == m.Keys - {k};
    assert |rest.Keys| == |rest| && |m.Keys| == |m|;
  }

  lemma InsertSize(m: Attempts, k: Key, e: Entry)
    ensures |m[k := e]| == if k in m then |m| else |m| + 1
  {
    var more := m[k := e];
    assert more.Keys == m.Keys + {k};
    assert |more.Keys| == |more| && |m.Keys| == |m|;
  }

  /** A key with the fewest failures. */
  method FewestFailures(m: Attempts) returns (best: Key)
    requires |m| > 0
    ensures best in m && forall k | k in m :: m[best].failed <= m[k].failed
  {
    assert m.Keys != {};
    best :| best in m.Keys;
    var rest := m.Keys;
    while rest != {}
      invariant rest <= m.Keys && best in m
      invariant forall k | k in m && k !in rest :: m[best].failed <= m[k].failed
    {
      var k :| k in rest;
      if m[k].failed < m[best].failed {
        best := k;
      }
      rest := rest - {k};
    }
  }

  // ---------------------------------------------------------------------------
  // Serialised requests
  // ---------------------------------------------------------------------------

  /** Whether the credential is right, or is not looked at because the token is not there. */
  datatype Credential = Right | Wrong | NotLookedAt

  /** One request with the clock readings of its check, its eviction and its lockout, and what eviction
      leaves if there is one. */
  datatype Request = Request(key: Key, checkAt: nat, evictAt: nat, lockAt: nat, credential: Credential, kept: Attempts)

  datatype Outcome = Refused | Aborted | Failure | Success

  function OutcomeOf(c: Config, m: Attempts, r: Request): Outcome {
    if Locked(c, m, r.key, r.checkAt) then Refused
    else match r.credential
      case NotLookedAt => Aborted
      case Right => Success
      case Wrong => Failure
  }

  function Next(c: Config, m: Attempts, r: Request): Attempts {
    if c.max == 0 then m
    else match OutcomeOf(c, m, r)
      case Refused => m
      case Aborted => AfterCheck(c, m, r.key, r.checkAt)
      case Success => AfterCheck(c, m, r.key, r.checkAt) - {r.key}
      case Failure => Recorded(c, r.kept, r.key, r.lockAt)
  }

  /** The request's `kept` is what eviction makes of the map it meets. */
  ghost predicate Faithful(c: Config, m: Attempts, r: Request) {
    && r.checkAt <= r.evictAt <= r.lockAt
    && (c.max > 0 && OutcomeOf(c, m, r).Failure? ==> Evicts(AfterCheck(c, m, r.key, r.checkAt), r.evictAt, r.kept))
  }

  function Run(c: Config, requests: seq<Request>): Attempts {
    if requests == [] then map[]
    else Next(c, Run(c, requests[..|requests| - 1]), requests[|requests| - 1])
  }

  ghost predicate FaithfulRun(c: Config, requests: seq<Request>) {
    && (forall n | 0 <= n < |requests| :: Faithful(c, Run(c, requests[..n]), requests[n]))
    && (forall n | 0 < n < |requests| :: requests[n - 1].lockAt <= requests[n].checkAt)
  }

  /** A lockout is set exactly where the attempts are used up; at most 1025 entries. */
  ghost predicate Inv(c: Config, m: Attempts) {
    && (forall k | k in m :: m[k].failed <= U32_MAX && (m[k].until.Some? <==> c.max <= m[k].failed))
    && |m| <= MAX_THROTTLE_ENTRIES + 1
    && (c.max == 0 ==> m == map[])
  }

  lemma EvictsSize(m: Attempts, now: nat, kept: Attempts)
    requires Evicts(m, now, kept)
    ensures |kept| <= MAX_THROTTLE_ENTRIES
  {
  }

  lemma CheckKeepsInv(c: Config, m: Attempts, k: Key, now: nat)
    requires Inv(c, m)
    ensures Inv(c, AfterCheck(c, m, k, now))
  {
    if k in m {
      InsertSize(m, k, Entry(0, None));
    }
  }

  lemma RecordKeepsInv(c: Config, m: Attempts, now: nat, kept: Attempts, k: Key, lockAt: nat)
    requires c.Valid() && c.max > 0 && Inv(c, m) && Evicts(m, now, kept)
    ensures Inv(c, Recorded(c, kept, k, lockAt))
  {
    EvictsSize(m, now, kept);
    InsertSize(kept, k, Recorded(c, kept, k, lockAt)[k]);
  }

  lemma NextKeepsInv(c: Config, m: Attempts, r: Request)
    requires c.Valid() && Inv(c, m) && Faithful(c, m, r)
    ensures Inv(c, Next(c, m, r))
  {
    hide Evicts;
    if c.max > 0 {
      CheckKeepsInv(c, m, r.key, r.checkAt);
      var checked := AfterCheck(c, m, r.key, r.checkAt);
      match OutcomeOf(c, m, r) {
        case Refused =>
        case Aborted =>
        case Success =>
          if r.key in checked {
            RemoveSize(checked, r.key);
          } else {
            assert checked - {r.key} == checked;
          }
        case Failure => RecordKeepsInv(c, checked, r.evictAt, r.kept, r.key, r.lockAt);
      }
    }
  }

  /** In every run of serialised requests an entry has a lockout exactly if its failures have reached
      the maximum, and the map never holds more than 1025 entries. */
  lemma {:induction false} RunKeepsInv(c: Config, requests: seq<Request>)
    requires c.Valid() && FaithfulRun(c, requests)
    ensures Inv(c, Run(c, requests))
  {
    if requests != [] {
      var n := |requests| - 1;
      PrefixFaithful(c, requests, n);
      RunKeepsInv(c, requests[..n]);
      NextKeepsInv(c, Run(c, requests[..n]), requests[n]);
    }
  }

  lemma PrefixFaithful(c: Config, requests: seq<Request>, n: nat)
    requires FaithfulRun(c, requests) && n <= |requests|
    ensures FaithfulRun(c, requests[..n])
  {
    hide Faithful, Run;
    forall i | 0 <= i < n
      ensures Faithful(c, Run(c, requests[..n][..i]), requests[..n][i])
    {
      assert requests[..n][..i] == requests[..i];
      assert Faithful(c, Run(c, requests[..i]), requests[i]);
    }
  }

  /** Eviction removes a running lockout only if every entry it keeps is locked as well. */
  lemma LockoutEvictedLast(c: Config, m: Attempts, now: nat, kept: Attempts, victim: Key)
    requires Inv(c, m) && Evicts(m, now, kept)
    requires victim in m && victim !in kept && m[victim].until.Some? && now < m[victim].until.value
    ensures |kept| == MAX_THROTTLE_ENTRIES
    ensures forall k | k in kept :: kept[k].until.Some? && now < kept[k].until.value
  {
    assert victim in Unexpired(m, now);
  }

  // ---------------------------------------------------------------------------
  // How fast attempts can fail
  // ---------------------------------------------------------------------------

  /** Failures of `k` among the requests from position `i` on. */
  function FailuresFrom(c: Config, requests: seq<Request>, i: nat, k: Key): nat {
    if |requests| <= i then 0
    else
      var n := |requests| - 1;
      FailuresFrom(c, requests[..n], i, k)
      + if requests[n].key == k && OutcomeOf(c, Run(c, requests[..n]), requests[n]).Failure? then 1 else 0
  }

  /** The request neither clears the entry of `k` nor evicts it for want of room. */
  ghost predicate Spares(c: Config, m: Attempts, r: Request, k: Key) {
    && (r.key == k ==> !OutcomeOf(c, m, r).Success?)
    && (OutcomeOf(c, m, r).Failure? ==>
          var live := Unexpired(AfterCheck(c, m, r.key, r.checkAt), r.evictAt);
          k in live ==> k in r.kept)
  }

  ghost predicate SparesFrom(c: Config, requests: seq<Request>, i: nat, k: Key) {
    forall n | i <= n < |requests| :: Spares(c, Run(c, requests[..n]), requests[n], k)
  }

  /** After `g` failures since time `start`: they are counted, or a lockout covers the cooldown, or
      the cooldown is over. */
  ghost predicate Paced(c: Config, m: Attempts, k: Key, start: nat, now: nat, g: nat) {
    || g == 0
    || (k in m && m[k].until.None? && g <= m[k].failed && g < c.max)
    || (k in m && m[k].until.Some? && start + c.cooldown <= m[k].until.value && g <= c.max)
    || start + c.cooldown <= now
  }

  lemma EvictionPaced(c: Config, m: Attempts, r: Request, k: Key, start: nat, g: nat)
    requires Paced(c, m, k, start, r.evictAt, g) && Evicts(m, r.evictAt, r.kept)
    requires k in Unexpired(m, r.evictAt) ==> k in r.kept
    ensures Paced(c, r.kept, k, start, r.evictAt, g)
  {
    if k in m && !Expired(m[k], r.evictAt) {
      assert k in Unexpired(m, r.evictAt);
    }
  }

  lemma CheckPaced(c: Config, m: Attempts, k: Key, other: Key, start: nat, now: nat, g: nat)
    requires Paced(c, m, k, start, now, g) && !Locked(c, m, other, now)
    ensures Paced(c, AfterCheck(c, m, other, now), k, start, now, g)
  {
  }

  lemma NextPaced(c: Config, m: Attempts, r: Request, k: Key, start: nat, now: nat, g: nat)
    requires c.Valid() && c.max > 0 && Inv(c, m) && Faithful(c, m, r) && Spares(c, m, r, k)
    requires Paced(c, m, k, start, now, g) && now <= r.checkAt && start <= r.lockAt
    ensures var failure := r.key == k && OutcomeOf(c, m, r).Failure?;
            Paced(c, Next(c, m, r), k, start, r.lockAt, g + if failure then 1 else 0)
  {
    hide Evicts, Unexpired, Inv;
    if !OutcomeOf(c, m, r).Refused? {
      var checked := AfterCheck(c, m, r.key, r.checkAt);
      CheckPaced(c, m, k, r.key, start, r.checkAt, g);
      if OutcomeOf(c, m, r).Failure? {
        EvictionPaced(c, checked, r, k, start, g);
        CheckKeepsInv(c, m, r.key, r.checkAt);
        RecordPaced(c, checked, r, k, start, g);
      }
    }
  }

  lemma RecordPaced(c: Config, checked: Attempts, r: Request, k: Key, start: nat, g: nat)
    requires c.Valid() && c.max > 0 && Inv(c, checked) && r.evictAt <= r.lockAt && start <= r.lockAt
    requires Evicts(checked, r.evictAt, r.kept) && Paced(c, r.kept, k, start, r.evictAt, g)
    requires r.key in checked ==> checked[r.key].until.None?
    ensures Paced(c, Recorded(c, r.kept, r.key, r.lockAt), k, start, r.lockAt, g + if r.key == k then 1 else 0)
  {
    if r.key == k && k in r.kept {
      assert k in Unexpired(checked, r.evictAt);
      assert r.kept[k].until.None?;
    }
  }

  lemma {:induction false} RunPaced(c: Config, requests: seq<Request>, i: nat, k: Key)
    requires c.Valid() && c.max > 0 && FaithfulRun(c, requests) && i < |requests| && SparesFrom(c, requests, i, k)
    ensures Paced(c, Run(c, requests), k, requests[i].lockAt, requests[|requests| - 1].lockAt,
                  FailuresFrom(c, requests, i, k))
  {
    hide Faithful, Spares, Paced, Inv, Next, OutcomeOf, FaithfulRun, SparesFrom;
    var n := |requests| - 1;
    var m := Run(c, requests[..n]);
    var g := FailuresFrom(c, requests[..n], i, k);
    PrefixFaithful(c, requests, n);
    RunKeepsInv(c, requests[..n]);
    TimesOrdered(c, requests, i, n);
    LastStep(c, requests, i, k);
    if i < n {
      PrefixSpares(c, requests, i, k);
      RunPaced(c, requests[..n], i, k);
      NextPaced(c, m, requests[n], k, requests[i].lockAt, requests[n - 1].lockAt, g);
    } else {
      NothingPaced(c, m, k, requests[i].lockAt);
      NextPaced(c, m, requests[n], k, requests[i].lockAt, 0, g);
    }
  }

  lemma LastStep(c: Config, requests: seq<Request>, i: nat, k: Key)
    requires FaithfulRun(c, requests) && i < |requests| && SparesFrom(c, requests, i, k)
    ensures var n := |requests| - 1;
            && Faithful(c, Run(c, requests[..n]), requests[n]) && Spares(c, Run(c, requests[..n]), requests[n], k)
            && (0 < n ==> requests[n - 1].lockAt <= requests[n].checkAt)
  {
    hide Faithful, Spares, Run;
  }

  lemma NothingPaced(c: Config, m: Attempts, k: Key, start: nat)
    ensures Paced(c, m, k, start, 0, 0)
  {
  }

  lemma PrefixSpares(c: Config, requests: seq<Request>, i: nat, k: Key)
    requires i < |requests| && SparesFrom(c, requests, i, k)
    ensures SparesFrom(c, requests[..|requests| - 1], i, k)
  {
    hide Spares, Run;
    var prefix := requests[..|requests| - 1];
    forall n | i <= n < |prefix|
      ensures Spares(c, Run(c, prefix[..n]), prefix[n], k)
    {
      assert prefix[..n] == requests[..n];
      assert Spares(c, Run(c, requests[..n]), requests[n], k);
    }
  }

  lemma {:induction false} TimesOrdered(c: Config, requests: seq<Request>, i: nat, n: nat)
    requires FaithfulRun(c, requests) && i <= n < |requests|
    ensures requests[i].lockAt <= requests[n].lockAt
  {
    hide Run;
    if i < n {
      TimesOrdered(c, requests, i, n - 1);
      assert Faithful(c, Run(c, requests[..n]), requests[n]);
    }
  }

  /** Any `max + 1` consecutive failed attempts of one client on one slot, with no success between and
      no eviction of the client's entry for want of room, take at least the cooldown. */
  lemma FailuresSpanCooldown(c: Config, requests: seq<Request>, i: nat, k: Key)
    requires c.Valid() && c.max > 0 && FaithfulRun(c, requests) && i < |requests| && SparesFrom(c, requests, i, k)
    requires FailuresFrom(c, requests, i, k) >= c.max + 1
    ensures requests[|requests| - 1].lockAt - requests[i].lockAt >= c.cooldown
  {
    RunPaced(c, requests, i, k);
  }

  /** The bound is sharp: with one allowed attempt, a second failure comes exactly the cooldown after
      the first. */
  lemma CooldownIsSharp(k: Key, cooldown: nat)
    ensures var c := Config(1, cooldown);
            var requests := [Request(k, 0, 0, 0, Wrong, map[]),
                             Request(k, cooldown, cooldown, cooldown, Wrong, map[k := Entry(0, None)])];
            && FaithfulRun(c, requests) && SparesFrom(c, requests, 0, k)
            && FailuresFrom(c, requests, 0, k) == 2
            && requests[1].lockAt - requests[0].lockAt == cooldown
  {
    var c := Config(1, cooldown);
    var a := Request(k, 0, 0, 0, Wrong, map[]);
    var b := Request(k, cooldown, cooldown, cooldown, Wrong, map[k := Entry(0, None)]);
    var requests := [a, b];
    assert requests[..0] == [] && requests[..1] == [a] && [a][..0] == [];
    assert Run(c, []) == map[] && Unexpired(map[], 0) == map[];
    assert Run(c, [a]) == map[k := Entry(1, Some(cooldown))];
    assert AfterCheck(c, Run(c, [a]), k, cooldown) == map[k := Entry(0, None)];
    assert Unexpired(map[k := Entry(0, None)], cooldown) == map[k := Entry(0, None)];
    assert FailuresFrom(c, [a], 0, k) == 1 by {
      assert FailuresFrom(c, [], 0, k) == 0;
    }
  }

  // ---------------------------------------------------------------------------
  // No client is locked out without cause
  // ---------------------------------------------------------------------------

  /** No lockout lasts longer than the cooldown from `now`. */
  ghost predicate Ends(c: Config, m: Attempts, now: nat) {
    forall k | k in m && m[k].until.Some? :: m[k].until.value <= now + c.cooldown
  }

  /** The entry of `k` counts no more than its failures from position `i` on. */
  ghost predicate Earned(c: Config, requests: seq<Request>, i: nat, m: Attempts, k: Key) {
    k in m ==> m[k].failed <= FailuresFrom(c, requests, i, k)
  }

  function LastTime(requests: seq<Request>): nat {
    if requests == [] then 0 else requests[|requests| - 1].lockAt
  }

  /** What survives eviction is unchanged. */
  lemma KeptUnchanged(m: Attempts, now: nat, kept: Attempts)
    requires Evicts(m, now, kept)
    ensures forall k | k in kept :: k in m && kept[k] == m[k]
  {
  }

  lemma EndsStep(c: Config, m: Attempts, r: Request, now: nat)
    requires c.max > 0 && Faithful(c, m, r) && Ends(c, m, now) && now <= r.checkAt
    ensures Ends(c, Next(c, m, r), r.lockAt)
  {
    hide Evicts;
    if OutcomeOf(c, m, r).Failure? {
      KeptUnchanged(AfterCheck(c, m, r.key, r.checkAt), r.evictAt, r.kept);
    }
  }

  lemma EarnedStep(c: Config, m: Attempts, r: Request, k: Key, g: nat)
    requires c.max > 0 && Faithful(c, m, r) && (k in m ==> m[k].failed <= g)
    ensures var failure := r.key == k && OutcomeOf(c, m, r).Failure?;
            var m' := Next(c, m, r);
            k in m' ==> m'[k].failed <= g + if failure then 1 else 0
  {
    hide Evicts;
    if OutcomeOf(c, m, r).Failure? {
      KeptUnchanged(AfterCheck(c, m, r.key, r.checkAt), r.evictAt, r.kept);
    }
  }

  /** What holds after the first `j` requests holds on. */
  lemma {:induction false} RunEarned(c: Config, requests: seq<Request>, i: nat, j: nat, k: Key)
    requires c.max > 0 && FaithfulRun(c, requests) && i <= j <= |requests|
    requires Earned(c, requests[..j], i, Run(c, requests[..j]), k)
    ensures Earned(c, requests, i, Run(c, requests), k)
  {
    hide Faithful, Next, OutcomeOf;
    if j < |requests| {
      var n := |requests| - 1;
      PrefixFaithful(c, requests, n);
      assert requests[..n][..j] == requests[..j];
      RunEarned(c, requests[..n], i, j, k);
      assert Faithful(c, Run(c, requests[..n]), requests[n]);
      EarnedStep(c, Run(c, requests[..n]), requests[n], k, FailuresFrom(c, requests[..n], i, k));
    } else {
      assert requests[..j] == requests;
    }
  }

  lemma {:induction false} RunEnds(c: Config, requests: seq<Request>)
    requires c.max > 0 && FaithfulRun(c, requests)
    ensures Ends(c, Run(c, requests), LastTime(requests))
  {
    if requests != [] {
      hide Faithful, Next, Ends;
      var n := |requests| - 1;
      PrefixFaithful(c, requests, n);
      RunEnds(c, requests[..n]);
      assert Faithful(c, Run(c, requests[..n]), requests[n]);
      EndsStep(c, Run(c, requests[..n]), requests[n], LastTime(requests[..n]));
    }
  }

  /** In every run of serialised requests a client is refused only after `max` failures of its own since
      it was last unknown, and never later than the cooldown after the last request. */
  lemma RefusedOnlyWithCause(c: Config, requests: seq<Request>, i: nat, k: Key, now: nat)
    requires c.Valid() && FaithfulRun(c, requests) && Locked(c, Run(c, requests), k, now)
    requires i <= |requests| && k !in Run(c, requests[..i])
    ensures c.max <= FailuresFrom(c, requests, i, k)
    ensures now < LastTime(requests) + c.cooldown
  {
    RunKeepsInv(c, requests);
    RunEarned(c, requests, i, i, k);
    RunEnds(c, requests);
  }

  /** A success gives all attempts back: the client is refused again only after `max` failures that
      come after it. */
  lemma SuccessStartsOver(c: Config, requests: seq<Request>, i: nat, k: Key, now: nat)
    requires c.Valid() && FaithfulRun(c, requests) && i < |requests| && requests[i].key == k
    requires OutcomeOf(c, Run(c, requests[..i]), requests[i]).Success?
    requires Locked(c, Run(c, requests), k, now)
    ensures c.max <= FailuresFrom(c, requests, i + 1, k)
  {
    assert requests[..i + 1][..i] == requests[..i];
    RefusedOnlyWithCause(c, requests, i + 1, k, now);
  }

  lemma ExpiredStep(c: Config, m: Attempts, r: Request)
    requires c.max > 0 && Faithful(c, m, r) && r.key in m && Expired(m[r.key], r.checkAt)
    ensures var m' := Next(c, m, r);
            r.key in m' ==> m'[r.key].failed <= if OutcomeOf(c, m, r).Failure? then 1 else 0
  {
    hide Evicts;
    if OutcomeOf(c, m, r).Failure? {
      KeptUnchanged(AfterCheck(c, m, r.key, r.checkAt), r.evictAt, r.kept);
    }
  }

  /** So does a lockout that is found to have run out: the client is refused again only after `max`
      failures, this request among them. */
  lemma ExpiryStartsOver(c: Config, requests: seq<Request>, i: nat, k: Key, now: nat)
    requires c.Valid() && FaithfulRun(c, requests) && i < |requests| && requests[i].key == k
    requires k in Run(c, requests[..i]) && Expired(Run(c, requests[..i])[k], requests[i].checkAt)
    requires Locked(c, Run(c, requests), k, now)
    ensures c.max <= FailuresFrom(c, requests, i, k)
  {
    hide Faithful, Next, OutcomeOf, Expired;
    var m, upTo := Run(c, requests[..i]), requests[..i + 1];
    assert upTo[..i] == requests[..i];
    assert Faithful(c, m, requests[i]);
    assert FailuresFrom(c, requests[..i], i, k) == 0;
    ExpiredStep(c, m, requests[i]);
    RunEarned(c, requests, i, i + 1, k);
    RunKeepsInv(c, requests);
  }

  /** A request that finds at most 1024 entries with no expired lockout costs no client its entry, but
      for its own on success and those whose lockout has run out. */
  lemma SparedUnlessFull(c: Config, m: Attempts, r: Request, k: Key)
    requires c.max > 0 && Faithful(c, m, r) && k in m && !Expired(m[k], r.evictAt)
    requires |Unexpired(AfterCheck(c, m, r.key, r.checkAt), r.evictAt)| <= 1024
    requires r.key == k ==> !OutcomeOf(c, m, r).Success?
    ensures Spares(c, m, r, k) && k in Next(c, m, r)
    ensures r.key != k ==> Next(c, m, r)[k] == m[k]
  {
    var checked := AfterCheck(c, m, r.key, r.checkAt);
    assert k in Unexpired(checked, r.evictAt);
  }
}
