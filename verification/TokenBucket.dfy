/** The token bucket of the rate limiter. Times are nanoseconds of a monotonic clock. */
module TokenBucket {
  import opened Base

  const MICROTOKENS_PER_OP := 1_000_000

  /** Microtokens at hand, time of the last refill, refill rate in microtokens per second, capacity. */
  datatype Bucket = Bucket(tokens: nat, lastRefill: nat, rate: nat, capacity: nat) {
    ghost predicate Valid() {
      tokens <= capacity <= U64_MAX && rate <= U64_MAX
    }
  }

  function NewBucket(opsPerSecond: nat, now: nat): (b: Bucket)
    ensures b.Valid() && b.tokens == b.capacity == b.rate
    ensures 0 < opsPerSecond <= U64_MAX ==> MICROTOKENS_PER_OP <= b.capacity
  {
    var rate := Min(opsPerSecond * MICROTOKENS_PER_OP, U64_MAX);
    Bucket(rate, now, rate, rate)
  }

  /** Whole microseconds since `last`, cut to 64 bits. */
  function ElapsedMicros(last: nat, now: nat): nat {
    if now < last then 0 else (now - last) / 1000 % U64_MODULUS
  }

  /** The refill for so many microseconds, cut to 64 bits. */
  function Refill(rate: nat, micros: nat): nat {
    rate * micros / 1_000_000 % U64_MODULUS
  }

  /** The tokens after the refill and before the withdrawal. */
  function Refilled(b: Bucket, now: nat): nat {
    Min(Min(b.tokens + Refill(b.rate, ElapsedMicros(b.lastRefill, now)), U64_MAX), b.capacity)
  }

  predicate Grants(b: Bucket, now: nat) {
    MICROTOKENS_PER_OP <= Refilled(b, now)
  }

  function Consume(b: Bucket, now: nat): (b': Bucket)
    ensures b.Valid() ==> b'.Valid()
    ensures b'.rate == b.rate && b'.capacity == b.capacity && b'.lastRefill == now
  {
    var tokens := Refilled(b, now);
    b.(tokens := if Grants(b, now) then tokens - MICROTOKENS_PER_OP else tokens, lastRefill := now)
  }

  class RateState {
    var tokens: nat
    var lastRefill: nat
    const rate: nat
    const capacity: nat

    function Value(): Bucket
      reads this
    {
      Bucket(tokens, lastRefill, rate, capacity)
    }

    constructor (opsPerSecond: nat, now: nat)
      ensures Value() == NewBucket(opsPerSecond, now)
    {
      var rateMicro := opsPerSecond * MICROTOKENS_PER_OP;
      if rateMicro > U64_MAX {
        rateMicro := U64_MAX;
      }
      tokens, lastRefill, rate, capacity := rateMicro, now, rateMicro, rateMicro;
    }

    method TryConsume(now: nat) returns (granted: bool)
      modifies this
      ensures granted == Grants(old(Value()), now)
      ensures Value() == Consume(old(Value()), now)
    {
      var elapsedMicros := 0;
      if lastRefill <= now {
        elapsedMicros := (now - lastRefill) / 1000 % U64_MODULUS;
      }
      var refill := rate * elapsedMicros / 1_000_000 % U64_MODULUS;
      tokens := Min(Min(tokens + refill, U64_MAX), capacity);
      lastRefill := now;
      granted := tokens >= MICROTOKENS_PER_OP;
      if granted {
        tokens := tokens - MICROTOKENS_PER_OP;
      }
    }
  }

  // ---------------------------------------------------------------------------
  // The window bound
  // ---------------------------------------------------------------------------

  /** What the rate yields, in microtokens, over whole microseconds of a window. */
  function Allowance(rate: nat, start: nat, end: nat): nat
    requires start <= end
  {
    rate * ((end - start) / 1000) / 1_000_000
  }

  lemma DivideSum(x: nat, y: nat)
    ensures x / 1_000_000 + y / 1_000_000 <= (x + y) / 1_000_000
    ensures x / 1000 + y / 1000 <= (x + y) / 1000
  {
  }

  lemma DivideMonotone(x: nat, y: nat)
    requires x <= y
    ensures x / 1_000_000 <= y / 1_000_000
  {
  }

  lemma ModuloShrinks(x: nat)
    ensures x % U64_MODULUS <= x
  {
  }

  lemma RefillWithinAllowance(rate: nat, last: nat, now: nat)
    requires last <= now
    ensures Refill(rate, ElapsedMicros(last, now)) <= Allowance(rate, last, now)
  {
    var micros := ElapsedMicros(last, now);
    ModuloShrinks((now - last) / 1000);
    YieldMonotone(rate, micros, (now - last) / 1000);
    ModuloShrinks(rate * micros / 1_000_000);
  }

  lemma AllowanceAdds(rate: nat, t0: nat, t1: nat, t2: nat)
    requires t0 <= t1 <= t2
    ensures Allowance(rate, t0, t1) + Allowance(rate, t1, t2) <= Allowance(rate, t0, t2)
  {
    var x, y := (t1 - t0) / 1000, (t2 - t1) / 1000;
    DivideSum(t1 - t0, t2 - t1);
    YieldAdds(rate, x, y);
    YieldMonotone(rate, x + y, (t2 - t0) / 1000);
  }

  lemma YieldAdds(rate: nat, x: nat, y: nat)
    ensures rate * x / 1_000_000 + rate * y / 1_000_000 <= rate * (x + y) / 1_000_000
  {
    assert rate * (x + y) == rate * x + rate * y;
    DivideSum(rate * x, rate * y);
  }

  lemma YieldMonotone(rate: nat, x: nat, y: nat)
    requires x <= y
    ensures rate * x / 1_000_000 <= rate * y / 1_000_000
  {
    MulMonotone(x, y, rate);
    assert rate * x <= rate * y;
    DivideMonotone(rate * x, rate * y);
  }

  /** Room left in a window opened at `start` in which `granted` operations were granted. */
  ghost predicate WithinWindow(b: Bucket, start: nat, granted: nat) {
    && b.Valid()
    && if b.lastRefill < start then granted == 0
       else granted * MICROTOKENS_PER_OP + b.tokens <= b.capacity + Allowance(b.rate, start, b.lastRefill)
  }

  lemma ConsumeStaysWithin(b: Bucket, now: nat, start: nat, granted: nat)
    requires WithinWindow(b, start, granted) && b.lastRefill <= now && start <= now
    ensures WithinWindow(Consume(b, now), start, granted + if Grants(b, now) then 1 else 0)
  {
    hide ElapsedMicros, Refill, Allowance;
    RefillWithinAllowance(b.rate, b.lastRefill, now);
    if start <= b.lastRefill {
      AllowanceAdds(b.rate, start, b.lastRefill, now);
    }
  }

  function AfterCalls(b: Bucket, times: seq<nat>): Bucket {
    if times == [] then b
    else Consume(AfterCalls(b, times[..|times| - 1]), times[|times| - 1])
  }

  /** How many of the calls from position `i` on are granted. */
  function GrantedFrom(b: Bucket, times: seq<nat>, i: nat): nat {
    if |times| <= i then 0
    else GrantedFrom(b, times[..|times| - 1], i)
         + if Grants(AfterCalls(b, times[..|times| - 1]), times[|times| - 1]) then 1 else 0
  }

  /** The clock does not run backwards. */
  ghost predicate Ordered(start: nat, times: seq<nat>) {
    && (forall k | 0 <= k < |times| :: start <= times[k])
    && (forall k, l | 0 <= k < l < |times| :: times[k] <= times[l])
  }

  lemma {:induction false} RunKeepsValid(b: Bucket, times: seq<nat>)
    requires b.Valid() && Ordered(b.lastRefill, times)
    ensures AfterCalls(b, times).Valid()
    ensures AfterCalls(b, times).rate == b.rate && AfterCalls(b, times).capacity == b.capacity
    ensures AfterCalls(b, times).lastRefill == if times == [] then b.lastRefill else times[|times| - 1]
  {
    if times != [] {
      RunKeepsValid(b, times[..|times| - 1]);
    }
  }

  lemma {:induction false} RunStaysWithin(b: Bucket, times: seq<nat>, i: nat)
    requires b.Valid() && Ordered(b.lastRefill, times) && i < |times|
    ensures WithinWindow(AfterCalls(b, times), times[i], GrantedFrom(b, times, i))
  {
    var n := |times| - 1;
    RunKeepsValid(b, times[..n]);
    if i < n {
      RunStaysWithin(b, times[..n], i);
    }
    ConsumeStaysWithin(AfterCalls(b, times[..n]), times[n], times[i], GrantedFrom(b, times[..n], i));
  }

  /** Between any two calls i and j on one bucket, i <= j, the microtokens granted are at most the
      capacity plus what the rate yields in the time between them. */
  lemma WindowBound(opsPerSecond: nat, created: nat, times: seq<nat>, i: nat, j: nat)
    requires Ordered(created, times) && i <= j < |times|
    ensures var b := NewBucket(opsPerSecond, created);
            GrantedFrom(b, times[..j + 1], i) * MICROTOKENS_PER_OP
            <= b.capacity + Allowance(b.rate, times[i], times[j])
  {
    var b := NewBucket(opsPerSecond, created);
    RunStaysWithin(b, times[..j + 1], i);
    RunKeepsValid(b, times[..j + 1]);
  }

  // ---------------------------------------------------------------------------
  // Spaced requests
  // ---------------------------------------------------------------------------

  function CeilDiv(x: nat, y: nat): (r: nat)
    requires 0 < y
    ensures x <= r * y < x + y
  {
    (x + y - 1) / y
  }

  /** Neither cast to 64 bits changes its operand. */
  predicate NoWrap(rate: nat, gap: nat) {
    gap / 1000 < U64_MODULUS && rate * (gap / 1000) / 1_000_000 < U64_MODULUS
  }

  lemma WholeRefill(ops: nat, micros: nat)
    ensures (ops * 1_000_000) * micros / 1_000_000 == ops * micros
  {
    assert (ops * 1_000_000) * micros == (ops * micros) * 1_000_000;
  }

  lemma RefillUncut(rate: nat, micros: nat)
    requires micros < U64_MODULUS && rate * micros / 1_000_000 < U64_MODULUS
    ensures Refill(rate, micros % U64_MODULUS) == rate * micros / 1_000_000
  {
  }

  lemma SaturatedRefill(micros: nat)
    requires 1 <= micros
    ensures 1_000_000 <= U64_MAX * micros / 1_000_000
  {
    MulMonotone(1, micros, U64_MAX);
    DivideMonotone(U64_MAX, U64_MAX * micros);
  }

  /** A gap of ceil(1,000,000 / operations per second) microseconds refills one operation. */
  lemma SpacedRefill(ops: nat, gap: nat)
    requires 0 < ops <= U64_MAX && CeilDiv(1_000_000, ops) * 1000 <= gap
    requires NoWrap(NewBucket(ops, 0).rate, gap)
    ensures MICROTOKENS_PER_OP <= Refill(NewBucket(ops, 0).rate, gap / 1000 % U64_MODULUS)
  {
    hide CeilDiv, Refill;
    var rate, micros, least := NewBucket(ops, 0).rate, gap / 1000, CeilDiv(1_000_000, ops);
    assert least <= micros;
    RefillUncut(rate, micros);
    if ops * MICROTOKENS_PER_OP <= U64_MAX {
      WholeRefill(ops, micros);
      MulMonotone(least, micros, ops);
    } else {
      SaturatedRefill(micros);
    }
  }

  /** Requests whose gaps each refill one operation, as cut to 64 bits, are all granted. */
  lemma CoveredRequestsGranted(ops: nat, created: nat, times: seq<nat>)
    requires 0 < ops <= U64_MAX && Ordered(created, times)
    requires forall k | 0 < k < |times| ::
               MICROTOKENS_PER_OP <= Refill(NewBucket(ops, 0).rate, ElapsedMicros(times[k - 1], times[k]))
    ensures forall k | 0 <= k < |times| :: Grants(AfterCalls(NewBucket(ops, created), times[..k]), times[k])
  {
    hide Refill, ElapsedMicros;
    var b := NewBucket(ops, created);
    forall k | 0 <= k < |times|
      ensures Grants(AfterCalls(b, times[..k]), times[k])
    {
      RunKeepsValid(b, times[..k]);
      if k == 0 {
        assert AfterCalls(b, times[..0]) == b;
      }
    }
  }

  /** Requests that keep the distance are all granted, as long as no cast wraps. */
  lemma SpacedRequestsGranted(ops: nat, created: nat, times: seq<nat>)
    requires 0 < ops <= U64_MAX && Ordered(created, times)
    requires forall k | 0 < k < |times| ::
               && CeilDiv(1_000_000, ops) * 1000 <= times[k] - times[k - 1]
               && NoWrap(NewBucket(ops, 0).rate, times[k] - times[k - 1])
    ensures forall k | 0 <= k < |times| :: Grants(AfterCalls(NewBucket(ops, created), times[..k]), times[k])
  {
    forall k | 0 < k < |times|
      ensures MICROTOKENS_PER_OP <= Refill(NewBucket(ops, 0).rate, ElapsedMicros(times[k - 1], times[k]))
    {
      SpacedRefill(ops, times[k] - times[k - 1]);
    }
    CoveredRequestsGranted(ops, created, times);
  }

  lemma NothingElapsed(b: Bucket, now: nat)
    requires b.Valid() && b.lastRefill == now
    ensures Refilled(b, now) == b.tokens
  {
    assert ElapsedMicros(now, now) == 0;
    assert Refill(b.rate, 0) == 0;
  }

  /** A burst: of calls at one instant a fresh bucket grants the first `ops`, and uses them up. */
  lemma {:induction false} BurstDrains(ops: nat, times: seq<nat>)
    requires ops * MICROTOKENS_PER_OP <= U64_MAX && |times| <= ops && forall k | 0 <= k < |times| :: times[k] == 0
    ensures AfterCalls(NewBucket(ops, 0), times).tokens == (ops - |times|) * MICROTOKENS_PER_OP
    ensures GrantedFrom(NewBucket(ops, 0), times, 0) == |times|
  {
    hide Refilled;
    var b := NewBucket(ops, 0);
    if times != [] {
      BurstDrains(ops, times[..|times| - 1]);
      RunKeepsValid(b, times[..|times| - 1]);
      NothingElapsed(AfterCalls(b, times[..|times| - 1]), 0);
    }
  }

  const WRAPPING_OPS := 0x800_0000_0000

  /** Where the cast wraps, a request can be refused long after the last one: with 2^43 operations
      per second and an emptied bucket, a pause of 2^21 microseconds refills nothing at all. */
  lemma WrappedRefillRefuses(burst: seq<nat>)
    requires |burst| == WRAPPING_OPS && forall k | 0 <= k < |burst| :: burst[k] == 0
    ensures !Grants(AfterCalls(NewBucket(WRAPPING_OPS, 0), burst), 0x20_0000 * 1000)
    ensures CeilDiv(1_000_000, WRAPPING_OPS) * 1000 <= 0x20_0000 * 1000
  {
    BurstDrains(WRAPPING_OPS, burst);
    var b := NewBucket(WRAPPING_OPS, 0);
    RunKeepsValid(b, burst);
    assert ElapsedMicros(0, 0x20_0000 * 1000) == 0x20_0000;
    assert Refill(b.rate, 0x20_0000) == 0;
  }

  // ---------------------------------------------------------------------------
  // Exactly which gaps are safe
  // ---------------------------------------------------------------------------

  /** A run of calls on a fresh bucket that leaves so many tokens. */
  ghost predicate Leaves(ops: nat, times: seq<nat>, tokens: nat) {
    times != [] && Ordered(0, times) && AfterCalls(NewBucket(ops, 0), times).tokens == tokens
  }

  lemma OneMoreCall(ops: nat, times: seq<nat>, now: nat)
    requires times != [] && Ordered(0, times) && times[|times| - 1] <= now
    ensures Ordered(0, times + [now])
    ensures AfterCalls(NewBucket(ops, 0), times).lastRefill == times[|times| - 1]
    ensures AfterCalls(NewBucket(ops, 0), times).Valid()
    ensures AfterCalls(NewBucket(ops, 0), times).rate == NewBucket(ops, 0).rate
    ensures AfterCalls(NewBucket(ops, 0), times).capacity == NewBucket(ops, 0).capacity
    ensures AfterCalls(NewBucket(ops, 0), times + [now]) == Consume(AfterCalls(NewBucket(ops, 0), times), now)
  {
    RunKeepsValid(NewBucket(ops, 0), times);
    assert (times + [now])[..|times|] == times;
  }

  lemma TakeOne(x: nat)
    requires MICROTOKENS_PER_OP <= x
    ensures (x - MICROTOKENS_PER_OP) % MICROTOKENS_PER_OP == x % MICROTOKENS_PER_OP
  {
  }

  /** Calls at one instant use up every whole operation. */
  lemma {:induction false} Drain(ops: nat, times: seq<nat>, tokens: nat) returns (drained: seq<nat>)
    requires Leaves(ops, times, tokens)
    ensures Leaves(ops, drained, tokens % MICROTOKENS_PER_OP) && drained[|drained| - 1] == times[|times| - 1]
    decreases tokens
  {
    hide Refilled;
    drained := times;
    if tokens >= MICROTOKENS_PER_OP {
      var now := times[|times| - 1];
      OneMoreCall(ops, times, now);
      NothingElapsed(AfterCalls(NewBucket(ops, 0), times), now);
      TakeOne(tokens);
      drained := Drain(ops, times + [now], tokens - MICROTOKENS_PER_OP);
    }
  }

  lemma DrainFresh(ops: nat) returns (drained: seq<nat>)
    requires 0 < ops <= U64_MAX
    ensures Leaves(ops, drained, NewBucket(ops, 0).capacity % MICROTOKENS_PER_OP)
  {
    hide Refilled;
    var b := NewBucket(ops, 0);
    assert [0][..0] == [] && AfterCalls(b, []) == b;
    NothingElapsed(b, 0);
    TakeOne(b.capacity);
    drained := Drain(ops, [0], b.capacity - MICROTOKENS_PER_OP);
  }

  /** What one microsecond refills at the saturated rate, and what the full bucket leaves over. */
  const MAX_REFILL := 18_446_744_073_709
  const MAX_REST := 551_615

  lemma MicrosecondRefill(ops: nat, b: Bucket, now: nat)
    requires ops * MICROTOKENS_PER_OP > U64_MAX && b.Valid() && b.rate == b.capacity == NewBucket(ops, 0).rate
    requires b.tokens < MICROTOKENS_PER_OP && now == b.lastRefill + 1000
    ensures Refilled(b, now) == b.tokens + MAX_REFILL
  {
    assert ElapsedMicros(b.lastRefill, now) == 1;
    assert Refill(U64_MAX, 1) == MAX_REFILL;
  }

  lemma NextLevel(j: nat, level: nat)
    requires level == (MAX_REST + j * MAX_REFILL) % MICROTOKENS_PER_OP
    ensures (level + MAX_REFILL) % MICROTOKENS_PER_OP == (MAX_REST + (j + 1) * MAX_REFILL) % MICROTOKENS_PER_OP
  {
    var x := MAX_REST + j * MAX_REFILL;
    assert MAX_REST + (j + 1) * MAX_REFILL == x + MAX_REFILL;
    ModuloAdd(x, MAX_REFILL);
  }

  lemma ModuloAdd(x: nat, y: nat)
    ensures (x % 1_000_000 + y) % 1_000_000 == (x + y) % 1_000_000
  {
  }

  /** At the saturated rate each microsecond shifts the level that is left after draining. */
  lemma {:induction false} ShiftLevel(ops: nat, j: nat) returns (times: seq<nat>)
    requires ops <= U64_MAX && ops * MICROTOKENS_PER_OP > U64_MAX
    ensures Leaves(ops, times, (MAX_REST + j * MAX_REFILL) % MICROTOKENS_PER_OP)
  {
    hide Refilled;
    if j == 0 {
      times := DrainFresh(ops);
    } else {
      times := ShiftLevel(ops, j - 1);
      var level := (MAX_REST + (j - 1) * MAX_REFILL) % MICROTOKENS_PER_OP;
      var now := times[|times| - 1] + 1000;
      OneMoreCall(ops, times, now);
      MicrosecondRefill(ops, AfterCalls(NewBucket(ops, 0), times), now);
      NextLevel(j - 1, level);
      TakeOne(level + MAX_REFILL);
      times := Drain(ops, times + [now], level + MAX_REFILL - MICROTOKENS_PER_OP);
    }
  }

  /** Every bucket can be emptied to the last microtoken. */
  lemma EmptyRun(ops: nat) returns (times: seq<nat>)
    requires 0 < ops <= U64_MAX
    ensures Leaves(ops, times, 0)
  {
    hide Leaves;
    if ops * MICROTOKENS_PER_OP > U64_MAX {
      times := ShiftLevel(ops, 529_765);
      assert (MAX_REST + 529_765 * MAX_REFILL) % MICROTOKENS_PER_OP == 0;
    } else {
      times := DrainFresh(ops);
    }
  }

  /** In every run on a fresh bucket a call that comes `gap` after the one before it is granted. */
  ghost predicate GapIsSafe(ops: nat, gap: nat) {
    forall times: seq<nat> | times != [] && Ordered(0, times) ::
      Grants(AfterCalls(NewBucket(ops, 0), times), times[|times| - 1] + gap)
  }

  /** A gap is safe, whatever was called before it, exactly if the refill as cut to 64 bits covers one
      operation. */
  lemma SafeGapExactly(ops: nat, gap: nat)
    requires 0 < ops <= U64_MAX
    ensures GapIsSafe(ops, gap) <==> MICROTOKENS_PER_OP <= Refill(NewBucket(ops, 0).rate, ElapsedMicros(0, gap))
  {
    hide Refill;
    var b := NewBucket(ops, 0);
    if MICROTOKENS_PER_OP <= Refill(b.rate, ElapsedMicros(0, gap)) {
      forall times: seq<nat> | times != [] && Ordered(0, times)
        ensures Grants(AfterCalls(b, times), times[|times| - 1] + gap)
      {
        RunKeepsValid(b, times);
      }
    } else {
      var times := EmptyRun(ops);
      RunKeepsValid(b, times);
      assert !Grants(AfterCalls(b, times), times[|times| - 1] + gap);
    }
  }

  // ---------------------------------------------------------------------------
  // What polling costs
  // ---------------------------------------------------------------------------

  function LastCall(b: Bucket, times: seq<nat>): nat {
    if times == [] then b.lastRefill else times[|times| - 1]
  }

  /** All refills of a run, before the cap. */
  function Yield(b: Bucket, times: seq<nat>): nat {
    if times == [] then 0
    else
      var n := |times| - 1;
      Yield(b, times[..n]) + Refill(b.rate, ElapsedMicros(LastCall(b, times[..n]), times[n]))
  }

  /** The whole microseconds between the calls of a run. */
  function WholeMicros(b: Bucket, times: seq<nat>): nat {
    if times == [] then 0
    else
      var n := |times| - 1;
      WholeMicros(b, times[..n]) + ElapsedMicros(LastCall(b, times[..n]), times[n])
  }

  /** What is granted and what is left amount at least to the tokens at first and all refills, or to a
      full bucket. */
  lemma {:induction false} NothingElseIsLost(b: Bucket, times: seq<nat>)
    requires b.Valid() && Ordered(b.lastRefill, times)
    ensures AfterCalls(b, times).tokens + GrantedFrom(b, times, 0) * MICROTOKENS_PER_OP
            >= Min(b.tokens + Yield(b, times), b.capacity)
  {
    hide Refill, ElapsedMicros;
    if times != [] {
      var n := |times| - 1;
      NothingElseIsLost(b, times[..n]);
      RunKeepsValid(b, times[..n]);
    }
  }

  /** The time from the call before to call k. */
  function Gap(b: Bucket, times: seq<nat>, k: nat): nat
    requires k < |times|
  {
    var last := LastCall(b, times[..k]);
    if last <= times[k] then times[k] - last else 0
  }

  ghost predicate NoGapWraps(b: Bucket, times: seq<nat>) {
    forall k | 0 <= k < |times| :: NoWrap(b.rate, Gap(b, times, k))
  }

  lemma PrefixGap(b: Bucket, times: seq<nat>, n: nat, k: nat)
    requires k < n <= |times|
    ensures Gap(b, times[..n], k) == Gap(b, times, k)
  {
    assert times[..n][..k] == times[..k];
  }

  lemma GapYield(rate: nat, last: nat, now: nat)
    requires last <= now && NoWrap(rate, now - last)
    ensures rate * ElapsedMicros(last, now) <= 1_000_000 * Refill(rate, ElapsedMicros(last, now)) + 999_999
    ensures now - last <= 1000 * ElapsedMicros(last, now) + 999
  {
    var micros := (now - last) / 1000;
    assert ElapsedMicros(last, now) == micros;
    RefillUncut(rate, micros);
  }

  /** Each call loses less than a microsecond and less than a microtoken, and no more. */
  lemma {:induction false} YieldLowerBound(b: Bucket, times: seq<nat>)
    requires Ordered(b.lastRefill, times) && NoGapWraps(b, times)
    ensures b.rate * WholeMicros(b, times) <= 1_000_000 * Yield(b, times) + 999_999 * |times|
    ensures LastCall(b, times) - b.lastRefill <= 1000 * WholeMicros(b, times) + 999 * |times|
  {
    hide Refill, ElapsedMicros, NoWrap, Gap;
    if times != [] {
      var n := |times| - 1;
      var prefix := times[..n];
      forall k | 0 <= k < n
        ensures NoWrap(b.rate, Gap(b, prefix, k))
      {
        PrefixGap(b, times, n, k);
        assert NoWrap(b.rate, Gap(b, times, k));
      }
      YieldLowerBound(b, prefix);
      LastGap(b, times);
      GapYield(b.rate, LastCall(b, prefix), times[n]);
      Distribute(b.rate, WholeMicros(b, prefix), ElapsedMicros(LastCall(b, prefix), times[n]));
    }
  }

  lemma LastGap(b: Bucket, times: seq<nat>)
    requires times != [] && Ordered(b.lastRefill, times)
    ensures var n := |times| - 1;
            LastCall(b, times[..n]) <= times[n] && Gap(b, times, n) == times[n] - LastCall(b, times[..n])
  {
  }

  lemma Distribute(a: nat, x: nat, y: nat)
    ensures a * (x + y) == a * x + a * y
  {
  }

  /** Microtokens are lost only at the saturated rate: below it a run yields exactly the rate times its
      whole microseconds. */
  lemma {:induction false} YieldExact(ops: nat, created: nat, times: seq<nat>)
    requires ops * MICROTOKENS_PER_OP <= U64_MAX && Ordered(created, times)
    requires NoGapWraps(NewBucket(ops, created), times)
    ensures Yield(NewBucket(ops, created), times) == ops * WholeMicros(NewBucket(ops, created), times)
  {
    hide Refill, ElapsedMicros, NoWrap, Gap;
    var b := NewBucket(ops, created);
    if times != [] {
      var n := |times| - 1;
      var prefix := times[..n];
      forall k | 0 <= k < n
        ensures NoWrap(b.rate, Gap(b, prefix, k))
      {
        PrefixGap(b, times, n, k);
        assert NoWrap(b.rate, Gap(b, times, k));
      }
      YieldExact(ops, created, prefix);
      LastGap(b, times);
      assert NoWrap(b.rate, Gap(b, times, n));
      GapYieldExact(ops, LastCall(b, prefix), times[n]);
      Distribute(ops, WholeMicros(b, prefix), ElapsedMicros(LastCall(b, prefix), times[n]));
    }
  }

  lemma GapYieldExact(ops: nat, last: nat, now: nat)
    requires last <= now && NoWrap(ops * MICROTOKENS_PER_OP, now - last)
    ensures Refill(ops * MICROTOKENS_PER_OP, ElapsedMicros(last, now)) == ops * ElapsedMicros(last, now)
  {
    var micros := (now - last) / 1000;
    assert ElapsedMicros(last, now) == micros;
    RefillUncut(ops * MICROTOKENS_PER_OP, micros);
    WholeRefill(ops, micros);
  }

  /** The microsecond per call is really lost: a bucket without a whole token that is polled less than a
      microsecond apart is never refilled, however long it is polled. */
  lemma {:induction false} PollingStarves(b: Bucket, times: seq<nat>)
    requires b.Valid() && b.tokens < MICROTOKENS_PER_OP && Ordered(b.lastRefill, times)
    requires forall k | 0 <= k < |times| :: Gap(b, times, k) < 1000
    ensures AfterCalls(b, times).tokens == b.tokens && GrantedFrom(b, times, 0) == 0
  {
    if times != [] {
      var n := |times| - 1;
      var prefix := times[..n];
      forall k | 0 <= k < n
        ensures Gap(b, prefix, k) < 1000
      {
        PrefixGap(b, times, n, k);
        assert Gap(b, times, k) < 1000;
      }
      PollingStarves(b, prefix);
      RunKeepsValid(b, prefix);
      LastGap(b, times);
      TooSoon(AfterCalls(b, prefix), times[n]);
    }
  }

  lemma TooSoon(b: Bucket, now: nat)
    requires b.Valid() && b.lastRefill <= now < b.lastRefill + 1000
    ensures Refilled(b, now) == b.tokens
  {
    assert ElapsedMicros(b.lastRefill, now) == 0;
    assert Refill(b.rate, 0) == 0;
  }
}
