/** The continuous entropy health tests of sections 4.4.1 and 4.4.2 of NIST SP 800-90B. */
module EntropyHealth {
  import opened Base

  const REPETITION_COUNT_CUTOFF := 41
  const ADAPTIVE_PROPORTION_WINDOW := 1024
  const ADAPTIVE_PROPORTION_CUTOFF := 670
  const STARTUP_SAMPLES := 1024

  // ---------------------------------------------------------------------------
  // What the tests mean on a whole stream
  // ---------------------------------------------------------------------------

  /** The samples up to k end in 41 equal ones. */
  ghost predicate RepeatedAt(s: seq<byte>, k: nat)
    requires k < |s|
  {
    REPETITION_COUNT_CUTOFF <= k + 1 && forall i | k + 1 - REPETITION_COUNT_CUTOFF <= i <= k :: s[i] == s[k]
  }

  /** Where the aligned window that holds sample k starts. */
  function WindowStart(k: nat): nat {
    k - k % ADAPTIVE_PROPORTION_WINDOW
  }

  /** The aligned window of sample k, as far as it reaches, holds its first sample 670 times. */
  ghost predicate BiasedAt(s: seq<byte>, k: nat)
    requires k < |s|
  {
    ADAPTIVE_PROPORTION_CUTOFF <= multiset(s[WindowStart(k)..k + 1])[s[WindowStart(k)]]
  }

  ghost predicate RejectedAt(s: seq<byte>, k: nat)
    requires k < |s|
  {
    RepeatedAt(s, k) || BiasedAt(s, k)
  }

  ghost predicate HealthyStream(s: seq<byte>) {
    forall k | 0 <= k < |s| :: !RejectedAt(s, k)
  }

  // ---------------------------------------------------------------------------
  // The monitor
  // ---------------------------------------------------------------------------

  datatype Monitor = Monitor(
    lastSample: byte,
    repetitionCount: nat,
    firstSampleSeen: bool,
    window: seq<byte>,
    windowPos: nat,
    windowValue: byte,
    windowCount: nat,
    windowInitialized: bool,
    startupPassed: bool)

  /** `OutOfBounds` is the panic of an index behind the window. */
  datatype Verdict = Healthy | Failed | OutOfBounds

  datatype Step = Step(monitor: Monitor, verdict: Verdict)

  function RepetitionCountTest(m: Monitor, sample: byte): Step {
    if !m.firstSampleSeen then
      Step(m.(lastSample := sample, repetitionCount := 1, firstSampleSeen := true), Healthy)
    else if sample == m.lastSample then
      Step(m.(repetitionCount := m.repetitionCount + 1),
           if m.repetitionCount + 1 >= REPETITION_COUNT_CUTOFF then Failed else Healthy)
    else
      Step(m.(lastSample := sample, repetitionCount := 1), Healthy)
  }

  function AdaptiveProportionTest(m: Monitor, sample: byte): Step
    requires |m.window| == ADAPTIVE_PROPORTION_WINDOW
  {
    if !m.windowInitialized then
      Step(m.(windowValue := sample, windowCount := 1, window := m.window[0 := sample], windowPos := 1,
              windowInitialized := true), Healthy)
    else if m.windowPos >= ADAPTIVE_PROPORTION_WINDOW then
      Step(m, OutOfBounds)
    else
      var m' := m.(window := m.window[m.windowPos := sample],
                   windowPos := m.windowPos + 1,
                   windowCount := if sample == m.windowValue then m.windowCount + 1 else m.windowCount);
      if m'.windowCount >= ADAPTIVE_PROPORTION_CUTOFF then Step(m', Failed)
      else if m'.windowPos >= ADAPTIVE_PROPORTION_WINDOW then
        Step(m'.(windowPos := 0, windowInitialized := false), Healthy)
      else Step(m', Healthy)
  }

  function Feed(m: Monitor, sample: byte): (r: Step)
    requires |m.window| == ADAPTIVE_PROPORTION_WINDOW
    ensures |r.monitor.window| == ADAPTIVE_PROPORTION_WINDOW && r.monitor.startupPassed == m.startupPassed
  {
    var r := RepetitionCountTest(m, sample);
    if r.verdict.Healthy? then AdaptiveProportionTest(r.monitor, sample) else r
  }

  /** Samples in order, up to the first one that is not accepted. */
  function FeedAll(m: Monitor, samples: seq<byte>): (r: Step)
    requires |m.window| == ADAPTIVE_PROPORTION_WINDOW
    ensures |r.monitor.window| == ADAPTIVE_PROPORTION_WINDOW && r.monitor.startupPassed == m.startupPassed
  {
    if samples == [] then Step(m, Healthy)
    else
      var r := FeedAll(m, samples[..|samples| - 1]);
      if r.verdict.Healthy? then Feed(r.monitor, samples[|samples| - 1]) else r
  }

  function FeedBytes(m: Monitor, samples: seq<byte>): Step
    requires |m.window| == ADAPTIVE_PROPORTION_WINDOW
  {
    if m.startupPassed then FeedAll(m, samples) else Step(m, Failed)
  }

  function Reset(m: Monitor): Monitor {
    m.(repetitionCount := 0, firstSampleSeen := false, windowPos := 0, windowInitialized := false)
  }

  function Flagged(m: Monitor): Monitor {
    m.(startupPassed := true)
  }

  function Startup(m: Monitor, samples: seq<byte>): Step
    requires |m.window| == ADAPTIVE_PROPORTION_WINDOW
  {
    if |samples| < STARTUP_SAMPLES then Step(m, Failed)
    else
      var r := FeedAll(Reset(m), samples[..STARTUP_SAMPLES]);
      if r.verdict.Healthy? then Step(Flagged(r.monitor), Healthy) else r
  }

  class EntropyHealthMonitor {
    var lastSample: byte
    var repetitionCount: nat
    var firstSampleSeen: bool
    const window: array<byte>
    var windowPos: nat
    var windowValue: byte
    var windowCount: nat
    var windowInitialized: bool
    var startupPassed: bool

    ghost predicate Valid() {
      window.Length == ADAPTIVE_PROPORTION_WINDOW
    }

    function Value(): Monitor
      reads this, window
    {
      Monitor(lastSample, repetitionCount, firstSampleSeen, window[..], windowPos, windowValue, windowCount,
              windowInitialized, startupPassed)
    }

    constructor ()
      ensures Valid() && fresh(window) && !startupPassed && Value() == Reset(Value())
    {
      lastSample, repetitionCount, firstSampleSeen := 0, 0, false;
      window := new byte[ADAPTIVE_PROPORTION_WINDOW](_ => 0);
      windowPos, windowValue, windowCount, windowInitialized := 0, 0, 0, false;
      startupPassed := false;
    }

    method TestRepetition(sample: byte) returns (verdict: Verdict)
      requires Valid()
      modifies this
      ensures Step(Value(), verdict) == RepetitionCountTest(old(Value()), sample)
    {
      if !firstSampleSeen {
        lastSample, repetitionCount, firstSampleSeen := sample, 1, true;
        return Healthy;
      }
      if sample == lastSample {
        repetitionCount := repetitionCount + 1;
        if repetitionCount >= REPETITION_COUNT_CUTOFF {
          return Failed;
        }
      } else {
        lastSample, repetitionCount := sample, 1;
      }
      return Healthy;
    }

    method TestProportion(sample: byte) returns (verdict: Verdict)
      requires Valid()
      modifies this, window
      ensures Step(Value(), verdict) == AdaptiveProportionTest(old(Value()), sample)
    {
      if !windowInitialized {
        windowValue, windowCount := sample, 1;
        window[0] := sample;
        windowPos, windowInitialized := 1, true;
        return Healthy;
      }
      if windowPos >= window.Length {
        return OutOfBounds;
      }
      window[windowPos] := sample;
      windowPos := windowPos + 1;
      if sample == windowValue {
        windowCount := windowCount + 1;
      }
      if windowCount >= ADAPTIVE_PROPORTION_CUTOFF {
        return Failed;
      }
      if windowPos >= ADAPTIVE_PROPORTION_WINDOW {
        windowPos, windowInitialized := 0, false;
      }
      return Healthy;
    }

    method FeedSampleUnchecked(sample: byte) returns (verdict: Verdict)
      requires Valid()
      modifies this, window
      ensures Step(Value(), verdict) == Feed(old(Value()), sample)
    {
      verdict := TestRepetition(sample);
      if verdict.Healthy? {
        verdict := TestProportion(sample);
      }
    }

    method FeedSamples(samples: seq<byte>) returns (verdict: Verdict)
      requires Valid()
      modifies this, window
      ensures Step(Value(), verdict) == FeedAll(old(Value()), samples)
    {
      verdict := Healthy;
      var i := 0;
      while i < |samples|
        invariant i <= |samples| && verdict.Healthy?
        invariant Step(Value(), Healthy) == FeedAll(old(Value()), samples[..i])
      {
        verdict := FeedSampleUnchecked(samples[i]);
        assert samples[..i + 1][..i] == samples[..i];
        if !verdict.Healthy? {
          StopsThere(old(Value()), samples, i + 1);
          return;
        }
        i := i + 1;
      }
      assert samples[..i] == samples;
    }

    method Observe(samples: seq<byte>) returns (verdict: Verdict)
      requires Valid()
      modifies this, window
      ensures Step(Value(), verdict) == FeedBytes(old(Value()), samples)
    {
      if !startupPassed {
        return Failed;
      }
      verdict := FeedSamples(samples);
    }

    method StartupTest(samples: seq<byte>) returns (verdict: Verdict)
      requires Valid()
      modifies this, window
      ensures Step(Value(), verdict) == Startup(old(Value()), samples)
    {
      if |samples| < STARTUP_SAMPLES {
        return Failed;
      }
      repetitionCount, firstSampleSeen, windowPos, windowInitialized := 0, false, 0, false;
      verdict := FeedSamples(samples[..STARTUP_SAMPLES]);
      if verdict.Healthy? {
        startupPassed := true;
      }
    }
  }

  lemma {:induction false} StopsThere(m: Monitor, samples: seq<byte>, i: nat)
    requires |m.window| == ADAPTIVE_PROPORTION_WINDOW && i <= |samples|
    requires !FeedAll(m, samples[..i]).verdict.Healthy?
    ensures FeedAll(m, samples) == FeedAll(m, samples[..i])
  {
    if i < |samples| {
      assert samples[..|samples| - 1][..i] == samples[..i];
      StopsThere(m, samples[..|samples| - 1], i);
    } else {
      assert samples[..i] == samples;
    }
  }

  // ---------------------------------------------------------------------------
  // The monitor against the meaning
  // ---------------------------------------------------------------------------

  /** The length of the run of equal samples at the end. */
  function RunLength(s: seq<byte>): nat {
    if |s| <= 1 then |s|
    else if s[|s| - 1] == s[|s| - 2] then RunLength(s[..|s| - 1]) + 1
    else 1
  }

  lemma {:induction false} RunLengthMeaning(s: seq<byte>, c: nat)
    requires 0 < c && s != []
    ensures c <= RunLength(s) <==> c <= |s| && forall i | |s| - c <= i < |s| :: s[i] == s[|s| - 1]
  {
    var n := |s| - 1;
    if n > 0 && c > 1 {
      RunLengthMeaning(s[..n], c - 1);
      if s[n] == s[n - 1] && c <= |s| {
        assert (forall i | n - (c - 1) <= i < n :: s[..n][i] == s[..n][n - 1])
          <==> (forall i | |s| - c <= i < |s| :: s[i] == s[n]);
      } else if c <= |s| {
        assert |s| - c <= n - 1 < |s|;
      }
    }
    if c == 1 {
      RunIsPositive(s);
    }
  }

  lemma {:induction false} RunIsPositive(s: seq<byte>)
    requires s != []
    ensures 1 <= RunLength(s) <= |s|
  {
    if |s| > 1 {
      RunIsPositive(s[..|s| - 1]);
    }
  }

  function Filled(n: nat): nat {
    n % ADAPTIVE_PROPORTION_WINDOW
  }

  /** The samples of the window that is not yet full. */
  function Current(s: seq<byte>): seq<byte> {
    s[|s| - Filled(|s|)..]
  }

  /** The last window failed on its very last sample; it is not left any more, and the next sample
      would go behind its end. */
  ghost predicate Jammed(w: seq<byte>) {
    w != [] && Filled(|w|) == 0 && BiasedAt(w, |w| - 1)
  }

  ghost function OpenWindow(w: seq<byte>): seq<byte> {
    if Jammed(w) then w[WindowStart(|w| - 1)..] else Current(w)
  }

  ghost predicate TracksRun(m: Monitor, s: seq<byte>) {
    && m.firstSampleSeen == (s != [])
    && (s != [] ==> m.lastSample == s[|s| - 1] && m.repetitionCount == RunLength(s))
  }

  ghost predicate HoldsWindow(m: Monitor, open: seq<byte>) {
    && |m.window| == ADAPTIVE_PROPORTION_WINDOW
    && m.windowPos == |open| <= ADAPTIVE_PROPORTION_WINDOW
    && m.windowInitialized == (open != [])
    && (open != [] ==>
          && m.windowValue == open[0]
          && m.windowCount == multiset(open)[open[0]]
          && m.window[..|open|] == open)
  }

  ghost predicate TracksWindow(m: Monitor, w: seq<byte>) {
    HoldsWindow(m, OpenWindow(w))
  }

  lemma RepetitionTracks(m: Monitor, s: seq<byte>, x: byte)
    requires TracksRun(m, s)
    ensures TracksRun(RepetitionCountTest(m, x).monitor, s + [x])
    ensures RepetitionCountTest(m, x).verdict == if RepeatedAt(s + [x], |s|) then Failed else Healthy
  {
    var t := s + [x];
    assert t[..|s|] == s;
    RunLengthMeaning(t, REPETITION_COUNT_CUTOFF);
    RunIsPositive(t);
    assert RepeatedAt(t, |s|) <==> REPETITION_COUNT_CUTOFF <= RunLength(t);
    if s != [] && x != s[|s| - 1] {
      assert RunLength(t) == 1;
    }
  }

  lemma NextFilled(n: nat)
    ensures Filled(n) < ADAPTIVE_PROPORTION_WINDOW && Filled(n) <= n && WindowStart(n) == n - Filled(n)
    ensures Filled(n + 1) == if Filled(n) + 1 == ADAPTIVE_PROPORTION_WINDOW then 0 else Filled(n) + 1
  {
  }

  lemma WindowGrows(s: seq<byte>, x: byte)
    ensures |Current(s)| < ADAPTIVE_PROPORTION_WINDOW
    ensures (s + [x])[WindowStart(|s|)..] == (s + [x])[WindowStart(|s|)..|s| + 1] == Current(s) + [x]
    ensures Current(s + [x]) == if |Current(s)| + 1 == ADAPTIVE_PROPORTION_WINDOW then [] else Current(s) + [x]
    ensures Filled(|s| + 1) == 0 <==> |Current(s)| + 1 == ADAPTIVE_PROPORTION_WINDOW
  {
    NextFilled(|s|);
  }

  lemma BiasMeaning(s: seq<byte>, x: byte)
    ensures var grown := Current(s) + [x];
            BiasedAt(s + [x], |s|) <==> ADAPTIVE_PROPORTION_CUTOFF <= multiset(grown)[grown[0]]
  {
    WindowGrows(s, x);
    NextFilled(|s|);
    assert (s + [x])[WindowStart(|s|)] == (s + [x])[WindowStart(|s|)..|s| + 1][0];
  }

  lemma OpenGrows(w: seq<byte>, x: byte)
    ensures var grown := Current(w) + [x];
            var full := |grown| == ADAPTIVE_PROPORTION_WINDOW;
            OpenWindow(w + [x]) == if full && !BiasedAt(w + [x], |w|) then [] else grown
  {
    hide BiasedAt, WindowStart, Filled, Current;
    WindowGrows(w, x);
  }

  lemma JammedIsFull(w: seq<byte>)
    requires Jammed(w)
    ensures |OpenWindow(w)| == ADAPTIVE_PROPORTION_WINDOW
  {
    NextFilled(|w| - 1);
  }

  /** What a window in progress makes of one more sample. */
  lemma ProportionStep(m: Monitor, open: seq<byte>, x: byte)
    requires |open| < ADAPTIVE_PROPORTION_WINDOW && HoldsWindow(m, open)
    ensures var r, grown := AdaptiveProportionTest(m, x), open + [x];
            var biased := multiset(grown)[grown[0]] >= ADAPTIVE_PROPORTION_CUTOFF;
            var full := |grown| == ADAPTIVE_PROPORTION_WINDOW;
            && (r.verdict == if biased then Failed else Healthy)
            && HoldsWindow(r.monitor, if full && !biased then [] else grown)
  {
    var grown := open + [x];
    assert multiset(grown) == multiset(open) + multiset{x};
    if open == [] {
      assert grown == [x];
    } else {
      assert grown[0] == open[0];
    }
  }

  lemma ProportionTracks(m: Monitor, w: seq<byte>, x: byte)
    requires TracksWindow(m, w)
    ensures var r := AdaptiveProportionTest(m, x);
            && (r.verdict == if Jammed(w) then OutOfBounds else if BiasedAt(w + [x], |w|) then Failed else Healthy)
            && TracksWindow(r.monitor, if Jammed(w) then w else w + [x])
  {
    hide Current, WindowStart, Filled, BiasedAt, Jammed;
    if Jammed(w) {
      JammedIsFull(w);
    } else {
      hide AdaptiveProportionTest, HoldsWindow;
      WindowGrows(w, x);
      BiasMeaning(w, x);
      OpenGrows(w, x);
      ProportionStep(m, Current(w), x);
    }
  }

  // ---------------------------------------------------------------------------
  // Verdicts from the streams alone
  // ---------------------------------------------------------------------------

  /** The samples each test has been given since the reset. The second test is not given the samples
      that the first one refuses, nor those that would go behind the end of its window. */
  datatype History = History(tested: seq<byte>, windowed: seq<byte>)

  const NONE := History([], [])

  ghost function Judge(h: History, x: byte): Verdict {
    if RepeatedAt(h.tested + [x], |h.tested|) then Failed
    else if Jammed(h.windowed) then OutOfBounds
    else if BiasedAt(h.windowed + [x], |h.windowed|) then Failed
    else Healthy
  }

  ghost function Noted(h: History, x: byte): History {
    var reaches := !RepeatedAt(h.tested + [x], |h.tested|) && !Jammed(h.windowed);
    History(h.tested + [x], if reaches then h.windowed + [x] else h.windowed)
  }

  datatype Judgement = Judgement(history: History, verdict: Verdict)

  ghost function JudgeAll(h: History, xs: seq<byte>): Judgement {
    if xs == [] then Judgement(h, Healthy)
    else
      var j := JudgeAll(h, xs[..|xs| - 1]);
      if j.verdict.Healthy? then Judgement(Noted(j.history, xs[|xs| - 1]), Judge(j.history, xs[|xs| - 1])) else j
  }

  ghost predicate Tracks(m: Monitor, h: History) {
    TracksRun(m, h.tested) && TracksWindow(m, h.windowed)
  }

  lemma WindowLength(m: Monitor, w: seq<byte>)
    requires TracksWindow(m, w)
    ensures |m.window| == ADAPTIVE_PROPORTION_WINDOW
  {
  }

  lemma FeedTracks(m: Monitor, h: History, x: byte)
    requires Tracks(m, h)
    ensures |m.window| == ADAPTIVE_PROPORTION_WINDOW
    ensures Feed(m, x).verdict == Judge(h, x) && Tracks(Feed(m, x).monitor, Noted(h, x))
  {
    hide RepeatedAt, BiasedAt, OpenWindow, RunLength, Jammed;
    RepetitionTracks(m, h.tested, x);
    var r := RepetitionCountTest(m, x);
    assert TracksWindow(r.monitor, h.windowed);
    if r.verdict.Healthy? {
      ProportionTracks(r.monitor, h.windowed, x);
      RunUntouched(r.monitor, h.tested + [x], x);
    }
  }

  lemma RunUntouched(m: Monitor, s: seq<byte>, x: byte)
    requires TracksRun(m, s) && |m.window| == ADAPTIVE_PROPORTION_WINDOW
    ensures TracksRun(AdaptiveProportionTest(m, x).monitor, s)
  {
    hide RunLength;
  }

  /** The monitor's verdict on any bytes is the one its streams give, and it goes on tracking them,
      failures included. */
  lemma {:induction false} FeedAllTracks(m: Monitor, h: History, xs: seq<byte>)
    requires Tracks(m, h)
    ensures |m.window| == ADAPTIVE_PROPORTION_WINDOW
    ensures FeedAll(m, xs).verdict == JudgeAll(h, xs).verdict
    ensures Tracks(FeedAll(m, xs).monitor, JudgeAll(h, xs).history)
  {
    WindowLength(m, h.windowed);
    hide Tracks, Feed, Judge, Noted;
    if xs != [] {
      var n := |xs| - 1;
      FeedAllTracks(m, h, xs[..n]);
      if JudgeAll(h, xs[..n]).verdict.Healthy? {
        FeedTracks(FeedAll(m, xs[..n]).monitor, JudgeAll(h, xs[..n]).history, xs[n]);
      }
    }
  }

  /** None of the bytes, put behind what the tests were given before, is at a rejected position. */
  ghost predicate Clean(h: History, xs: seq<byte>) {
    && (forall k | |h.tested| <= k < |h.tested + xs| :: !RepeatedAt(h.tested + xs, k))
    && (forall k | |h.windowed| <= k < |h.windowed + xs| :: !BiasedAt(h.windowed + xs, k))
  }

  lemma PrefixRepeated(s: seq<byte>, n: nat, k: nat)
    requires k < n <= |s|
    ensures RepeatedAt(s[..n], k) == RepeatedAt(s, k)
  {
  }

  lemma PrefixBiased(s: seq<byte>, n: nat, k: nat)
    requires k < n <= |s|
    ensures BiasedAt(s[..n], k) == BiasedAt(s, k)
  {
    hide WindowStart;
    NextFilled(k);
    assert s[..n][WindowStart(k)..k + 1] == s[WindowStart(k)..k + 1];
  }

  lemma CleanPrefix(h: History, xs: seq<byte>)
    requires xs != []
    ensures var n := |xs| - 1;
            Clean(h, xs) <==> && Clean(h, xs[..n])
                              && !RepeatedAt(h.tested + xs, |h.tested| + n)
                              && !BiasedAt(h.windowed + xs, |h.windowed| + n)
  {
    hide RepeatedAt, BiasedAt;
    var n := |xs| - 1;
    var r, w := h.tested + xs, h.windowed + xs;
    var r', w' := h.tested + xs[..n], h.windowed + xs[..n];
    assert r[..|r'|] == r' && w[..|w'|] == w';
    forall k | 0 <= k < |r'|
      ensures RepeatedAt(r', k) == RepeatedAt(r, k)
    {
      PrefixRepeated(r, |r'|, k);
    }
    forall k | 0 <= k < |w'|
      ensures BiasedAt(w', k) == BiasedAt(w, k)
    {
      PrefixBiased(w, |w'|, k);
    }
  }

  /** One more byte after bytes that were accepted. */
  lemma JudgedOn(h: History, xs: seq<byte>, before: History, r: seq<byte>, w: seq<byte>)
    requires xs != [] && JudgeAll(h, xs[..|xs| - 1]) == Judgement(before, Healthy)
    requires r == before.tested + [xs[|xs| - 1]] && w == before.windowed + [xs[|xs| - 1]]
    ensures var repeated, jammed := RepeatedAt(r, |before.tested|), Jammed(before.windowed);
            && JudgeAll(h, xs).history == History(r, if repeated || jammed then before.windowed else w)
            && JudgeAll(h, xs).verdict == (if repeated then Failed
                                           else if jammed then OutOfBounds
                                           else if BiasedAt(w, |before.windowed|) then Failed
                                           else Healthy)
  {
    hide RepeatedAt, BiasedAt, Jammed;
  }

  lemma Snoc(a: seq<byte>, xs: seq<byte>)
    requires xs != []
    ensures a + xs[..|xs| - 1] + [xs[|xs| - 1]] == a + xs
  {
  }

  lemma NothingJudged(h: History)
    ensures JudgeAll(h, []) == Judgement(h, Healthy)
  {
  }

  /** Exactly which bytes are accepted, refused, or run behind the end of a jammed window. */
  lemma {:induction false} JudgeAllMeaning(h: History, xs: seq<byte>)
    ensures var j := JudgeAll(h, xs);
            && (j.verdict.Healthy? <==> xs == [] || (!Jammed(h.windowed) && Clean(h, xs)))
            && (j.verdict.OutOfBounds? <==>
                  xs != [] && Jammed(h.windowed) && !RepeatedAt(h.tested + xs, |h.tested|))
            && (j.verdict.Healthy? ==> j.history == History(h.tested + xs, h.windowed + xs))
  {
    hide RepeatedAt, BiasedAt, Clean, Jammed, Judge, Noted, JudgeAll;
    if xs == [] {
      NothingJudged(h);
      assert h.tested + xs == h.tested && h.windowed + xs == h.windowed;
    } else {
      var n := |xs| - 1;
      JudgeAllMeaning(h, xs[..n]);
      CleanPrefix(h, xs);
      if n == 0 {
        EmptyClean(h, xs[..n]);
        assert h.windowed + xs[..n] == h.windowed;
      } else {
        FirstDecides(h, xs);
        if Clean(h, xs[..n]) {
          CleanNotJammed(h, xs[..n]);
        }
      }
      if JudgeAll(h, xs[..n]).verdict.Healthy? {
        Snoc(h.tested, xs);
        Snoc(h.windowed, xs);
        JudgedOn(h, xs, JudgeAll(h, xs[..n]).history, h.tested + xs, h.windowed + xs);
      } else {
        JudgementStops(h, xs, n);
      }
    }
  }

  lemma FirstDecides(h: History, xs: seq<byte>)
    requires |xs| > 1
    ensures RepeatedAt(h.tested + xs, |h.tested|) == RepeatedAt(h.tested + xs[..|xs| - 1], |h.tested|)
  {
    var n := |xs| - 1;
    assert (h.tested + xs)[..|h.tested| + n] == h.tested + xs[..n];
    PrefixRepeated(h.tested + xs, |h.tested| + n, |h.tested|);
  }

  lemma CleanNotJammed(h: History, xs: seq<byte>)
    requires Clean(h, xs) && xs != []
    ensures !Jammed(h.windowed + xs)
  {
    hide BiasedAt, RepeatedAt;
  }

  lemma EmptyClean(h: History, xs: seq<byte>)
    requires xs == []
    ensures Clean(h, xs)
  {
  }

  /** From a reset monitor a stream is accepted exactly if no position in it is rejected, and no
      index ever leaves the window. */
  lemma AcceptsExactly(m: Monitor, s: seq<byte>)
    requires Tracks(m, NONE)
    ensures |m.window| == ADAPTIVE_PROPORTION_WINDOW
    ensures FeedAll(m, s).verdict == if HealthyStream(s) then Healthy else Failed
    ensures HealthyStream(s) ==> Tracks(FeedAll(m, s).monitor, History(s, s))
  {
    hide RepeatedAt, BiasedAt, Tracks;
    FeedAllTracks(m, NONE, s);
    JudgeAllMeaning(NONE, s);
    CleanIsHealthy(NONE, s);
    assert [] + s == s;
  }

  lemma CleanIsHealthy(h: History, xs: seq<byte>)
    requires h.tested == h.windowed && HealthyStream(h.tested)
    ensures Clean(h, xs) <==> HealthyStream(h.tested + xs)
    ensures !Jammed(h.windowed)
  {
    hide RepeatedAt, BiasedAt;
    var s, t := h.tested, h.tested + xs;
    assert t[..|s|] == s;
    forall k | 0 <= k < |s|
      ensures !RejectedAt(t, k)
    {
      assert !RejectedAt(s, k);
      PrefixRepeated(t, |s|, k);
      PrefixBiased(t, |s|, k);
    }
    if s != [] {
      assert !RejectedAt(s, |s| - 1);
    }
    if Clean(h, xs) {
      assert forall k | |s| <= k < |t| :: !RejectedAt(t, k);
    }
    if HealthyStream(t) {
      forall k | |s| <= k < |t|
        ensures !RepeatedAt(t, k) && !BiasedAt(t, k)
      {
        assert !RejectedAt(t, k);
      }
    }
  }

  lemma PrefixRejected(s: seq<byte>, n: nat, k: nat)
    requires k < n <= |s|
    ensures RejectedAt(s[..n], k) == RejectedAt(s, k)
  {
    PrefixRepeated(s, n, k);
    PrefixBiased(s, n, k);
  }

  /** The sample refused is the first whose position the whole stream rejects. */
  lemma FirstRejection(m: Monitor, s: seq<byte>, k: nat)
    requires Tracks(m, NONE) && k < |s|
    requires RejectedAt(s, k) && forall i | 0 <= i < k :: !RejectedAt(s, i)
    ensures |m.window| == ADAPTIVE_PROPORTION_WINDOW
    ensures FeedAll(m, s[..k]).verdict == Healthy
    ensures FeedAll(m, s[..k + 1]).verdict == Failed
    ensures FeedAll(m, s) == FeedAll(m, s[..k + 1])
  {
    hide RejectedAt, Tracks, FeedAll;
    forall i | 0 <= i < k + 1
      ensures RejectedAt(s[..k + 1], i) == RejectedAt(s, i)
      ensures i < k ==> RejectedAt(s[..k], i) == RejectedAt(s, i)
    {
      PrefixRejected(s, k + 1, i);
      if i < k {
        PrefixRejected(s, k, i);
      }
    }
    assert RejectedAt(s[..k + 1], k);
    AcceptsExactly(m, s[..k]);
    AcceptsExactly(m, s[..k + 1]);
    StopsThere(m, s, k + 1);
  }

  // ---------------------------------------------------------------------------
  // After a failure
  // ---------------------------------------------------------------------------

  /** How the first failure leaves the streams. A repetition is the last sample of the one and missing
      from the other; a biased window has the sample in both. */
  lemma FirstFailure(h: History, xs: seq<byte>, k: nat)
    requires k < |xs| && !Jammed(h.windowed) && Clean(h, xs[..k]) && !Clean(h, xs[..k + 1])
    ensures var repeated := RepeatedAt(h.tested + xs[..k + 1], |h.tested| + k);
            JudgeAll(h, xs) == Judgement(
              History(h.tested + xs[..k + 1], h.windowed + xs[..if repeated then k else k + 1]), Failed)
  {
    hide RepeatedAt, BiasedAt, Clean, Jammed, Judge, Noted, JudgeAll;
    var upTo := xs[..k + 1];
    assert upTo[..k] == xs[..k];
    JudgeAllMeaning(h, xs[..k]);
    CleanPrefix(h, upTo);
    if k > 0 {
      CleanNotJammed(h, xs[..k]);
    } else {
      NothingJudged(h);
      assert h.tested + xs[..k] == h.tested && h.windowed + xs[..k] == h.windowed;
    }
    Snoc(h.tested, upTo);
    Snoc(h.windowed, upTo);
    JudgedOn(h, upTo, JudgeAll(h, xs[..k]).history, h.tested + upTo, h.windowed + upTo);
    JudgementStops(h, xs, k + 1);
  }

  lemma {:induction false} JudgementStops(h: History, xs: seq<byte>, n: nat)
    requires n <= |xs| && !JudgeAll(h, xs[..n]).verdict.Healthy?
    ensures JudgeAll(h, xs) == JudgeAll(h, xs[..n])
  {
    if n < |xs| {
      assert xs[..|xs| - 1][..n] == xs[..n];
      JudgementStops(h, xs[..|xs| - 1], n);
    } else {
      assert xs[..n] == xs;
    }
  }

  /** The last sample given to the proportion test made it fail. */
  ghost predicate Spent(w: seq<byte>) {
    w != [] && BiasedAt(w, |w| - 1)
  }

  lemma SpentStep(w: seq<byte>, x: byte)
    requires Spent(w) && !Jammed(w)
    ensures BiasedAt(w + [x], |w|)
  {
    var t := w + [x];
    NextFilled(|w| - 1);
    NextFilled(|w|);
    var a := WindowStart(|w|);
    assert a == WindowStart(|w| - 1);
    assert t[a..|w| + 1] == w[a..|w|] + [x];
    assert t[a] == w[a];
    assert multiset(t[a..|w| + 1]) == multiset(w[a..|w|]) + multiset{x};
  }

  /** A biased window is final: nothing but an empty string is accepted any more. */
  lemma {:induction false} SpentForGood(h: History, xs: seq<byte>)
    requires Spent(h.windowed)
    ensures Spent(JudgeAll(h, xs).history.windowed)
    ensures JudgeAll(h, xs).verdict.Healthy? <==> xs == []
  {
    hide RepeatedAt, BiasedAt, Jammed;
    if xs != [] {
      var j := JudgeAll(h, xs[..|xs| - 1]);
      SpentForGood(h, xs[..|xs| - 1]);
      if j.verdict.Healthy? && !Jammed(j.history.windowed) {
        SpentStep(j.history.windowed, xs[|xs| - 1]);
      }
    }
  }

  // ---------------------------------------------------------------------------
  // Chunks
  // ---------------------------------------------------------------------------

  function Concat(chunks: seq<seq<byte>>): seq<byte> {
    if chunks == [] then [] else Concat(chunks[..|chunks| - 1]) + chunks[|chunks| - 1]
  }

  /** Chunks observed one after the other, up to the first that is not accepted. */
  function ObserveAll(m: Monitor, chunks: seq<seq<byte>>): (r: Step)
    requires |m.window| == ADAPTIVE_PROPORTION_WINDOW
    ensures |r.monitor.window| == ADAPTIVE_PROPORTION_WINDOW && r.monitor.startupPassed == m.startupPassed
  {
    if chunks == [] then Step(m, Healthy)
    else
      var r := ObserveAll(m, chunks[..|chunks| - 1]);
      if r.verdict.Healthy? then FeedBytes(r.monitor, chunks[|chunks| - 1]) else r
  }

  lemma {:induction false} FeedConcat(m: Monitor, a: seq<byte>, b: seq<byte>)
    requires |m.window| == ADAPTIVE_PROPORTION_WINDOW
    ensures FeedAll(m, a + b) ==
            if FeedAll(m, a).verdict.Healthy? then FeedAll(FeedAll(m, a).monitor, b) else FeedAll(m, a)
  {
    if b == [] {
      assert a + b == a;
    } else {
      FeedConcat(m, a, b[..|b| - 1]);
      assert (a + b)[..|a + b| - 1] == a + b[..|b| - 1];
    }
  }

  /** Cutting the stream into chunks changes neither the verdict nor the state. */
  lemma {:induction false} ChunksDoNotMatter(m: Monitor, chunks: seq<seq<byte>>)
    requires |m.window| == ADAPTIVE_PROPORTION_WINDOW && m.startupPassed
    ensures ObserveAll(m, chunks) == FeedAll(m, Concat(chunks))
  {
    if chunks != [] {
      ChunksDoNotMatter(m, chunks[..|chunks| - 1]);
      FeedConcat(m, Concat(chunks[..|chunks| - 1]), chunks[|chunks| - 1]);
    }
  }

  /** Startup test and then any chunks: all are accepted exactly if the stream since startup, taken
      whole, has no rejected position. */
  lemma MonitorRejectsExactly(m: Monitor, startup: seq<byte>, chunks: seq<seq<byte>>)
    requires |m.window| == ADAPTIVE_PROPORTION_WINDOW && STARTUP_SAMPLES <= |startup|
    ensures var stream := startup[..STARTUP_SAMPLES] + Concat(chunks);
            var started := Startup(m, startup);
            (started.verdict.Healthy? && ObserveAll(started.monitor, chunks).verdict.Healthy?)
            <==> HealthyStream(stream)
    ensures Startup(m, startup).verdict.Healthy? <==> HealthyStream(startup[..STARTUP_SAMPLES])
    ensures var started := Startup(m, startup);
            !started.verdict.OutOfBounds?
            && (started.verdict.Healthy? ==> !ObserveAll(started.monitor, chunks).verdict.OutOfBounds?)
  {
    hide HealthyStream, Feed;
    var first, rest := startup[..STARTUP_SAMPLES], Concat(chunks);
    var reset := Reset(m);
    ResetTracks(m);
    AcceptsExactly(reset, first);
    AcceptsExactly(reset, first + rest);
    FeedConcat(reset, first, rest);
    if HealthyStream(first) {
      var started := Startup(m, startup).monitor;
      ChunksDoNotMatter(started, chunks);
      StreamIgnoresFlag(FeedAll(reset, first).monitor, rest);
    }
  }

  lemma ResetTracks(m: Monitor)
    requires |m.window| == ADAPTIVE_PROPORTION_WINDOW
    ensures Tracks(Reset(m), NONE)
  {
  }

  lemma RepetitionIgnoresFlag(m: Monitor, x: byte)
    ensures var r := RepetitionCountTest(m, x);
            RepetitionCountTest(Flagged(m), x) == Step(Flagged(r.monitor), r.verdict)
  {
  }

  lemma ProportionIgnoresFlag(m: Monitor, x: byte)
    requires |m.window| == ADAPTIVE_PROPORTION_WINDOW
    ensures var r := AdaptiveProportionTest(m, x);
            AdaptiveProportionTest(Flagged(m), x) == Step(Flagged(r.monitor), r.verdict)
  {
  }

  lemma FeedIgnoresFlag(m: Monitor, x: byte)
    requires |m.window| == ADAPTIVE_PROPORTION_WINDOW
    ensures var r := Feed(m, x); Feed(Flagged(m), x) == Step(Flagged(r.monitor), r.verdict)
  {
    RepetitionIgnoresFlag(m, x);
    ProportionIgnoresFlag(RepetitionCountTest(m, x).monitor, x);
  }

  /** The startup flag has no part in the tests. */
  lemma {:induction false} StreamIgnoresFlag(m: Monitor, s: seq<byte>)
    requires |m.window| == ADAPTIVE_PROPORTION_WINDOW
    ensures var r := FeedAll(m, s);
            FeedAll(Flagged(m), s) == Step(Flagged(r.monitor), r.verdict)
  {
    hide Feed;
    if s != [] {
      StreamIgnoresFlag(m, s[..|s| - 1]);
      FeedIgnoresFlag(FeedAll(m, s[..|s| - 1]).monitor, s[|s| - 1]);
    }
  }

  // ---------------------------------------------------------------------------
  // Nothing before startup
  // ---------------------------------------------------------------------------

  datatype Operation = StartWith(samples: seq<byte>) | Watch(samples: seq<byte>)

  function Operate(m: Monitor, op: Operation): (r: Step)
    requires |m.window| == ADAPTIVE_PROPORTION_WINDOW
    ensures |r.monitor.window| == ADAPTIVE_PROPORTION_WINDOW
  {
    match op
    case StartWith(samples) => Startup(m, samples)
    case Watch(samples) => FeedBytes(m, samples)
  }

  function OperateAll(m: Monitor, ops: seq<Operation>): (r: Monitor)
    requires |m.window| == ADAPTIVE_PROPORTION_WINDOW
    ensures |r.window| == ADAPTIVE_PROPORTION_WINDOW
  {
    if ops == [] then m else Operate(OperateAll(m, ops[..|ops| - 1]), ops[|ops| - 1]).monitor
  }

  ghost predicate PassingStart(op: Operation) {
    op.StartWith? && 1024 <= |op.samples| && HealthyStream(op.samples[..1024])
  }

  lemma StartupPassesExactly(m: Monitor, samples: seq<byte>)
    requires |m.window| == ADAPTIVE_PROPORTION_WINDOW
    ensures Startup(m, samples).verdict.Healthy? <==> PassingStart(StartWith(samples))
    ensures Startup(m, samples).monitor.startupPassed <==> m.startupPassed || PassingStart(StartWith(samples))
  {
    hide HealthyStream, Feed;
    if STARTUP_SAMPLES <= |samples| {
      ResetTracks(m);
      AcceptsExactly(Reset(m), samples[..STARTUP_SAMPLES]);
    }
  }

  lemma {:induction false} PassedAfter(m: Monitor, ops: seq<Operation>)
    requires |m.window| == ADAPTIVE_PROPORTION_WINDOW && !m.startupPassed
    ensures OperateAll(m, ops).startupPassed <==> exists op | op in ops :: PassingStart(op)
  {
    hide PassingStart;
    if ops != [] {
      hide Startup, FeedAll;
      var n := |ops| - 1;
      PassedAfter(m, ops[..n]);
      assert forall op | op in ops :: op in ops[..n] || op == ops[n];
      match ops[n] {
        case StartWith(samples) => StartupPassesExactly(OperateAll(m, ops[..n]), samples);
        case Watch(samples) => NotAStart(samples);
      }
    }
  }

  lemma NotAStart(samples: seq<byte>)
    ensures !PassingStart(Watch(samples))
  {
  }

  /** In every run of startup tests and observations bytes are refused, and leave no trace, until a
      startup test has passed: one with at least 1024 samples, healthy in the first 1024. */
  lemma NothingBeforeStartup(m: Monitor, ops: seq<Operation>, samples: seq<byte>)
    requires |m.window| == ADAPTIVE_PROPORTION_WINDOW && !m.startupPassed
    requires forall op | op in ops :: !PassingStart(op)
    ensures FeedBytes(OperateAll(m, ops), samples) == Step(OperateAll(m, ops), Failed)
  {
    hide PassingStart, OperateAll;
    PassedAfter(m, ops);
  }
}
