/** When a circuit opens, against what is promised: on `threshold` failures within the rolling window
    (src/datasources/circuit-breaker/interfaces/circuit-breaker.interface.ts), and on consecutive ones
    (docs/agents/ARCHITECTURE.md). */
module OpeningRule {
  import opened Wrappers
  import opened CircuitBreakerModel
  import opened CircuitRuns
  import opened CircuitWitness
  import opened FailureWindow

  /** A completion that opens a circuit that was absent or CLOSED. */
  predicate Opens(cfg: Config, s: Sys, e: Event) {
    && Enabled(s, e) && e.Complete?
    && !InState(s.circuit, OPEN) && !InState(s.circuit, HALF_OPEN)
    && InState(Step(cfg, s, e).circuit, OPEN)
  }

  lemma OpeningIsAFailure(cfg: Config, s: Sys, e: Event)
    requires (s.circuit.Some? ==> cfg.enabled) && Opens(cfg, s, e)
    ensures cfg.enabled && CountsAsFailure(e.outcome)
  {
  }

  /** A chain of one or two failures, or of simultaneous ones, lies within one window. */
  lemma {:induction false} ChainSpan(window: nat, times: seq<int>, k: nat)
    requires 1 <= k <= |times| && IsChain(window, times, k)
    requires k <= 2 || window == 0
    ensures times[|times| - 1] - times[|times| - k] <= window
  {
    var n := |times|;
    if k == 2 {
      assert times[n - 1] - times[n - 2] <= window;
    } else if k > 2 {
      ChainSpan(window, times, k - 1);
      assert times[n - k + 1] - times[n - k] <= window;
    }
  }

  lemma {:induction false} CountAtLeast(window: nat, times: seq<int>, now: int, k: nat)
    requires k <= |times|
    requires forall i :: |times| - k <= i < |times| ==> now - times[i] <= window
    ensures WindowCount(window, times, now) >= k
  {
    if k > 0 {
      CountAtLeast(window, times[..|times| - 1], now, k - 1);
    }
  }

  /** As many failures in the window as k make the last k a chain. */
  lemma CountedIsChain(window: nat, times: seq<int>, k: nat)
    requires times != [] && Ordered(times) && WindowCount(window, times, times[|times| - 1]) >= k
    ensures IsChain(window, times, k)
  {
    var last := times[|times| - 1];
    var p := WindowStart(window, times, last);
    WindowCountSplit(window, times, last, p);
    forall j {:trigger times[j]} | |times| - k < j < |times| ensures times[j] - times[j - 1] <= window {
      assert last - times[j - 1] <= window && times[j] <= last;
    }
  }

  /** The circuit never opens late: a failure that makes `threshold` failures in the window opens it. */
  lemma OpensInTime(cfg: Config, s: Sys, e: Event)
    requires cfg.Valid() && cfg.enabled && Reachable(cfg, s)
    requires !InState(s.circuit, OPEN) && !InState(s.circuit, HALF_OPEN)
    requires Enabled(s, e) && e.Complete? && CountsAsFailure(e.outcome)
    requires WindowCount(cfg.rollingWindow, Step(cfg, s, e).failures, e.now) >= cfg.threshold
    ensures Opens(cfg, s, e)
  {
    OpensExactlyAtThreshold(cfg, s, e);
    ReachableStep(cfg, s, e);
    ReachableClosed(cfg, Step(cfg, s, e));
    CountedIsChain(cfg.rollingWindow, Step(cfg, s, e).failures, cfg.threshold);
  }

  /** The documented rule: every opening has `threshold` failures no older than the window. */
  ghost predicate OpensOnlyInWindow(cfg: Config) {
    forall s, e :: Reachable(cfg, s) && Opens(cfg, s, e) ==>
      WindowCount(cfg.rollingWindow, Step(cfg, s, e).failures, e.now) >= cfg.threshold
  }

  /** The failure times an opening leaves end with its own, and a chain of `threshold`. */
  lemma OpeningTimes(cfg: Config, s: Sys, e: Event)
    requires cfg.Valid() && Reachable(cfg, s) && Opens(cfg, s, e)
    ensures var times := Step(cfg, s, e).failures;
            times != [] && times[|times| - 1] == e.now && IsChain(cfg.rollingWindow, times, cfg.threshold)
  {
    ReachableClosed(cfg, s);
    OpeningIsAFailure(cfg, s, e);
    OpensExactlyAtThreshold(cfg, s, e);
  }

  lemma StepTimesOrdered(cfg: Config, s: Sys, e: Event)
    requires cfg.Valid() && Reachable(cfg, s) && Enabled(s, e)
    ensures Ordered(Step(cfg, s, e).failures)
  {
    ReachableStep(cfg, s, e);
    ReachableClosed(cfg, Step(cfg, s, e));
  }

  lemma ShortChainInWindow(window: nat, times: seq<int>, k: nat)
    requires 1 <= k <= |times| && Ordered(times) && IsChain(window, times, k)
    requires k <= 2 || window == 0
    ensures WindowCount(window, times, times[|times| - 1]) >= k
  {
    ChainSpan(window, times, k);
    CountAtLeast(window, times, times[|times| - 1], k);
  }

  lemma OpeningInWindow(cfg: Config, s: Sys, e: Event)
    requires cfg.Valid() && Reachable(cfg, s) && Opens(cfg, s, e)
    requires cfg.threshold <= 2 || cfg.rollingWindow == 0
    ensures WindowCount(cfg.rollingWindow, Step(cfg, s, e).failures, e.now) >= cfg.threshold
  {
    OpeningTimes(cfg, s, e);
    StepTimesOrdered(cfg, s, e);
    ShortChainInWindow(cfg.rollingWindow, Step(cfg, s, e).failures, cfg.threshold);
  }

  /** The rule is kept in every run exactly when the threshold is at most 2 or the window is empty. */
  lemma OpensOnlyInWindowIff(cfg: Config)
    requires cfg.Valid() && cfg.enabled
    ensures OpensOnlyInWindow(cfg) <==> cfg.threshold <= 2 || cfg.rollingWindow == 0
  {
    if cfg.threshold <= 2 || cfg.rollingWindow == 0 {
      forall s, e | Reachable(cfg, s) && Opens(cfg, s, e)
        ensures WindowCount(cfg.rollingWindow, Step(cfg, s, e).failures, e.now) >= cfg.threshold
      {
        OpeningInWindow(cfg, s, e);
      }
    } else {
      var s, e := OpensEarly(cfg);
    }
  }

  /** k failures at time 1, one a window later, and one two windows later. */
  function SpreadTimes(window: nat, k: nat): (times: seq<int>)
    ensures |times| == k + 2 && times[k] == 1 + window && times[k + 1] == 1 + 2 * window
    ensures forall i :: 0 <= i < k ==> times[i] == 1
  {
    seq(k, _ => 1) + [1 + window, 1 + 2 * window]
  }

  /** The last of them. */
  function Last(cfg: Config, k: nat): Event {
    Complete(k + 1, RequestError, 1 + 2 * cfg.rollingWindow)
  }

  /** A run with all of them but the last. */
  lemma Spread(cfg: Config, k: nat) returns (s: Sys)
    requires cfg.Valid() && cfg.enabled && 1 <= k && k + 2 <= cfg.threshold
    ensures Reachable(cfg, s) && InState(s.circuit, CLOSED) && Enabled(s, Last(cfg, k))
    ensures |s.failures| == k + 1 && s.failures + [Last(cfg, k).now] == SpreadTimes(cfg.rollingWindow, k)
  {
    var failing, e := Failing(cfg, k), Complete(k, RequestError, 1 + cfg.rollingWindow);
    FailingReachable(cfg, k);
    ReachableStep(cfg, failing, e);
    OpensExactlyAtThreshold(cfg, failing, e);
    s := Step(cfg, failing, e);
    assert s.failures == failing.failures + [1 + cfg.rollingWindow];
  }

  lemma SpreadCount(window: nat, k: nat)
    requires window >= 1 && k >= 1
    ensures IsChain(window, SpreadTimes(window, k), k + 2)
    ensures WindowCount(window, SpreadTimes(window, k), 1 + 2 * window) == 2
  {
    WindowCountSplit(window, SpreadTimes(window, k), 1 + 2 * window, k);
  }

  lemma OpensNow(cfg: Config, s: Sys, e: Event)
    requires cfg.Valid() && cfg.enabled && Reachable(cfg, s) && InState(s.circuit, CLOSED)
    requires Enabled(s, e) && e.Complete? && CountsAsFailure(e.outcome)
    requires IsChain(cfg.rollingWindow, s.failures + [e.now], cfg.threshold)
    ensures Opens(cfg, s, e) && Step(cfg, s, e).failures == s.failures + [e.now]
  {
    OpensExactlyAtThreshold(cfg, s, e);
  }

  /** Otherwise a run opens the circuit with exactly two failures in the window. */
  lemma OpensEarly(cfg: Config) returns (s: Sys, e: Event)
    requires cfg.Valid() && cfg.enabled && cfg.threshold >= 3 && cfg.rollingWindow >= 1
    ensures Reachable(cfg, s) && Opens(cfg, s, e)
    ensures WindowCount(cfg.rollingWindow, Step(cfg, s, e).failures, e.now) == 2 < cfg.threshold
  {
    var k := cfg.threshold - 2;
    s := Spread(cfg, k);
    e := Last(cfg, k);
    SpreadCount(cfg.rollingWindow, k);
    OpensNow(cfg, s, e);
  }

  /** The count kept in CLOSED is the number of failures no older than the window at the latest one. */
  predicate CountsWindow(cfg: Config, s: Sys)
    requires s.circuit.Some?
  {
    s.failures != [] &&
    s.circuit.value.failureCount == WindowCount(cfg.rollingWindow, s.failures, s.failures[|s.failures| - 1])
  }

  ghost predicate CountsOnlyWindow(cfg: Config) {
    forall s :: Reachable(cfg, s) && InState(s.circuit, CLOSED) ==> CountsWindow(cfg, s)
  }

  lemma ShortChainSpan(cfg: Config, s: Sys, k: nat)
    requires cfg.Valid() && Reachable(cfg, s) && InState(s.circuit, CLOSED)
    requires cfg.threshold <= 3 || cfg.rollingWindow == 0
    requires k == s.circuit.value.failureCount
    ensures 1 <= k <= |s.failures| && s.failures[|s.failures| - 1] - s.failures[|s.failures| - k] <= cfg.rollingWindow
  {
    FailureCountIsLongestChain(cfg, s);
    ChainSpan(cfg.rollingWindow, s.failures, k);
  }

  lemma ShortChainCounts(cfg: Config, s: Sys)
    requires cfg.Valid() && Reachable(cfg, s) && InState(s.circuit, CLOSED)
    requires cfg.threshold <= 3 || cfg.rollingWindow == 0
    ensures CountsWindow(cfg, s)
  {
    ShortChainSpan(cfg, s, s.circuit.value.failureCount);
    AgreesWithWindowIff(cfg, s);
  }

  /** In every run, exactly when the threshold is at most 3 or the window is empty. */
  lemma CountsOnlyWindowIff(cfg: Config)
    requires cfg.Valid() && cfg.enabled
    ensures CountsOnlyWindow(cfg) <==> cfg.threshold <= 3 || cfg.rollingWindow == 0
  {
    if cfg.threshold <= 3 || cfg.rollingWindow == 0 {
      forall s | Reachable(cfg, s) && InState(s.circuit, CLOSED) ensures CountsWindow(cfg, s) {
        ShortChainCounts(cfg, s);
      }
    } else {
      var s := CountsTooMany(cfg);
    }
  }

  /** Otherwise a run leaves a CLOSED circuit with a count of three or more and two failures in the window. */
  lemma CountsTooMany(cfg: Config) returns (s: Sys)
    requires cfg.Valid() && cfg.enabled && cfg.threshold >= 4 && cfg.rollingWindow >= 1
    ensures Reachable(cfg, s) && InState(s.circuit, CLOSED) && !CountsWindow(cfg, s)
    ensures s.circuit.value.failureCount == cfg.threshold - 1
    ensures s.failures != [] &&
            WindowCount(cfg.rollingWindow, s.failures, s.failures[|s.failures| - 1]) == 2
  {
    var k := cfg.threshold - 3;
    var before := Spread(cfg, k);
    SpreadCount(cfg.rollingWindow, k);
    s := StaysClosed(cfg, before, Last(cfg, k), cfg.threshold - 1);
  }

  /** A failure that leaves a chain of all failures since registration, fewer than the threshold. */
  lemma StaysClosed(cfg: Config, s: Sys, e: Event, k: nat) returns (t: Sys)
    requires cfg.Valid() && cfg.enabled && Reachable(cfg, s) && InState(s.circuit, CLOSED)
    requires Enabled(s, e) && e.Complete? && CountsAsFailure(e.outcome)
    requires |s.failures| + 1 == k < cfg.threshold && IsChain(cfg.rollingWindow, s.failures + [e.now], k)
    ensures Reachable(cfg, t) && t.failures == s.failures + [e.now]
    ensures InState(t.circuit, CLOSED) && t.circuit.value.failureCount == k
  {
    t := Step(cfg, s, e);
    OpensExactlyAtThreshold(cfg, s, e);
    ReachableStep(cfg, s, e);
    FailureCountIsLongestChain(cfg, t);
  }

  /** The last n outcomes were all failures. */
  predicate LastAllFalse(xs: seq<bool>, n: nat) {
    n <= |xs| && forall k :: |xs| - n <= k < |xs| ==> !xs[k]
  }

  /** The documented rule: every opening ends `threshold` consecutive failures. */
  ghost predicate OpensOnlyOnConsecutive(cfg: Config) {
    forall s, e :: Reachable(cfg, s) && Opens(cfg, s, e) ==>
      LastAllFalse(Step(cfg, s, e).closedOutcomes, cfg.threshold)
  }

  /** It is kept in every run exactly when the threshold is 1: a success in CLOSED interrupts nothing. */
  lemma OpensOnlyOnConsecutiveIff(cfg: Config)
    requires cfg.Valid() && cfg.enabled
    ensures OpensOnlyOnConsecutive(cfg) <==> cfg.threshold == 1
  {
    if cfg.threshold == 1 {
      forall s, e | Reachable(cfg, s) && Opens(cfg, s, e)
        ensures LastAllFalse(Step(cfg, s, e).closedOutcomes, cfg.threshold)
      {
        OpeningIsAFailure(cfg, s, e);
      }
    } else {
      var s, e := OpensDespiteSuccess(cfg);
    }
  }

  /** Otherwise a run opens the circuit at the failure right after a success. */
  lemma OpensDespiteSuccess(cfg: Config) returns (s: Sys, e: Event)
    requires cfg.Valid() && cfg.enabled && cfg.threshold >= 2
    ensures Reachable(cfg, s) && Opens(cfg, s, e)
    ensures var seen := Step(cfg, s, e).closedOutcomes;
            |seen| == cfg.threshold + 1 && seen[cfg.threshold - 1] && !LastAllFalse(seen, cfg.threshold)
  {
    var failing := Failing(cfg, cfg.threshold - 1);
    var success := Complete(cfg.threshold - 1, Response, 1);
    FailingReachable(cfg, cfg.threshold - 1);
    ReachableStep(cfg, failing, success);
    s, e := Step(cfg, failing, success), Complete(cfg.threshold, RequestError, 1);
  }
}
