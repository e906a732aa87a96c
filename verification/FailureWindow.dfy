/** What the failure count of a CLOSED circuit counts. */
module FailureWindow {
  import opened Wrappers
  import opened CircuitBreakerModel
  import opened CircuitRuns

  /** The last k failures follow each other at gaps of at most `window`. */
  predicate IsChain(window: nat, times: seq<int>, k: nat) {
    k <= |times| && forall j {:trigger times[j]} :: |times| - k < j < |times| ==> times[j] - times[j - 1] <= window
  }

  function ChainLength(window: nat, times: seq<int>): (k: nat)
    ensures k <= |times|
    ensures times != [] ==> k >= 1
  {
    var last := |times| - 1;
    if |times| <= 1 then |times|
    else if times[last] - times[last - 1] > window then 1
    else 1 + ChainLength(window, times[..last])
  }

  lemma ChainCut(window: nat, times: seq<int>, k: nat)
    requires |times| > 1 && times[|times| - 1] - times[|times| - 2] > window
    ensures IsChain(window, times, k) <==> k <= 1
  {
    var gap := times[|times| - 1] - times[|times| - 2];
  }

  lemma ChainExtends(window: nat, times: seq<int>, k: nat)
    requires |times| > 1 && times[|times| - 1] - times[|times| - 2] <= window
    ensures IsChain(window, times, k + 1) <==> IsChain(window, times[..|times| - 1], k)
  {
    var last := |times| - 1;
    var front := times[..last];
    if IsChain(window, front, k) {
      forall j {:trigger times[j]} | |times| - (k + 1) < j < |times| ensures times[j] - times[j - 1] <= window {
        assert j < last ==> front[j] - front[j - 1] <= window;
      }
    }
  }

  lemma {:induction false} ChainLengthIsLongest(window: nat, times: seq<int>)
    ensures IsChain(window, times, ChainLength(window, times))
    ensures forall n: nat :: IsChain(window, times, n) ==> n <= ChainLength(window, times)
  {
    var last := |times| - 1;
    if |times| > 1 {
      if times[last] - times[last - 1] > window {
        forall n: nat | IsChain(window, times, n) ensures n <= 1 { ChainCut(window, times, n); }
        ChainCut(window, times, 1);
      } else {
        var k := ChainLength(window, times[..last]);
        ChainLengthIsLongest(window, times[..last]);
        ChainExtends(window, times, k);
        forall n: nat | IsChain(window, times, n) ensures n <= k + 1 {
          if n > 0 { ChainExtends(window, times, n - 1); }
        }
      }
    }
  }

  predicate Ordered(times: seq<int>) {
    forall i, j :: 0 <= i <= j < |times| ==> times[i] <= times[j]
  }

  predicate ClosedInv(cfg: Config, s: Sys) {
    && s.clock >= 0
    && (s.circuit.Some? ==> cfg.enabled)
    && Ordered(s.failures)
    && (s.failures != [] ==> 1 <= s.failures[0] && s.failures[|s.failures| - 1] <= s.clock)
    && (InState(s.circuit, CLOSED) ==>
          && s.failures != []
          && s.circuit.value.lastFailureTime == Some(s.failures[|s.failures| - 1])
          && s.circuit.value.failureCount == ChainLength(cfg.rollingWindow, s.failures) < cfg.threshold)
  }

  lemma ChainStep(window: nat, times: seq<int>, now: int)
    requires times != []
    ensures ChainLength(window, times + [now]) ==
              if now - times[|times| - 1] > window then 1 else ChainLength(window, times) + 1
  {
    assert (times + [now])[..|times|] == times;
  }

  lemma OrderedStep(times: seq<int>, now: int)
    requires Ordered(times) && (times != [] ==> times[|times| - 1] <= now)
    ensures Ordered(times + [now])
  {
  }

  lemma ClosedFailure(cfg: Config, m: Metrics, times: seq<int>, now: int)
    requires cfg.enabled && m.state == CLOSED && times != [] && times[|times| - 1] >= 1
    requires m.lastFailureTime == Some(times[|times| - 1])
    requires m.failureCount == ChainLength(cfg.rollingWindow, times)
    ensures var r := RecordFailure(cfg, Some(m), now);
            && r.Some?
            && r.value.failureCount == ChainLength(cfg.rollingWindow, times + [now])
            && r.value.lastFailureTime == Some(now)
            && r.value.state == (if r.value.failureCount >= cfg.threshold then OPEN else CLOSED)
            && (r.value.state == OPEN ==> r.value.nextAttemptTime == Some(now + cfg.timeout))
  {
    ChainStep(cfg.rollingWindow, times, now);
  }

  lemma StepKeepsClosed(cfg: Config, s: Sys, e: Event)
    requires cfg.Valid() && ClosedInv(cfg, s) && Enabled(s, e)
    ensures ClosedInv(cfg, Step(cfg, s, e))
  {
    if e.Complete? && CountsAsFailure(e.outcome) {
      if InState(s.circuit, CLOSED) {
        ClosedFailure(cfg, s.circuit.value, s.failures, e.now);
        OrderedStep(s.failures, e.now);
      }
    }
  }

  lemma {:induction false} RunKeepsClosed(cfg: Config, s: Sys, events: seq<Event>)
    requires cfg.Valid() && ClosedInv(cfg, s) && ValidRun(cfg, s, events)
    ensures ClosedInv(cfg, Run(cfg, s, events))
    decreases |events|
  {
    if events != [] {
      StepKeepsClosed(cfg, s, events[0]);
      RunKeepsClosed(cfg, Step(cfg, s, events[0]), events[1..]);
    }
  }

  lemma ReachableClosed(cfg: Config, s: Sys)
    requires cfg.Valid() && Reachable(cfg, s)
    ensures ClosedInv(cfg, s)
  {
    var events :| ValidRun(cfg, INIT, events) && Run(cfg, INIT, events) == s;
    RunKeepsClosed(cfg, INIT, events);
  }

  /** In CLOSED the failure count is the length of the longest suffix of the failure times since
      registration whose adjacent gaps fit the rolling window, and it is below the threshold. */
  lemma FailureCountIsLongestChain(cfg: Config, s: Sys)
    requires cfg.Valid() && Reachable(cfg, s) && InState(s.circuit, CLOSED)
    ensures IsChain(cfg.rollingWindow, s.failures, s.circuit.value.failureCount)
    ensures forall n: nat :: IsChain(cfg.rollingWindow, s.failures, n) ==> n <= s.circuit.value.failureCount
    ensures 1 <= s.circuit.value.failureCount < cfg.threshold
  {
    ReachableClosed(cfg, s);
    ChainLengthIsLongest(cfg.rollingWindow, s.failures);
  }

  lemma FirstFailure(cfg: Config, now: int)
    requires cfg.Valid() && cfg.enabled
    ensures var r := RecordFailure(cfg, None, now);
            && r.Some?
            && r.value.state == (if 1 >= cfg.threshold then OPEN else CLOSED)
            && (r.value.state == OPEN ==> r.value.nextAttemptTime == Some(now + cfg.timeout))
  {
  }

  lemma FailureIsRecorded(cfg: Config, s: Sys, e: Event)
    requires cfg.enabled && Enabled(s, e) && e.Complete? && CountsAsFailure(e.outcome)
    requires s.circuit.None? || s.circuit.value.state == CLOSED
    ensures Step(cfg, s, e).circuit == RecordFailure(cfg, s.circuit, e.now)
    ensures Step(cfg, s, e).failures == (if s.circuit.None? then [] else s.failures) + [e.now]
  {
    assert [] + [e.now] == [e.now];
  }

  lemma FailureStep(cfg: Config, s: Sys, e: Event)
    requires cfg.Valid() && cfg.enabled && ClosedInv(cfg, s) && Enabled(s, e)
    requires s.circuit.None? || s.circuit.value.state == CLOSED
    requires e.Complete? && CountsAsFailure(e.outcome)
    ensures var t := Step(cfg, s, e);
            && t.circuit.Some?
            && t.circuit.value.state ==
                 (if ChainLength(cfg.rollingWindow, t.failures) >= cfg.threshold then OPEN else CLOSED)
            && (t.circuit.value.state == OPEN ==> t.circuit.value.nextAttemptTime == Some(e.now + cfg.timeout))
  {
    FailureIsRecorded(cfg, s, e);
    if s.circuit.Some? {
      ClosedFailure(cfg, s.circuit.value, s.failures, e.now);
    } else {
      FirstFailure(cfg, e.now);
      assert [] + [e.now] == [e.now];
    }
  }

  lemma ChainReachesIff(window: nat, times: seq<int>, k: nat)
    ensures ChainLength(window, times) >= k <==> IsChain(window, times, k)
  {
    ChainLengthIsLongest(window, times);
  }

  /** A circuit that is absent or CLOSED opens at a failure exactly when that chain, with the new
      failure at its end, reaches the threshold. */
  lemma OpensExactlyAtThreshold(cfg: Config, s: Sys, e: Event)
    requires cfg.Valid() && cfg.enabled && Reachable(cfg, s)
    requires !InState(s.circuit, OPEN) && !InState(s.circuit, HALF_OPEN)
    requires Enabled(s, e) && e.Complete? && CountsAsFailure(e.outcome)
    ensures var t := Step(cfg, s, e);
            && t.failures == (if s.circuit.None? then [] else s.failures) + [e.now]
            && (InState(t.circuit, OPEN) <==> IsChain(cfg.rollingWindow, t.failures, cfg.threshold))
            && (InState(t.circuit, OPEN) ==> t.circuit.value.nextAttemptTime == Some(e.now + cfg.timeout))
            && (InState(t.circuit, OPEN) || InState(t.circuit, CLOSED))
  {
    ReachableClosed(cfg, s);
    FailureIsRecorded(cfg, s, e);
    FailureStep(cfg, s, e);
    ChainReachesIff(cfg.rollingWindow, Step(cfg, s, e).failures, cfg.threshold);
  }

  /** The failures at most `window` old at time `now`: what the configuration comment promises. */
  function WindowCount(window: nat, times: seq<int>, now: int): nat {
    if times == [] then 0
    else WindowCount(window, times[..|times| - 1], now) +
         (if now - times[|times| - 1] <= window then 1 else 0)
  }

  lemma {:induction false} WindowCountSplit(window: nat, times: seq<int>, now: int, p: nat)
    requires p <= |times|
    requires forall i :: 0 <= i < p ==> now - times[i] > window
    requires forall i :: p <= i < |times| ==> now - times[i] <= window
    ensures WindowCount(window, times, now) == |times| - p
  {
    if times != [] {
      var front := times[..|times| - 1];
      if p == |times| {
        WindowCountSplit(window, front, now, p - 1);
      } else {
        WindowCountSplit(window, front, now, p);
      }
    }
  }

  lemma {:induction false} WindowStart(window: nat, times: seq<int>, now: int) returns (p: nat)
    requires Ordered(times)
    ensures p <= |times|
    ensures forall i :: 0 <= i < p ==> now - times[i] > window
    ensures forall i :: p <= i < |times| ==> now - times[i] <= window
  {
    p := |times|;
    while p > 0 && now - times[p - 1] <= window
      invariant p <= |times|
      invariant forall i :: p <= i < |times| ==> now - times[i] <= window
    {
      p := p - 1;
    }
  }

  lemma ChainVersusWindow(window: nat, times: seq<int>)
    requires times != [] && Ordered(times)
    ensures var k := ChainLength(window, times);
            var latest := times[|times| - 1];
            k == WindowCount(window, times, latest) <==> latest - times[|times| - k] <= window
  {
    var n, k := |times|, ChainLength(window, times);
    ChainLengthIsLongest(window, times);
    var p := WindowStart(window, times, times[n - 1]);
    WindowCountSplit(window, times, times[n - 1], p);
    if k < n {
      assert !IsChain(window, times, k + 1);
      assert times[n - k] - times[n - k - 1] > window;
    }
  }

  /** The documented count (failures within the window before the latest one) agrees with the
      count the code keeps exactly when the whole current chain spans at most one window. */
  lemma AgreesWithWindowIff(cfg: Config, s: Sys)
    requires cfg.Valid() && Reachable(cfg, s) && InState(s.circuit, CLOSED)
    ensures 1 <= s.circuit.value.failureCount <= |s.failures|
    ensures var m := s.circuit.value;
            var latest := s.failures[|s.failures| - 1];
            m.failureCount == WindowCount(cfg.rollingWindow, s.failures, latest) <==>
            latest - s.failures[|s.failures| - m.failureCount] <= cfg.rollingWindow
  {
    ReachableClosed(cfg, s);
    ChainVersusWindow(cfg.rollingWindow, s.failures);
  }
}
