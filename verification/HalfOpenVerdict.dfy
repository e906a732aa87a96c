/** Every half-open window reaches a verdict, and which one it reaches. */
module HalfOpenVerdict {
  import opened Wrappers
  import opened CircuitBreakerModel
  import opened CircuitRuns
  import ProbeAccounting

  /** The last n outcomes were all successes. */
  predicate LastAllTrue(xs: seq<bool>, n: nat) {
    n <= |xs| && forall k :: |xs| - n <= k < |xs| ==> xs[k]
  }

  /** What recording one outcome does to a half-open circuit. */
  lemma RecordVerdict(cfg: Config, m: Metrics, outcome: Outcome, now: int)
    requires cfg.Valid() && cfg.enabled && m.state == HALF_OPEN
    requires m.failureCount < HalfOpenLimit(cfg) && m.consecutiveSuccesses < cfg.threshold
    ensures var r := Record(cfg, Some(m), outcome, now);
            var failures := m.failureCount + if CountsAsFailure(outcome) then 1 else 0;
            var successes := if CountsAsFailure(outcome) then 0 else m.consecutiveSuccesses + 1;
            && (r.None? <==> successes >= cfg.threshold)
            && (InState(r, OPEN) <==> failures >= HalfOpenLimit(cfg))
            && !InState(r, CLOSED)
            && (InState(r, HALF_OPEN) ==> 0 < Budget(cfg, r.value) < Budget(cfg, m))
  {
    var r := Record(cfg, Some(m), outcome, now);
    if InState(r, HALF_OPEN) {
      BudgetStep(cfg, m, r.value);
      ProbeAccounting.BudgetPositive(cfg, r.value);
    }
  }

  lemma OutcomeCounts(outcomes: seq<bool>, ok: bool)
    ensures CountFalse(outcomes + [ok]) == CountFalse(outcomes) + if ok then 0 else 1
    ensures TrailingTrue(outcomes + [ok]) == if ok then TrailingTrue(outcomes) + 1 else 0
  {
    assert (outcomes + [ok])[..|outcomes|] == outcomes;
  }

  lemma TrailingIff(outcomes: seq<bool>, n: nat)
    ensures LastAllTrue(outcomes, n) <==> TrailingTrue(outcomes) >= n
  {
    var k := TrailingTrue(outcomes);
    if k < n <= |outcomes| {
      assert !outcomes[|outcomes| - k - 1];
    }
  }

  /** One completion recorded in a half-open window: the budget strictly drops unless the window
      ends; it closes exactly when the last `threshold` outcomes of the window were successes, and
      reopens exactly when the failures of the window reach the limit. */
  lemma CompletionVerdict(cfg: Config, s: Sys, e: Event)
    requires cfg.Valid() && Reachable(cfg, s) && InState(s.circuit, HALF_OPEN)
    requires Enabled(s, e) && e.Complete?
    ensures var t := Step(cfg, s, e);
            && t.outcomes == s.outcomes + [!CountsAsFailure(e.outcome)]
            && (t.circuit.None? <==> LastAllTrue(t.outcomes, cfg.threshold))
            && (InState(t.circuit, OPEN) <==> CountFalse(t.outcomes) >= HalfOpenLimit(cfg))
            && (InState(t.circuit, HALF_OPEN) ==>
                  0 < Budget(cfg, t.circuit.value) < Budget(cfg, s.circuit.value))
            && !InState(t.circuit, CLOSED)
            && |t.outcomes| <= cfg.threshold * HalfOpenLimit(cfg)
  {
    ReachableInv(cfg, s);
    ProbeAccounting.BudgetPositive(cfg, s.circuit.value);
    RecordVerdict(cfg, s.circuit.value, e.outcome, e.now);
    OutcomeCounts(s.outcomes, !CountsAsFailure(e.outcome));
    TimesIsProduct(cfg.threshold, HalfOpenLimit(cfg));
    TrailingIff(Step(cfg, s, e).outcomes, cfg.threshold);
  }

  predicate StaysInWindow(cfg: Config, s: Sys, events: seq<Event>)
    requires ValidRun(cfg, s, events)
    decreases |events|
  {
    InState(s.circuit, HALF_OPEN) &&
    (events == [] ||
     (Step(cfg, s, events[0]).window == s.window && StaysInWindow(cfg, Step(cfg, s, events[0]), events[1..])))
  }

  function Completions(events: seq<Event>): nat {
    if events == [] then 0
    else (if events[0].Complete? then 1 else 0) + Completions(events[1..])
  }

  /** However the events interleave, a half-open window outlives fewer than limit * threshold
      completions. */
  lemma WindowIsBounded(cfg: Config, s: Sys, events: seq<Event>)
    requires cfg.Valid() && Reachable(cfg, s) && ValidRun(cfg, s, events)
    requires StaysInWindow(cfg, s, events)
    ensures Completions(events) < cfg.threshold * HalfOpenLimit(cfg)
  {
    CompletionsAreRecorded(cfg, s, events);
    var t := Run(cfg, s, events);
    ReachableRun(cfg, s, events);
    ReachableInv(cfg, t);
    ProbeAccounting.BudgetPositive(cfg, t.circuit.value);
    TimesIsProduct(cfg.threshold, HalfOpenLimit(cfg));
  }

  lemma {:induction false} CompletionsAreRecorded(cfg: Config, s: Sys, events: seq<Event>)
    requires ValidRun(cfg, s, events) && StaysInWindow(cfg, s, events)
    ensures InState(Run(cfg, s, events).circuit, HALF_OPEN)
    ensures |Run(cfg, s, events).outcomes| == |s.outcomes| + Completions(events)
    decreases |events|
  {
    if events != [] {
      CompletionsAreRecorded(cfg, Step(cfg, s, events[0]), events[1..]);
    }
  }
}
