/** Whole runs of one circuit under the request wrapper
    (src/datasources/network/network.module.ts): a request is admitted in one state of the circuit
    and records its single outcome in whatever state the circuit has by then. Admissions,
    completions, periodic cleanups and deletions interleave freely. */
module CircuitRuns {
  import opened Wrappers
  import opened CircuitBreakerModel

  /** What a request in flight was admitted as: a probe of the numbered half-open window, or not a
      probe at all. */
  datatype Ticket = NoProbe | Probe(window: nat)

  /** The circuit together with the requests in flight and the history the theorems speak of:
      the number of half-open windows so far; the outcomes recorded in the current one (true for
      a success) and how many of them came from requests not admitted in it; and, from the failure that
      registered the circuit on, the times of the failures counted and the outcomes recorded in CLOSED;
      and when an outcome was last recorded in the circuit. */
  datatype Sys = Sys(
    clock: int,
    circuit: Option<Metrics>,
    inFlight: map<nat, Ticket>,
    window: nat,
    outcomes: seq<bool>,
    stragglers: nat,
    failures: seq<int>,
    closedOutcomes: seq<bool>,
    recordedAt: int)

  datatype Event =
    | Admit(id: nat, now: int)
    | Complete(id: nat, outcome: Outcome, now: int)
    | Cleanup(now: int)
    | Delete(now: int)

  const INIT := Sys(0, None, map[], 0, [], 0, [], [], 0)

  predicate InState(c: Option<Metrics>, state: CircuitState) {
    c.Some? && c.value.state == state
  }

  /** The clock is positive and never goes back; a request id is used for one request. */
  predicate Enabled(s: Sys, e: Event) {
    && e.now >= 1 && e.now >= s.clock
    && (e.Admit? ==> e.id !in s.inFlight)
    && (e.Complete? ==> e.id in s.inFlight)
  }

  predicate Admitted(cfg: Config, s: Sys, e: Event)
    requires e.Admit?
  {
    CanProceed(cfg, s.circuit, e.now).admitted
  }

  function StepAdmit(cfg: Config, s: Sys, id: nat, now: int): Sys {
    var a := CanProceed(cfg, s.circuit, now);
    var opensWindow := InState(s.circuit, OPEN) && InState(a.circuit, HALF_OPEN);
    var window := if opensWindow then s.window + 1 else s.window;
    var ticket := if InState(a.circuit, HALF_OPEN) then Probe(window) else NoProbe;
    s.(clock := now,
       circuit := a.circuit,
       inFlight := if a.admitted then s.inFlight[id := ticket] else s.inFlight,
       window := window,
       outcomes := if opensWindow then [] else s.outcomes,
       stragglers := if opensWindow then 0 else s.stragglers)
  }

  function FailuresAfter(cfg: Config, s: Sys, outcome: Outcome, now: int): seq<int> {
    if !cfg.enabled || !CountsAsFailure(outcome) then s.failures
    else if s.circuit.None? then [now]
    else if s.circuit.value.state == CLOSED then s.failures + [now]
    else s.failures
  }

  function ClosedOutcomesAfter(cfg: Config, s: Sys, outcome: Outcome): seq<bool> {
    if InState(s.circuit, CLOSED) then s.closedOutcomes + [!CountsAsFailure(outcome)]
    else if cfg.enabled && s.circuit.None? && CountsAsFailure(outcome) then [false]
    else s.closedOutcomes
  }

  /** An outcome is recorded in a circuit that is there, but for a failure while it is OPEN; and a failure
      registers one that is not. */
  predicate IsRecorded(cfg: Config, s: Sys, outcome: Outcome) {
    cfg.enabled &&
    if CountsAsFailure(outcome) then !InState(s.circuit, OPEN) else s.circuit.Some?
  }

  function StepComplete(cfg: Config, s: Sys, id: nat, outcome: Outcome, now: int): Sys
    requires id in s.inFlight
  {
    var halfOpen := InState(s.circuit, HALF_OPEN);
    s.(clock := now,
       circuit := Record(cfg, s.circuit, outcome, now),
       inFlight := s.inFlight - {id},
       outcomes := if halfOpen then s.outcomes + [!CountsAsFailure(outcome)] else s.outcomes,
       stragglers := if halfOpen && s.inFlight[id] != Probe(s.window) then s.stragglers + 1
                     else s.stragglers,
       failures := FailuresAfter(cfg, s, outcome, now),
       closedOutcomes := ClosedOutcomesAfter(cfg, s, outcome),
       recordedAt := if IsRecorded(cfg, s, outcome) then now else s.recordedAt)
  }

  function Step(cfg: Config, s: Sys, e: Event): Sys
    requires Enabled(s, e)
  {
    match e
    case Admit(id, now) => StepAdmit(cfg, s, id, now)
    case Complete(id, outcome, now) => StepComplete(cfg, s, id, outcome, now)
    case Cleanup(now) => s.(clock := now, circuit := CircuitBreakerModel.Cleanup(cfg, s.circuit, now))
    case Delete(now) => s.(clock := now, circuit := None)
  }

  predicate ValidRun(cfg: Config, s: Sys, events: seq<Event>)
    decreases |events|
  {
    events == [] || (Enabled(s, events[0]) && ValidRun(cfg, Step(cfg, s, events[0]), events[1..]))
  }

  function Run(cfg: Config, s: Sys, events: seq<Event>): Sys
    requires ValidRun(cfg, s, events)
    decreases |events|
  {
    if events == [] then s else Run(cfg, Step(cfg, s, events[0]), events[1..])
  }

  ghost predicate Reachable(cfg: Config, s: Sys) {
    exists events :: ValidRun(cfg, INIT, events) && Run(cfg, INIT, events) == s
  }

  lemma {:induction false} RunConcat(cfg: Config, s: Sys, xs: seq<Event>, ys: seq<Event>)
    requires ValidRun(cfg, s, xs) && ValidRun(cfg, Run(cfg, s, xs), ys)
    ensures ValidRun(cfg, s, xs + ys) && Run(cfg, s, xs + ys) == Run(cfg, Run(cfg, s, xs), ys)
    decreases |xs|
  {
    if xs == [] {
      assert xs + ys == ys;
    } else {
      RunConcat(cfg, Step(cfg, s, xs[0]), xs[1..], ys);
      assert (xs + ys)[1..] == xs[1..] + ys;
    }
  }

  lemma ReachableRun(cfg: Config, s: Sys, events: seq<Event>)
    requires Reachable(cfg, s) && ValidRun(cfg, s, events)
    ensures Reachable(cfg, Run(cfg, s, events))
  {
    var before :| ValidRun(cfg, INIT, before) && Run(cfg, INIT, before) == s;
    RunConcat(cfg, INIT, before, events);
  }

  lemma ReachableStep(cfg: Config, s: Sys, e: Event)
    requires Reachable(cfg, s) && Enabled(s, e)
    ensures Reachable(cfg, Step(cfg, s, e))
  {
    assert [e][1..] == [];
    assert Run(cfg, Step(cfg, s, e), []) == Step(cfg, s, e);
    ReachableRun(cfg, s, [e]);
  }

  /** The requests admitted as probes of the current half-open window and still in flight. */
  function Probes(s: Sys): set<nat> {
    set id | id in s.inFlight && s.inFlight[id] == Probe(s.window)
  }

  function CountFalse(xs: seq<bool>): nat {
    if xs == [] then 0 else CountFalse(xs[..|xs| - 1]) + (if xs[|xs| - 1] then 0 else 1)
  }

  /** The length of the run of successes at the end. */
  function TrailingTrue(xs: seq<bool>): (n: nat)
    ensures n <= |xs|
    ensures forall k :: |xs| - n <= k < |xs| ==> xs[k]
    ensures n < |xs| ==> !xs[|xs| - n - 1]
  {
    if xs == [] || !xs[|xs| - 1] then 0 else 1 + TrailingTrue(xs[..|xs| - 1])
  }

  /** How many more completions a half-open window can take, at most. */
  function Budget(cfg: Config, m: Metrics): int {
    var failuresLeft := HalfOpenLimit(cfg) - m.failureCount;
    Times(cfg.threshold, if failuresLeft < 0 then 0 else failuresLeft) - m.consecutiveSuccesses
  }

  predicate TicketsInv(s: Sys) {
    forall id :: id in s.inFlight && s.inFlight[id].Probe? ==> s.inFlight[id].window <= s.window
  }

  /** The slot counter against the probes really outstanding. */
  predicate ProbeInv(cfg: Config, s: Sys) {
    InState(s.circuit, HALF_OPEN) ==>
      var m := s.circuit.value;
      && m.halfOpenInFlight <= |Probes(s)| <= m.halfOpenInFlight + s.stragglers
      && m.halfOpenInFlight <= HalfOpenLimit(cfg)
      && s.stragglers <= |s.outcomes|
  }

  /** The half-open counters as functions of the outcomes recorded in the window. */
  predicate VerdictInv(cfg: Config, s: Sys) {
    InState(s.circuit, HALF_OPEN) ==>
      var m := s.circuit.value;
      && m.failureCount == CountFalse(s.outcomes) < HalfOpenLimit(cfg)
      && m.consecutiveSuccesses == TrailingTrue(s.outcomes) < cfg.threshold
      && |s.outcomes| + Budget(cfg, m) <= Times(cfg.threshold, HalfOpenLimit(cfg))
  }

  predicate Inv(cfg: Config, s: Sys) {
    TicketsInv(s) && ProbeInv(cfg, s) && VerdictInv(cfg, s) && (s.circuit.Some? ==> cfg.enabled)
  }

  lemma StepKeepsTickets(cfg: Config, s: Sys, e: Event)
    requires TicketsInv(s) && Enabled(s, e)
    ensures TicketsInv(Step(cfg, s, e))
  {
  }

  lemma AdmitKeepsProbes(cfg: Config, s: Sys, id: nat, now: int)
    requires cfg.Valid() && Inv(cfg, s) && Enabled(s, Admit(id, now))
    ensures ProbeInv(cfg, StepAdmit(cfg, s, id, now))
  {
    var t := StepAdmit(cfg, s, id, now);
    if InState(t.circuit, HALF_OPEN) {
      if InState(s.circuit, OPEN) {
        assert Probes(t) == {id};
      } else if t.inFlight == s.inFlight {
        assert Probes(t) == Probes(s);
      } else {
        assert Probes(t) == Probes(s) + {id};
      }
    }
  }

  lemma ProbesAfterComplete(s: Sys, t: Sys, id: nat)
    requires id in s.inFlight && t.inFlight == s.inFlight - {id} && t.window == s.window
    ensures |Probes(t)| == |Probes(s)| - (if s.inFlight[id] == Probe(s.window) then 1 else 0)
  {
    if s.inFlight[id] == Probe(s.window) {
      assert Probes(t) == Probes(s) - {id};
    } else {
      assert Probes(t) == Probes(s);
    }
  }

  lemma RecordReleases(cfg: Config, c: Option<Metrics>, outcome: Outcome, now: int)
    requires InState(Record(cfg, c, outcome, now), HALF_OPEN) && cfg.enabled
    ensures InState(c, HALF_OPEN)
    ensures var f := c.value.halfOpenInFlight;
            Record(cfg, c, outcome, now).value.halfOpenInFlight == if f == 0 then 0 else f - 1
  {
  }

  lemma CompleteKeepsProbes(cfg: Config, s: Sys, id: nat, outcome: Outcome, now: int)
    requires cfg.Valid() && Inv(cfg, s) && Enabled(s, Complete(id, outcome, now))
    ensures ProbeInv(cfg, StepComplete(cfg, s, id, outcome, now))
  {
    var t := StepComplete(cfg, s, id, outcome, now);
    if InState(t.circuit, HALF_OPEN) {
      ProbesAfterComplete(s, t, id);
      RecordReleases(cfg, s.circuit, outcome, now);
    }
  }

  lemma StepKeepsProbes(cfg: Config, s: Sys, e: Event)
    requires cfg.Valid() && Inv(cfg, s) && Enabled(s, e)
    ensures ProbeInv(cfg, Step(cfg, s, e))
  {
    match e
    case Admit(id, now) => AdmitKeepsProbes(cfg, s, id, now);
    case Complete(id, outcome, now) => CompleteKeepsProbes(cfg, s, id, outcome, now);
    case Cleanup(now) => assert Probes(Step(cfg, s, e)) == Probes(s);
    case Delete(now) =>
  }

  lemma BudgetStep(cfg: Config, m: Metrics, n: Metrics)
    requires m.consecutiveSuccesses < cfg.threshold && m.failureCount < HalfOpenLimit(cfg)
    requires || (n.failureCount == m.failureCount && n.consecutiveSuccesses == m.consecutiveSuccesses + 1)
             || (n.failureCount == m.failureCount + 1 && n.consecutiveSuccesses == 0)
    ensures Budget(cfg, n) < Budget(cfg, m)
  {
    if n.failureCount == m.failureCount + 1 {
      var k := HalfOpenLimit(cfg) - m.failureCount;
      assert Times(cfg.threshold, k) == Times(cfg.threshold, k - 1) + cfg.threshold;
    }
  }

  lemma StepKeepsVerdict(cfg: Config, s: Sys, e: Event)
    requires cfg.Valid() && Inv(cfg, s) && Enabled(s, e)
    ensures VerdictInv(cfg, Step(cfg, s, e))
  {
    var t := Step(cfg, s, e);
    if e.Complete? && InState(s.circuit, HALF_OPEN) {
      assert t.outcomes[..|t.outcomes| - 1] == s.outcomes;
      if InState(t.circuit, HALF_OPEN) {
        BudgetStep(cfg, s.circuit.value, t.circuit.value);
      }
    } else if e.Admit? && InState(s.circuit, OPEN) && InState(t.circuit, HALF_OPEN) {
      assert t.outcomes == [];
    }
  }

  lemma StepKeepsInv(cfg: Config, s: Sys, e: Event)
    requires cfg.Valid() && Inv(cfg, s) && Enabled(s, e)
    ensures Inv(cfg, Step(cfg, s, e))
  {
    StepKeepsTickets(cfg, s, e);
    StepKeepsProbes(cfg, s, e);
    StepKeepsVerdict(cfg, s, e);
  }

  lemma {:induction false} RunKeepsInv(cfg: Config, s: Sys, events: seq<Event>)
    requires cfg.Valid() && Inv(cfg, s) && ValidRun(cfg, s, events)
    ensures Inv(cfg, Run(cfg, s, events))
    decreases |events|
  {
    if events != [] {
      StepKeepsInv(cfg, s, events[0]);
      RunKeepsInv(cfg, Step(cfg, s, events[0]), events[1..]);
    }
  }

  lemma ReachableInv(cfg: Config, s: Sys)
    requires cfg.Valid() && Reachable(cfg, s)
    ensures Inv(cfg, s)
  {
    var events :| ValidRun(cfg, INIT, events) && Run(cfg, INIT, events) == s;
    RunKeepsInv(cfg, INIT, events);
  }
}
