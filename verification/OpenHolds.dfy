/** An OPEN circuit stays shut until its retry time. */
module OpenHolds {
  import opened Wrappers
  import opened CircuitBreakerModel
  import opened CircuitRuns
  import opened CircuitWitness

  predicate OpenInv(cfg: Config, s: Sys) {
    && s.clock >= 0
    && (s.circuit.Some? ==> cfg.enabled)
    && (InState(s.circuit, OPEN) ==>
          var m := s.circuit.value;
          && m.nextAttemptTime.Some? && m.nextAttemptTime.value >= 1
          && m.lastActivityTime.Some?
          && 1 <= m.lastActivityTime.value
          && m.nextAttemptTime.value - cfg.timeout <= m.lastActivityTime.value <= s.clock)
  }

  lemma StepKeepsOpenInv(cfg: Config, s: Sys, e: Event)
    requires OpenInv(cfg, s) && Enabled(s, e)
    ensures OpenInv(cfg, Step(cfg, s, e))
  {
  }

  lemma {:induction false} RunKeepsOpenInv(cfg: Config, s: Sys, events: seq<Event>)
    requires OpenInv(cfg, s) && ValidRun(cfg, s, events)
    ensures OpenInv(cfg, Run(cfg, s, events))
    decreases |events|
  {
    if events != [] {
      StepKeepsOpenInv(cfg, s, events[0]);
      RunKeepsOpenInv(cfg, Step(cfg, s, events[0]), events[1..]);
    }
  }

  lemma ReachableOpenInv(cfg: Config, s: Sys)
    requires Reachable(cfg, s)
    ensures OpenInv(cfg, s)
  {
    var events :| ValidRun(cfg, INIT, events) && Run(cfg, INIT, events) == s;
    RunKeepsOpenInv(cfg, INIT, events);
  }

  predicate Before(events: seq<Event>, time: int) {
    forall e :: e in events ==> e.now < time && !e.Delete?
  }

  /** Along the run every admission is refused and the circuit stays OPEN with its retry time. */
  predicate StaysShut(cfg: Config, s: Sys, events: seq<Event>)
    requires ValidRun(cfg, s, events)
    decreases |events|
  {
    InState(s.circuit, OPEN) &&
    (events == [] ||
     (&& (events[0].Admit? ==> !Admitted(cfg, s, events[0]))
      && var t := Step(cfg, s, events[0]);
         && (t.circuit.Some? ==> t.circuit.value.nextAttemptTime == s.circuit.value.nextAttemptTime)
         && StaysShut(cfg, t, events[1..])))
  }

  /** From any OPEN state of any run, no mix of calls, late completions and cleanups before the
      retry time gets a request admitted or the circuit removed. */
  ghost predicate OpenAlwaysHolds(cfg: Config) {
    forall s, events ::
      Reachable(cfg, s) && InState(s.circuit, OPEN) && ValidRun(cfg, s, events) &&
      s.circuit.value.nextAttemptTime.Some? && Before(events, s.circuit.value.nextAttemptTime.value)
      ==> StaysShut(cfg, s, events)
  }

  lemma {:induction false} StaysShutUntilRetry(cfg: Config, s: Sys, events: seq<Event>)
    requires OpenInv(cfg, s) && InState(s.circuit, OPEN) && ValidRun(cfg, s, events)
    requires Before(events, s.circuit.value.nextAttemptTime.value)
    requires cfg.timeout <= 10 * cfg.rollingWindow + 1
    ensures StaysShut(cfg, s, events)
    decreases |events|
  {
    if events != [] {
      assert events[0] in events;
      var t := Step(cfg, s, events[0]);
      StepKeepsOpenInv(cfg, s, events[0]);
      StaysShutUntilRetry(cfg, t, events[1..]);
    }
  }

  /** The guarantee holds in every run exactly when the timeout is at most one millisecond over the
      staleness age: past that, the cleanup removes an OPEN circuit that is still waiting. */
  lemma OpenHoldsIff(cfg: Config)
    requires cfg.Valid() && cfg.enabled
    ensures OpenAlwaysHolds(cfg) <==> cfg.timeout <= 10 * cfg.rollingWindow + 1
  {
    if cfg.timeout <= 10 * cfg.rollingWindow + 1 {
      forall s, events |
        Reachable(cfg, s) && InState(s.circuit, OPEN) && ValidRun(cfg, s, events) &&
        s.circuit.value.nextAttemptTime.Some? && Before(events, s.circuit.value.nextAttemptTime.value)
        ensures StaysShut(cfg, s, events)
      {
        ReachableOpenInv(cfg, s);
        StaysShutUntilRetry(cfg, s, events);
      }
    } else {
      var s, events := CleanedUpEarly(cfg);
      assert !StaysShut(cfg, s, events);
    }
  }

  lemma CleanedUpEarly(cfg: Config) returns (s: Sys, events: seq<Event>)
    requires cfg.Valid() && cfg.enabled && cfg.timeout > 10 * cfg.rollingWindow + 1
    ensures s == Failing(cfg, cfg.threshold)
    ensures Reachable(cfg, s) && InState(s.circuit, OPEN) && ValidRun(cfg, s, events)
    ensures s.circuit.value.nextAttemptTime.Some? && Before(events, s.circuit.value.nextAttemptTime.value)
    ensures !StaysShut(cfg, s, events)
    ensures Run(cfg, s, events).inFlight.Keys == s.inFlight.Keys + {0}
  {
    s := Failing(cfg, cfg.threshold);
    FailingReachable(cfg, cfg.threshold);
    var at := 2 + 10 * cfg.rollingWindow;
    var sweep, call := CircuitRuns.Cleanup(at), Admit(0, at);
    events := [sweep, call];
    var swept := Step(cfg, s, sweep);
    assert events[1..] == [call] && [call][1..] == [];
    assert ValidRun(cfg, Step(cfg, swept, call), []);
    assert Run(cfg, Step(cfg, swept, call), []) == Step(cfg, swept, call);
    assert ValidRun(cfg, swept, [call]) && Run(cfg, swept, [call]) == Step(cfg, swept, call);
  }

  /** The first call at or after the retry time is admitted, as the only probe of a new window. */
  lemma FirstCallIsAdmitted(cfg: Config, s: Sys, id: nat, now: int)
    requires cfg.Valid() && Reachable(cfg, s) && InState(s.circuit, OPEN)
    requires Enabled(s, Admit(id, now))
    ensures s.circuit.value.nextAttemptTime.Some?
    ensures Admitted(cfg, s, Admit(id, now)) <==> now >= s.circuit.value.nextAttemptTime.value
    ensures now >= s.circuit.value.nextAttemptTime.value ==>
              var t := Step(cfg, s, Admit(id, now));
              && InState(t.circuit, HALF_OPEN) && t.circuit.value.halfOpenInFlight == 1
              && t.window == s.window + 1 && t.outcomes == [] && Probes(t) == {id}
  {
    ReachableOpenInv(cfg, s);
    ReachableInv(cfg, s);
  }

  /** A completion that opens a circuit: absent or CLOSED before, or reopened from HALF_OPEN. */
  predicate OpensNow(cfg: Config, s: Sys, e: Event) {
    Enabled(s, e) && e.Complete? && !InState(s.circuit, OPEN) && InState(Step(cfg, s, e).circuit, OPEN)
  }

  /** Every opening sets the retry time to one timeout later. */
  lemma RetryTimeOfOpening(cfg: Config, s: Sys, e: Event)
    requires OpensNow(cfg, s, e) && (s.circuit.Some? ==> cfg.enabled)
    ensures Step(cfg, s, e).circuit.value.nextAttemptTime == Some(e.now + cfg.timeout)
  {
  }

  /** From every opening or reopening on, whatever calls, late completions and cleanups come within the
      timeout, all calls are refused and the circuit stays OPEN. */
  ghost predicate ShutForTheTimeout(cfg: Config) {
    forall s, e, events ::
      (&& Reachable(cfg, s) && OpensNow(cfg, s, e)
       && ValidRun(cfg, Step(cfg, s, e), events) && Before(events, e.now + cfg.timeout))
      ==> StaysShut(cfg, Step(cfg, s, e), events)
  }

  lemma {:induction false} ShutRunsStayOpen(cfg: Config, s: Sys, events: seq<Event>)
    requires ValidRun(cfg, s, events) && StaysShut(cfg, s, events)
    ensures InState(Run(cfg, s, events).circuit, OPEN)
    ensures Run(cfg, s, events).circuit.value.nextAttemptTime == s.circuit.value.nextAttemptTime
    decreases |events|
  {
    if events != [] {
      ShutRunsStayOpen(cfg, Step(cfg, s, events[0]), events[1..]);
    }
  }

  lemma OpeningStaysShut(cfg: Config, s: Sys, e: Event, events: seq<Event>)
    requires cfg.timeout <= 10 * cfg.rollingWindow + 1
    requires Reachable(cfg, s) && OpensNow(cfg, s, e) && ValidRun(cfg, Step(cfg, s, e), events)
    requires Before(events, e.now + cfg.timeout)
    ensures StaysShut(cfg, Step(cfg, s, e), events)
  {
    ReachableOpenInv(cfg, s);
    RetryTimeOfOpening(cfg, s, e);
    StepKeepsOpenInv(cfg, s, e);
    StaysShutUntilRetry(cfg, Step(cfg, s, e), events);
  }

  /** The guarantee for the whole timeout after every opening and reopening holds under the same bound. */
  lemma ShutForTheTimeoutIff(cfg: Config)
    requires cfg.Valid() && cfg.enabled
    ensures ShutForTheTimeout(cfg) <==> cfg.timeout <= 10 * cfg.rollingWindow + 1
  {
    if cfg.timeout <= 10 * cfg.rollingWindow + 1 {
      forall s, e, events |
        Reachable(cfg, s) && OpensNow(cfg, s, e) && ValidRun(cfg, Step(cfg, s, e), events)
        && Before(events, e.now + cfg.timeout)
        ensures StaysShut(cfg, Step(cfg, s, e), events)
      {
        OpeningStaysShut(cfg, s, e, events);
      }
    } else {
      var s, events := CleanedUpEarly(cfg);
      var before, e := Failing(cfg, cfg.threshold - 1), Complete(cfg.threshold - 1, RequestError, 1);
      FailingReachable(cfg, cfg.threshold - 1);
      FailingStep(cfg, cfg.threshold - 1);
      assert OpensNow(cfg, before, e) && Step(cfg, before, e) == s;
      assert !StaysShut(cfg, Step(cfg, before, e), events);
    }
  }

  /** And no longer: after any such run the circuit admits a call exactly from one timeout after it opened
      or reopened. */
  lemma AdmitsAfterTheTimeout(cfg: Config, s: Sys, e: Event, events: seq<Event>, id: nat, now: int)
    requires cfg.Valid() && cfg.timeout <= 10 * cfg.rollingWindow + 1
    requires Reachable(cfg, s) && OpensNow(cfg, s, e) && ValidRun(cfg, Step(cfg, s, e), events)
    requires Before(events, e.now + cfg.timeout)
    requires Enabled(Run(cfg, Step(cfg, s, e), events), Admit(id, now))
    ensures Admitted(cfg, Run(cfg, Step(cfg, s, e), events), Admit(id, now)) <==> now >= e.now + cfg.timeout
  {
    var t := Step(cfg, s, e);
    ReachableOpenInv(cfg, s);
    RetryTimeOfOpening(cfg, s, e);
    OpeningStaysShut(cfg, s, e, events);
    ShutRunsStayOpen(cfg, t, events);
    ReachableStep(cfg, s, e);
    ReachableRun(cfg, t, events);
    FirstCallIsAdmitted(cfg, Run(cfg, t, events), id, now);
  }
}
