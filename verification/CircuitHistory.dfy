/** What a circuit remembers of the requests that went through it, and whom it lets through, over whole
    runs. */
module CircuitHistory {
  import opened Wrappers
  import opened CircuitBreakerModel
  import opened CircuitRuns
  import OpenHolds

  /** Only server errors and failed requests count against a service: exactly they register a circuit. */
  lemma RegistersIff(cfg: Config, s: Sys, e: Event)
    requires cfg.Valid() && Enabled(s, e) && e.Complete? && s.circuit.None?
    ensures Step(cfg, s, e).circuit.Some? <==>
              cfg.enabled && (e.outcome.RequestError? || (e.outcome.ResponseError? && e.outcome.status >= 500))
  {
  }

  predicate ActivityInv(cfg: Config, s: Sys) {
    s.circuit.Some? ==>
      && cfg.enabled && s.recordedAt >= 1 && s.recordedAt <= s.clock
      && s.circuit.value.lastActivityTime == Some(s.recordedAt)
  }

  lemma StepKeepsActivity(cfg: Config, s: Sys, e: Event)
    requires ActivityInv(cfg, s) && Enabled(s, e)
    ensures ActivityInv(cfg, Step(cfg, s, e))
  {
  }

  lemma {:induction false} RunKeepsActivity(cfg: Config, s: Sys, events: seq<Event>)
    requires ActivityInv(cfg, s) && ValidRun(cfg, s, events)
    ensures ActivityInv(cfg, Run(cfg, s, events))
    decreases |events|
  {
    if events != [] {
      StepKeepsActivity(cfg, s, events[0]);
      RunKeepsActivity(cfg, Step(cfg, s, events[0]), events[1..]);
    }
  }

  lemma ReachableActivity(cfg: Config, s: Sys)
    requires Reachable(cfg, s)
    ensures ActivityInv(cfg, s)
  {
    var events :| ValidRun(cfg, INIT, events) && Run(cfg, INIT, events) == s;
    RunKeepsActivity(cfg, INIT, events);
  }

  /** In every run the cleanup removes a circuit exactly when no outcome was recorded in it for more than
      ten rolling windows. A success in CLOSED is recorded, and keeps it; a failure in OPEN is not. */
  lemma CleanupRemovesIff(cfg: Config, s: Sys, now: int)
    requires Reachable(cfg, s) && s.circuit.Some? && Enabled(s, Cleanup(now))
    ensures Step(cfg, s, Cleanup(now)).circuit.None? <==> now - s.recordedAt > 10 * cfg.rollingWindow
    ensures Step(cfg, s, Cleanup(now)).circuit.Some? ==> Step(cfg, s, Cleanup(now)).circuit == s.circuit
  {
    ReachableActivity(cfg, s);
  }

  /** Whom a circuit lets through, in every reachable state: everyone while there is none or it is CLOSED,
      in OPEN those who come from the retry time on, in HALF_OPEN those who find a free slot. A refused
      call leaves no trace. */
  lemma AdmittedIff(cfg: Config, s: Sys, id: nat, now: int)
    requires cfg.Valid() && Reachable(cfg, s) && Enabled(s, Admit(id, now))
    ensures Admitted(cfg, s, Admit(id, now)) <==>
              || s.circuit.None? || InState(s.circuit, CLOSED)
              || (InState(s.circuit, OPEN) && s.circuit.value.nextAttemptTime.Some?
                  && now >= s.circuit.value.nextAttemptTime.value)
              || (InState(s.circuit, HALF_OPEN) && s.circuit.value.halfOpenInFlight < HalfOpenLimit(cfg))
    ensures !Admitted(cfg, s, Admit(id, now)) ==> Step(cfg, s, Admit(id, now)) == s.(clock := now)
    ensures Admitted(cfg, s, Admit(id, now)) ==> id in Step(cfg, s, Admit(id, now)).inFlight
  {
    ReachableActivity(cfg, s);
    OpenHolds.ReachableOpenInv(cfg, s);
  }

  /** A disabled breaker never has a circuit and lets everyone through. */
  lemma DisabledAdmitsAll(cfg: Config, s: Sys, id: nat, now: int)
    requires cfg.Valid() && !cfg.enabled && Reachable(cfg, s) && Enabled(s, Admit(id, now))
    ensures s.circuit.None? && Admitted(cfg, s, Admit(id, now))
  {
    ReachableActivity(cfg, s);
  }

  /** The times of the completions that count as failures. */
  function FailureTimes(events: seq<Event>): seq<int> {
    if events == [] then []
    else
      FailureTimes(events[..|events| - 1]) +
      var e := events[|events| - 1];
      if e.Complete? && CountsAsFailure(e.outcome) then [e.now] else []
  }

  lemma {:induction false} RunSnoc(cfg: Config, s: Sys, events: seq<Event>)
    requires events != [] && ValidRun(cfg, s, events)
    ensures var front, last := events[..|events| - 1], events[|events| - 1];
            && ValidRun(cfg, s, front) && Enabled(Run(cfg, s, front), last)
            && Run(cfg, s, events) == Step(cfg, Run(cfg, s, front), last)
    decreases |events|
  {
    if |events| > 1 {
      var front := events[..|events| - 1];
      RunSnoc(cfg, Step(cfg, s, events[0]), events[1..]);
      assert front[1..] == events[1..][..|events| - 2];
    } else {
      assert events[..0] == [] && events[1..] == [];
    }
  }

  /** k events into the run there was no circuit, and the failures counted are those of the events since. */
  ghost predicate CountedSince(cfg: Config, events: seq<Event>, k: nat)
    requires ValidRun(cfg, INIT, events)
  {
    && k <= |events| && ValidRun(cfg, INIT, events[..k])
    && Run(cfg, INIT, events[..k]).circuit.None?
    && Run(cfg, INIT, events).failures == FailureTimes(events[k..])
  }

  lemma CountedSinceStep(cfg: Config, events: seq<Event>, k: nat)
    requires events != [] && ValidRun(cfg, INIT, events) && ValidRun(cfg, INIT, events[..|events| - 1])
    requires InState(Run(cfg, INIT, events[..|events| - 1]).circuit, CLOSED)
    requires InState(Run(cfg, INIT, events).circuit, CLOSED)
    requires CountedSince(cfg, events[..|events| - 1], k)
    ensures CountedSince(cfg, events, k)
  {
    var front := events[..|events| - 1];
    RunSnoc(cfg, INIT, events);
    RunKeepsActivity(cfg, INIT, front);
    assert front[..k] == events[..k] && front[k..] == events[k..][..|events[k..]| - 1];
    var s, e := Run(cfg, INIT, front), events[|events| - 1];
    assert e == events[k..][|events[k..]| - 1];
    assert Step(cfg, s, e).failures == s.failures + if e.Complete? && CountsAsFailure(e.outcome) then [e.now] else [];
  }

  /** In every run that ends in CLOSED, the failures the circuit counts from are exactly the failing
      completions since some moment at which there was no circuit, each at its own time. */
  lemma {:induction false} ClosedCountsCompletions(cfg: Config, events: seq<Event>) returns (k: nat)
    requires cfg.Valid() && ValidRun(cfg, INIT, events) && InState(Run(cfg, INIT, events).circuit, CLOSED)
    ensures CountedSince(cfg, events, k)
    decreases |events|
  {
    var front := events[..|events| - 1];
    RunSnoc(cfg, INIT, events);
    var s, e := Run(cfg, INIT, front), events[|events| - 1];
    if InState(s.circuit, CLOSED) {
      k := ClosedCountsCompletions(cfg, front);
      CountedSinceStep(cfg, events, k);
    } else {
      k := |events| - 1;
      assert events[k..] == [e] && [e][..0] == [] && FailureTimes([]) == [];
    }
  }
}
