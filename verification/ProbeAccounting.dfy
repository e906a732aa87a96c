/** The probe slots of a half-open window over every interleaving. */
module ProbeAccounting {
  import opened CircuitBreakerModel
  import opened CircuitRuns
  import opened CircuitWitness

  /** The slot counter never overstates the outstanding probes, and understates them by at most
      the completions that requests of earlier states recorded in this window. */
  lemma ProbeAccounting(cfg: Config, s: Sys)
    requires cfg.Valid() && Reachable(cfg, s) && InState(s.circuit, HALF_OPEN)
    ensures var counter := s.circuit.value.halfOpenInFlight;
            && counter <= |Probes(s)| <= counter + s.stragglers
            && counter <= HalfOpenLimit(cfg)
    ensures |Probes(s)| <= HalfOpenLimit(cfg) + s.stragglers
    ensures s.stragglers == 0 ==> |Probes(s)| == s.circuit.value.halfOpenInFlight <= HalfOpenLimit(cfg)
    ensures |Probes(s)| < HalfOpenLimit(cfg) + cfg.threshold * HalfOpenLimit(cfg)
  {
    ReachableInv(cfg, s);
    BudgetPositive(cfg, s.circuit.value);
    TimesIsProduct(cfg.threshold, HalfOpenLimit(cfg));
  }

  lemma BudgetPositive(cfg: Config, m: Metrics)
    requires m.failureCount < HalfOpenLimit(cfg) && m.consecutiveSuccesses < cfg.threshold
    ensures Budget(cfg, m) >= 1
  {
    TimesMonotone(cfg.threshold, 1, HalfOpenLimit(cfg) - m.failureCount);
    assert Times(cfg.threshold, 1) == Times(cfg.threshold, 0) + cfg.threshold;
  }

  /** The documented limit: never more probes in flight than failures that would reopen. */
  ghost predicate ProbeLimitHolds(cfg: Config) {
    forall s :: Reachable(cfg, s) && InState(s.circuit, HALF_OPEN) ==> |Probes(s)| <= HalfOpenLimit(cfg)
  }

  /** The documented limit is met in every run exactly when the threshold is 1: with a larger one, a
      straggler's success frees a slot that its own probe still occupies. */
  lemma ProbeLimitHoldsIff(cfg: Config)
    requires cfg.Valid() && cfg.enabled
    ensures ProbeLimitHolds(cfg) <==> cfg.threshold == 1
  {
    if cfg.threshold == 1 {
      forall s | Reachable(cfg, s) && InState(s.circuit, HALF_OPEN)
        ensures |Probes(s)| <= HalfOpenLimit(cfg)
      {
        ReachableInv(cfg, s);
        BudgetPositive(cfg, s.circuit.value);
        TimesIsProduct(cfg.threshold, HalfOpenLimit(cfg));
      }
    } else {
      ProbeLimitExceeded(cfg);
    }
  }

  lemma ProbeLimitExceeded(cfg: Config)
    requires cfg.Valid() && cfg.enabled && cfg.threshold >= 2
    ensures Reachable(cfg, Overfull(cfg)) && InState(Overfull(cfg).circuit, HALF_OPEN)
    ensures |Probes(Overfull(cfg))| == HalfOpenLimit(cfg) + 1
  {
    OverfullReachable(cfg);
    var lo, hi := cfg.threshold + 1, cfg.threshold + HalfOpenLimit(cfg) + 2;
    assert Probes(Overfull(cfg)) == Ids(lo, hi);
    IdsSize(lo, hi);
  }

  lemma {:induction false} IdsSize(lo: nat, hi: nat)
    requires lo <= hi
    ensures |Ids(lo, hi)| == hi - lo
    decreases hi - lo
  {
    if lo < hi {
      IdsSize(lo, hi - 1);
    }
  }
}
