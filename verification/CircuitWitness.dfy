/** A family of runs, for every configuration, that trips the circuit with one request left over
    from before, and then fills the half-open window. They witness the limits of the guarantees
    proved elsewhere. */
module CircuitWitness {
  import opened Wrappers
  import opened CircuitBreakerModel
  import opened CircuitRuns

  function Ids(lo: nat, hi: nat): (ids: set<nat>)
    requires lo <= hi
    ensures forall i: nat :: i in ids <==> lo <= i < hi
    decreases hi - lo
  {
    if lo == hi then {} else Ids(lo, hi - 1) + {hi - 1}
  }

  function Waiting(ids: set<nat>): map<nat, Ticket> {
    map i | i in ids :: NoProbe
  }

  function LateAndProbes(late: nat, ids: set<nat>): map<nat, Ticket> {
    map i | i in ids :: if i == late then NoProbe else Probe(1)
  }

  /** After n admissions with no circuit. */
  function Idle(n: nat): Sys {
    INIT.(clock := if n == 0 then 0 else 1, inFlight := Waiting(Ids(0, n)))
  }

  function FailingCircuit(cfg: Config, k: nat): Option<Metrics> {
    if k == 0 then None
    else if k < cfg.threshold then Some(Metrics(CLOSED, k, 0, 0, Some(1), Some(1), None))
    else Some(Metrics(OPEN, k, 0, 0, Some(1), Some(1), Some(1 + cfg.timeout)))
  }

  /** threshold + 1 requests were admitted at time 1 and k of them have failed. */
  function Failing(cfg: Config, k: nat): Sys
    requires k <= cfg.threshold
  {
    INIT.(clock := 1, circuit := FailingCircuit(cfg, k),
          inFlight := Waiting(Ids(k, cfg.threshold + 1)),
          failures := seq(k, _ => 1),
          closedOutcomes := seq(k, _ => false),
          recordedAt := if k == 0 then 0 else 1)
  }

  /** The timeout has passed and j probes were admitted; request `threshold` is still in flight. */
  function Probing(cfg: Config, j: nat): Sys {
    INIT.(clock := 1 + cfg.timeout,
          circuit := Some(Metrics(HALF_OPEN, 0, 0, j, Some(1), Some(1), Some(1 + cfg.timeout))),
          inFlight := LateAndProbes(cfg.threshold, Ids(cfg.threshold, cfg.threshold + j + 1)),
          window := 1,
          failures := seq(cfg.threshold, _ => 1),
          closedOutcomes := seq(cfg.threshold, _ => false),
          recordedAt := 1)
  }

  lemma {:induction false} IdleReachable(cfg: Config, n: nat)
    ensures Reachable(cfg, Idle(n))
  {
    if n == 0 {
      assert Idle(0).inFlight == map[];
      assert ValidRun(cfg, INIT, []) && Run(cfg, INIT, []) == INIT;
    } else {
      IdleReachable(cfg, n - 1);
      var e := Admit(n - 1, 1);
      assert Step(cfg, Idle(n - 1), e) == Idle(n);
      ReachableStep(cfg, Idle(n - 1), e);
    }
  }

  lemma FailingStep(cfg: Config, k: nat)
    requires cfg.Valid() && cfg.enabled && k < cfg.threshold
    ensures Enabled(Failing(cfg, k), Complete(k, RequestError, 1))
    ensures Step(cfg, Failing(cfg, k), Complete(k, RequestError, 1)) == Failing(cfg, k + 1)
  {
    var s := Failing(cfg, k);
    assert s.inFlight - {k} == Failing(cfg, k + 1).inFlight;
    assert RecordFailure(cfg, FailingCircuit(cfg, k), 1) == FailingCircuit(cfg, k + 1);
    assert seq(k + 1, _ => 1) == s.failures + [1];
    assert seq(k + 1, _ => false) == s.closedOutcomes + [false];
    assert k == 0 ==> s.failures == [] && s.closedOutcomes == [];
  }

  lemma {:induction false} FailingReachable(cfg: Config, k: nat)
    requires cfg.Valid() && cfg.enabled && k <= cfg.threshold
    ensures Reachable(cfg, Failing(cfg, k))
  {
    if k == 0 {
      IdleReachable(cfg, cfg.threshold + 1);
      assert Failing(cfg, 0) == Idle(cfg.threshold + 1);
    } else {
      FailingReachable(cfg, k - 1);
      FailingStep(cfg, k - 1);
      ReachableStep(cfg, Failing(cfg, k - 1), Complete(k - 1, RequestError, 1));
    }
  }

  lemma ProbingStep(cfg: Config, j: nat)
    requires cfg.Valid() && cfg.enabled && j < HalfOpenLimit(cfg)
    requires Reachable(cfg, if j == 0 then Failing(cfg, cfg.threshold) else Probing(cfg, j))
    ensures Reachable(cfg, Probing(cfg, j + 1))
  {
    var s := if j == 0 then Failing(cfg, cfg.threshold) else Probing(cfg, j);
    var e := Admit(cfg.threshold + j + 1, 1 + cfg.timeout);
    assert s.inFlight[cfg.threshold + j + 1 := Probe(1)] == Probing(cfg, j + 1).inFlight;
    assert Step(cfg, s, e) == Probing(cfg, j + 1);
    ReachableStep(cfg, s, e);
  }

  lemma {:induction false} ProbingReachable(cfg: Config, j: nat)
    requires cfg.Valid() && cfg.enabled && 1 <= j <= HalfOpenLimit(cfg)
    ensures Reachable(cfg, Probing(cfg, j))
  {
    if j == 1 {
      FailingReachable(cfg, cfg.threshold);
    } else {
      ProbingReachable(cfg, j - 1);
    }
    ProbingStep(cfg, j - 1);
  }

  /** The leftover request then succeeds, which frees a slot no probe has left. */
  function Freed(cfg: Config, j: nat): Sys
    requires j >= 1
  {
    Probing(cfg, j).(
      circuit := Some(Metrics(HALF_OPEN, 0, 1, j - 1, Some(1), Some(1 + cfg.timeout), Some(1 + cfg.timeout))),
      inFlight := LateAndProbes(cfg.threshold, Ids(cfg.threshold + 1, cfg.threshold + j + 1)),
      outcomes := [true],
      stragglers := 1,
      recordedAt := 1 + cfg.timeout)
  }

  lemma FreedReachable(cfg: Config, j: nat)
    requires cfg.Valid() && cfg.enabled && cfg.threshold >= 2 && 1 <= j <= HalfOpenLimit(cfg)
    ensures Reachable(cfg, Freed(cfg, j))
  {
    ProbingReachable(cfg, j);
    var s := Probing(cfg, j);
    var e := Complete(cfg.threshold, Response, 1 + cfg.timeout);
    assert s.inFlight - {cfg.threshold} == Freed(cfg, j).inFlight;
    assert Step(cfg, s, e) == Freed(cfg, j);
    ReachableStep(cfg, s, e);
  }

  /** One more probe than slots. */
  function Overfull(cfg: Config): Sys {
    var h := HalfOpenLimit(cfg);
    INIT.(clock := 1 + cfg.timeout,
          circuit := Some(Metrics(HALF_OPEN, 0, 1, h, Some(1), Some(1 + cfg.timeout), Some(1 + cfg.timeout))),
          inFlight := LateAndProbes(cfg.threshold, Ids(cfg.threshold + 1, cfg.threshold + h + 2)),
          window := 1,
          outcomes := [true],
          stragglers := 1,
          failures := seq(cfg.threshold, _ => 1),
          closedOutcomes := seq(cfg.threshold, _ => false),
          recordedAt := 1 + cfg.timeout)
  }

  lemma OverfullReachable(cfg: Config)
    requires cfg.Valid() && cfg.enabled && cfg.threshold >= 2
    ensures Reachable(cfg, Overfull(cfg))
  {
    var h := HalfOpenLimit(cfg);
    FreedReachable(cfg, h);
    var s := Freed(cfg, h);
    var e := Admit(cfg.threshold + h + 1, 1 + cfg.timeout);
    assert s.inFlight[cfg.threshold + h + 1 := Probe(1)] == Overfull(cfg).inFlight;
    assert Step(cfg, s, e) == Overfull(cfg);
    ReachableStep(cfg, s, e);
  }
}
