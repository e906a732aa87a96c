/** Values and single-call transitions of the circuit breaker
    (src/datasources/circuit-breaker/circuit-breaker.service.ts), one circuit at a time.
    `None` stands for a name that has no circuit. Every call takes one clock reading `now`. */
module CircuitBreakerModel {
  import opened Wrappers

  datatype CircuitState = CLOSED | OPEN | HALF_OPEN

  datatype Config = Config(
    enabled: bool, threshold: nat, timeout: nat, rollingWindow: nat, halfOpenPercent: nat)
  {
    /** The bounds of the configuration schema. */
    predicate Valid() {
      threshold >= 1 && 1 <= halfOpenPercent <= 100
    }
  }

  datatype Metrics = Metrics(
    state: CircuitState,
    failureCount: nat,
    consecutiveSuccesses: nat,
    halfOpenInFlight: nat,
    lastFailureTime: Option<int>,
    lastActivityTime: Option<int>,
    nextAttemptTime: Option<int>)

  datatype Admission = Admission(admitted: bool, circuit: Option<Metrics>)

  const REGISTERED := Metrics(CLOSED, 0, 0, 0, None, None, None)

  /** A timestamp tested for truthiness: absent and zero both count as missing. */
  predicate Truthy(t: Option<int>) {
    t.Some? && t.value != 0
  }

  /** x * y by repeated addition: no product of two variables stands in the transitions. */
  function Times(x: nat, y: nat): nat {
    if y == 0 then 0 else Times(x, y - 1) + x
  }

  lemma {:induction false} TimesIsProduct(x: nat, y: nat)
    ensures Times(x, y) == x * y
  {
    if y > 0 {
      TimesIsProduct(x, y - 1);
      assert x * y == x * (y - 1) + x;
    }
  }

  lemma {:induction false} TimesMonotone(x: nat, y: nat, z: nat)
    requires y <= z
    ensures Times(x, y) <= Times(x, z)
  {
    if y < z {
      TimesMonotone(x, y, z - 1);
    }
  }

  /** ceil(threshold * percentage / 100): the failures that reopen a half-open circuit, which is
      also the number of probe slots. */
  function HalfOpenLimit(cfg: Config): (h: nat)
    ensures cfg.Valid() ==> 1 <= h <= cfg.threshold
  {
    var product := Times(cfg.threshold, cfg.halfOpenPercent);
    assert cfg.Valid() ==> 1 <= product <= 100 * cfg.threshold by {
      if cfg.Valid() {
        LimitBounds(cfg.threshold, cfg.halfOpenPercent);
      }
    }
    (product + 99) / 100
  }

  lemma LimitBounds(threshold: nat, percent: nat)
    requires threshold >= 1 && 1 <= percent <= 100
    ensures 1 <= Times(threshold, percent) <= 100 * threshold
  {
    TimesMonotone(threshold, 1, percent);
    TimesMonotone(threshold, percent, 100);
    TimesIsProduct(threshold, 100);
    assert Times(threshold, 1) == Times(threshold, 0) + threshold;
  }

  /** The limit is the source's rounding up: the least number of failures that makes the percentage. */
  lemma LimitIsCeiling(cfg: Config, h: nat)
    ensures h >= HalfOpenLimit(cfg) <==> 100 * h >= cfg.threshold * cfg.halfOpenPercent
  {
    TimesIsProduct(cfg.threshold, cfg.halfOpenPercent);
  }

  function EffectiveFailureThreshold(cfg: Config, m: Metrics): nat {
    if m.state == HALF_OPEN then HalfOpenLimit(cfg) else cfg.threshold
  }

  function ToHalfOpen(m: Metrics): Metrics {
    m.(consecutiveSuccesses := 0, failureCount := 0, halfOpenInFlight := 0, state := HALF_OPEN)
  }

  function ToOpen(cfg: Config, m: Metrics, now: int): Metrics {
    m.(state := OPEN, halfOpenInFlight := 0, nextAttemptTime := Some(now + cfg.timeout))
  }

  function ReleaseProbe(m: Metrics): Metrics {
    m.(halfOpenInFlight := if m.halfOpenInFlight == 0 then 0 else m.halfOpenInFlight - 1)
  }

  function DiscardOldFailures(cfg: Config, m: Metrics, now: int): Metrics {
    if Truthy(m.lastFailureTime) && now - m.lastFailureTime.value > cfg.rollingWindow
    then m.(failureCount := 0)
    else m
  }

  function ProceedInHalfOpen(cfg: Config, m: Metrics): Admission {
    if m.halfOpenInFlight < EffectiveFailureThreshold(cfg, m)
    then Admission(true, Some(m.(halfOpenInFlight := m.halfOpenInFlight + 1)))
    else Admission(false, Some(m))
  }

  function ProceedInOpen(cfg: Config, m: Metrics, now: int): Admission {
    if Truthy(m.nextAttemptTime) && now >= m.nextAttemptTime.value
    then ProceedInHalfOpen(cfg, ToHalfOpen(m))
    else Admission(false, Some(m))
  }

  function CanProceed(cfg: Config, c: Option<Metrics>, now: int): Admission {
    if !cfg.enabled || c.None? then Admission(true, c)
    else match c.value.state
      case OPEN => ProceedInOpen(cfg, c.value, now)
      case HALF_OPEN => ProceedInHalfOpen(cfg, c.value)
      case CLOSED => Admission(true, c)
  }

  /** Reaching the success threshold in HALF_OPEN closes the circuit by removing it. */
  function RecordSuccess(cfg: Config, c: Option<Metrics>, now: int): Option<Metrics> {
    if !cfg.enabled || c.None? then c
    else
      var m := c.value.(lastActivityTime := Some(now));
      if m.state != HALF_OPEN then Some(m)
      else
        var r := ReleaseProbe(m);
        var counted := r.(consecutiveSuccesses := r.consecutiveSuccesses + 1);
        if counted.consecutiveSuccesses >= cfg.threshold then None else Some(counted)
  }

  function CountFailure(m: Metrics, now: int): Metrics {
    m.(failureCount := m.failureCount + 1, lastFailureTime := Some(now),
       lastActivityTime := Some(now), consecutiveSuccesses := 0)
  }

  function RecordFailure(cfg: Config, c: Option<Metrics>, now: int): Option<Metrics> {
    if !cfg.enabled then c
    else
      var m := if c.Some? then c.value else REGISTERED;
      if m.state == OPEN then Some(m)
      else
        var prepared := if m.state == HALF_OPEN then ReleaseProbe(m)
                        else DiscardOldFailures(cfg, m, now);
        var counted := CountFailure(prepared, now);
        if counted.failureCount >= EffectiveFailureThreshold(cfg, counted)
        then Some(ToOpen(cfg, counted, now))
        else Some(counted)
  }

  /** Ten rolling windows (STALE_MULTIPLIER) without activity. */
  predicate IsStale(cfg: Config, m: Metrics, now: int) {
    !Truthy(m.lastActivityTime) ||
    now - m.lastActivityTime.value > 10 * cfg.rollingWindow
  }

  function Cleanup(cfg: Config, c: Option<Metrics>, now: int): Option<Metrics> {
    if c.Some? && IsStale(cfg, c.value, now) then None else c
  }

  /** How a wrapped request ends (src/datasources/network/network.module.ts). */
  datatype Outcome =
    | Response
    | ResponseError(status: int)
    | RequestError
    | OtherError

  /** Server errors and network errors count as failures; every other ending is a success. */
  predicate CountsAsFailure(o: Outcome) {
    (o.ResponseError? && o.status >= 500) || o.RequestError?
  }

  function Record(cfg: Config, c: Option<Metrics>, o: Outcome, now: int): Option<Metrics> {
    if CountsAsFailure(o) then RecordFailure(cfg, c, now) else RecordSuccess(cfg, c, now)
  }
}
