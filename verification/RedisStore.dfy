/** The Redis commands the cache uses (src/datasources/cache/redis.cache.service.ts), on one key at a
    time, and the jittered time to live it asks for (src/domain/common/utils/number.ts). Times are in
    milliseconds; a key is `None` when it does not exist or has expired. */
module RedisStore {
  import opened Wrappers

  /** A hash key: fields with values, and the time it expires if an expiry was ever set. */
  datatype Hash<V> = Hash(fields: map<string, V>, expireAt: Option<int>)

  /** Redis drops a key when its expiry passes. */
  function Live<V>(h: Option<Hash<V>>, now: int): Option<Hash<V>> {
    if h.Some? && h.value.expireAt.Some? && now >= h.value.expireAt.value then None else h
  }

  function HSet<V>(h: Option<Hash<V>>, field: string, v: V): Option<Hash<V>> {
    if h.Some? then Some(h.value.(fields := h.value.fields[field := v]))
    else Some(Hash(map[field := v], None))
  }

  /** EXPIRE key ttl NX: only a key that exists and has no expiry is changed; a time to live that is
      not positive deletes the key. */
  function ExpireNX<V>(h: Option<Hash<V>>, ttlSeconds: int, now: int): Option<Hash<V>> {
    if h.None? || h.value.expireAt.Some? then h
    else if ttlSeconds <= 0 then None
    else Some(h.value.(expireAt := Some(now + 1000 * ttlSeconds)))
  }

  function HGet<V>(h: Option<Hash<V>>, field: string): Option<V> {
    if h.Some? && field in h.value.fields then Some(h.value.fields[field]) else None
  }

  /** A counter key. */
  datatype Counter = Counter(value: int, expireAt: Option<int>)

  function LiveCounter(c: Option<Counter>, now: int): Option<Counter> {
    if c.Some? && c.value.expireAt.Some? && now >= c.value.expireAt.value then None else c
  }

  function Incr(c: Option<Counter>): Option<Counter> {
    if c.Some? then Some(c.value.(value := c.value.value + 1)) else Some(Counter(1, None))
  }

  function ExpireCounterNX(c: Option<Counter>, ttlSeconds: int, now: int): Option<Counter> {
    if c.None? || c.value.expireAt.Some? then c
    else if ttlSeconds <= 0 then None
    else Some(c.value.(expireAt := Some(now + 1000 * ttlSeconds)))
  }

  /** One less than the largest safe integer, which is 2^53 - 1. */
  const MAX_TTL: int := 9007199254740990

  function Ceil(x: real): int {
    -((-x).Floor)
  }

  function AbsReal(x: real): real {
    if x < 0.0 then -x else x
  }

  /** `u` is the random draw, in [0, 1). */
  function Delta(maxDeviation: real, u: real): int {
    Ceil(u * maxDeviation * 2.0 - maxDeviation)
  }

  function MaxDeviation(value: real, percent: real): real {
    AbsReal(value) * (percent / 100.0)
  }

  function DeviateRandomlyByPercentage(value: real, percent: real, u: real): real {
    value + Delta(MaxDeviation(value, percent), u) as real
  }

  function EnforceMaxRedisTTL(ttl: real): int {
    (if ttl < MAX_TTL as real then ttl else MAX_TTL as real).Floor
  }

  /** The seconds handed to EXPIRE. */
  function ExpirationTime(value: real, percent: real, u: real): int {
    EnforceMaxRedisTTL(DeviateRandomlyByPercentage(value, percent, u))
  }

  predicate IsDraw(u: real) {
    0.0 <= u < 1.0
  }

  lemma CeilMeaning(x: real)
    ensures Ceil(x) as real - 1.0 < x <= Ceil(x) as real
  {
  }

  lemma CeilMonotone(x: real, y: real)
    requires x <= y
    ensures Ceil(x) <= Ceil(y)
  {
    CeilMeaning(x);
    CeilMeaning(y);
  }

  lemma {:induction false} MulMonotone(x: real, y: real, z: real)
    requires 0.0 <= x && y <= z
    ensures x * y <= x * z
  {
    assert x * (z - y) >= 0.0;
  }

  lemma DeltaBounds(m: real, u: real)
    requires m >= 0.0 && IsDraw(u)
    ensures Ceil(-m) <= Delta(m, u) <= Ceil(m)
  {
    MulMonotone(m, 0.0, u);
    MulMonotone(m, u, 1.0);
    var w := u * m;
    assert 0.0 <= w <= m;
    assert u * m * 2.0 - m == w * 2.0 - m;
    CeilMonotone(-m, w * 2.0 - m);
    CeilMonotone(w * 2.0 - m, m);
  }

  lemma MaxDeviationMonotone(x: real, y: real, percent: real)
    requires 0.0 <= x <= y && percent >= 0.0
    ensures 0.0 <= MaxDeviation(x, percent) <= MaxDeviation(y, percent)
  {
    var q := percent / 100.0;
    MulMonotone(q, 0.0, x);
    MulMonotone(q, x, y);
    assert q * x == x * q && q * y == y * q;
  }

  lemma EnforcedBelow(ttl: real, n: int)
    requires ttl <= n as real
    ensures EnforceMaxRedisTTL(ttl) <= n
  {
  }

  lemma DeltaBelow(value: real, limit: real, percent: real, u: real)
    requires 0.0 <= value <= limit && percent >= 0.0 && IsDraw(u)
    ensures Delta(MaxDeviation(value, percent), u) <= Ceil(MaxDeviation(limit, percent))
  {
    MaxDeviationMonotone(value, limit, percent);
    DeltaBounds(MaxDeviation(value, percent), u);
    CeilMonotone(MaxDeviation(value, percent), MaxDeviation(limit, percent));
  }

  /** No draw on a time to live of at most T seconds gives more than T + ceil(T p / 100). */
  lemma ExpirationUpperBound(value: real, limit: int, percent: real, u: real)
    requires 0.0 <= value <= limit as real && percent >= 0.0 && IsDraw(u)
    ensures ExpirationTime(value, percent, u) <= limit + Ceil(limit as real * (percent / 100.0))
  {
    DeltaBelow(value, limit as real, percent, u);
    var top := Ceil(MaxDeviation(limit as real, percent));
    assert (limit + top) as real == limit as real + top as real;
    EnforcedBelow(DeviateRandomlyByPercentage(value, percent, u), limit + top);
  }

  lemma WholeExpiration(seconds: int, percent: real, u: real)
    requires 1 <= seconds <= MAX_TTL
    ensures var d := Delta(MaxDeviation(seconds as real, percent), u);
            ExpirationTime(seconds as real, percent, u) == if seconds + d < MAX_TTL then seconds + d else MAX_TTL
  {
    var d := Delta(MaxDeviation(seconds as real, percent), u);
    assert seconds as real + d as real == (seconds + d) as real;
  }

  lemma ShareOf(t: real, q: real)
    requires t > 0.0
    ensures q < 1.0 ==> t * q < t
    ensures q >= 1.0 ==> t * q >= t
  {
    if q < 1.0 {
      assert t * (1.0 - q) > 0.0;
      assert t * (1.0 - q) == t - t * q;
    } else {
      MulMonotone(t, 1.0, q);
    }
  }

  lemma CeilAbove(x: real, n: int)
    ensures Ceil(x) > n <==> x > n as real
  {
    CeilMeaning(x);
  }

  lemma LowestDelta(seconds: int, percent: real)
    requires 1 <= seconds && percent >= 0.0
    ensures var m := MaxDeviation(seconds as real, percent);
            m >= 0.0 && Delta(m, 0.0) == Ceil(-m) && (Ceil(-m) > -seconds <==> percent < 100.0)
  {
    var t, q := seconds as real, percent / 100.0;
    var m := MaxDeviation(t, percent);
    MaxDeviationMonotone(t, t, percent);
    assert 0.0 * m * 2.0 - m == -m;
    assert m == t * q;
    assert q < 1.0 <==> percent < 100.0;
    ShareOf(t, q);
    CeilAbove(-m, -seconds);
    assert (-seconds) as real == -t;
  }

  /** For a whole number of seconds T >= 1 every draw gives an expiry of at least one second exactly
      when the jitter percentage is below 100; at 100 the lowest draw deletes the key. */
  lemma ExpirationPositiveIff(seconds: int, percent: real)
    requires 1 <= seconds <= MAX_TTL && percent >= 0.0
    ensures (forall u :: IsDraw(u) ==> ExpirationTime(seconds as real, percent, u) >= 1) <==> percent < 100.0
  {
    LowestDelta(seconds, percent);
    forall u | IsDraw(u) && percent < 100.0 ensures ExpirationTime(seconds as real, percent, u) >= 1 {
      DeltaBounds(MaxDeviation(seconds as real, percent), u);
      WholeExpiration(seconds, percent, u);
    }
    assert IsDraw(0.0);
    WholeExpiration(seconds, percent, 0.0);
  }

  /** What is handed to Redis is the largest whole number of seconds up to the time to live and up to two
      less than 2^53. */
  lemma EnforcedIff(ttl: real, n: int)
    ensures n <= EnforceMaxRedisTTL(ttl) <==> n as real <= ttl && n <= 9007199254740990
  {
    var least := if ttl < MAX_TTL as real then ttl else MAX_TTL as real;
    assert n <= least.Floor <==> n as real <= least;
  }

  lemma ShiftedIff(x: real, m: real, k: real)
    requires m > 0.0
    ensures x * m * 2.0 - m <= k <==> x <= (k + m) / (2.0 * m)
  {
    var q := (k + m) / (2.0 * m);
    assert q * (2.0 * m) == k + m;
    assert x * m * 2.0 == x * (2.0 * m);
    if x <= q {
      MulMonotone(2.0 * m, x, q);
      assert 2.0 * m * x == x * (2.0 * m) && 2.0 * m * q == q * (2.0 * m);
    } else {
      assert (x - q) * (2.0 * m) > 0.0;
      assert (x - q) * (2.0 * m) == x * (2.0 * m) - q * (2.0 * m);
    }
  }

  /** How the jitter is distributed: the draws that move a value by at most k are exactly those up to
      (k + m) / 2m, so every whole number of seconds between the bounds is as likely as the next. */
  lemma DeltaAtMostIff(m: real, u: real, k: int)
    requires m > 0.0
    ensures Delta(m, u) <= k <==> u <= (k as real + m) / (2.0 * m)
  {
    CeilMeaning(u * m * 2.0 - m);
    ShiftedIff(u, m, k as real);
  }
}
