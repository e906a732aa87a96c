/** The cache service object (src/datasources/cache/redis.cache.service.ts) over a store it updates
    in place. The two commands of hSet run back to back here; CacheStaleness and CacheFirst let
    other clients act between them. */
module RedisCacheService {
  import opened Wrappers
  import opened RedisStore

  datatype Cell = Json(text: string) | TimeMs(ms: int)

  /** Which command of hSet the server fails, if any, and whether the UNLINK that follows succeeds. */
  datatype Fault = NoFault | SetFails(cleaned: bool) | ExpireFails(cleaned: bool)

  /** What hSet leaves of the key, from what was live before. */
  function AfterHSet<V>(before: Option<Hash<V>>, field: string, v: V, ttl: int, now: int, fault: Fault)
    : Option<Hash<V>>
  {
    match fault
    case NoFault => ExpireNX(RedisStore.HSet(before, field, v), ttl, now)
    case SetFails(cleaned) => if cleaned then None else before
    case ExpireFails(cleaned) => if cleaned then None else RedisStore.HSet(before, field, v)
  }

  /** The prefix, a hyphen and the key; the bare key when there is no prefix. */
  function PrefixKey(prefix: string, key: string): string {
    if |prefix| == 0 then key else prefix + "-" + key
  }

  function MarkerKey(key: string): string {
    "invalidationTimeMs:" + key
  }

  /** Distinct keys stay distinct under the prefix, and a key never collides with its own marker. */
  lemma KeysDoNotCollide(prefix: string, a: string, b: string)
    ensures PrefixKey(prefix, a) == PrefixKey(prefix, b) <==> a == b
    ensures PrefixKey(prefix, MarkerKey(a)) != PrefixKey(prefix, a)
    ensures MarkerKey(a) == MarkerKey(b) <==> a == b
  {
    var p := prefix + "-";
    assert (p + a)[|p|..] == a && (p + b)[|p|..] == b;
    assert MarkerKey(a)[19..] == a && MarkerKey(b)[19..] == b;
    assert |PrefixKey(prefix, MarkerKey(a))| == |PrefixKey(prefix, a)| + 19;
  }

  /** Services with different prefixes, free of hyphens, never meet on a key. */
  lemma PrefixesSeparate(p: string, q: string, a: string, b: string)
    requires p != "" && q != "" && p != q && '-' !in p && '-' !in q
    ensures PrefixKey(p, a) != PrefixKey(q, b)
  {
    var x, y := PrefixKey(p, a), PrefixKey(q, b);
    if |p| < |q| {
      assert x[|p|] == '-' && y[|p|] == q[|p|] && q[|p|] in q;
    } else if |q| < |p| {
      assert y[|q|] == '-' && x[|q|] == p[|q|] && p[|q|] in p;
    } else {
      assert x[..|p|] == p && y[..|q|] == q;
    }
  }

  /** What hSet writes reads back under its field until the key expires, the other fields of a live key stay
      readable, and a live key keeps the expiry it has: a new one gets its own. */
  lemma HSetThenHGet<V>(before: Option<Hash<V>>, field: string, v: V, ttl: int, now: int, later: int, f: string)
    requires ttl >= 1 && now <= later && Live(before, now) == before
    ensures var expireAt := if before.Some? && before.value.expireAt.Some? then before.value.expireAt.value
                            else now + 1000 * ttl;
            var after := AfterHSet(before, field, v, ttl, now, NoFault);
            && after.Some? && after.value.expireAt == Some(expireAt)
            && RedisStore.HGet(Live(after, later), f) ==
               if later >= expireAt then None
               else if f == field then Some(v)
               else RedisStore.HGet(before, f)
  {
  }

  /** A command of hSet that fails leaves nothing readable once the clean-up went through. When that
      failed too, a failed write left the key as it was, and a failed EXPIRE left the value behind without
      an expiry of its own. */
  lemma FailedHSet<V>(before: Option<Hash<V>>, field: string, v: V, ttl: int, now: int, fault: Fault, f: string)
    requires !fault.NoFault?
    ensures var after := AfterHSet(before, field, v, ttl, now, fault);
            RedisStore.HGet(after, f) ==
              if fault.cleaned then None
              else if fault.ExpireFails? && f == field then Some(v)
              else RedisStore.HGet(before, f)
    ensures !fault.cleaned && before.None? && fault.ExpireFails? ==>
              AfterHSet(before, field, v, ttl, now, fault).value.expireAt.None?
  {
  }

  class RedisCacheService {
    const keyPrefix: string
    const defaultExpirationSeconds: real
    const defaultDeviatePercent: real
    var hashes: map<string, Hash<Cell>>
    var counters: map<string, Counter>

    constructor (keyPrefix: string, expiration: real, deviate: real)
      ensures hashes == map[] && counters == map[]
    {
      this.keyPrefix := keyPrefix;
      defaultExpirationSeconds, defaultDeviatePercent := expiration, deviate;
      hashes, counters := map[], map[];
    }

    ghost function HashAt(key: string, now: int): Option<Hash<Cell>>
      reads this
    {
      Live(Lookup(hashes, PrefixKey(keyPrefix, key)), now)
    }

    method HSet(key: string, field: string, value: Cell, expireTimeSeconds: Option<real>,
                deviatePercent: Option<real>, u: real, now: int, fault: Fault)
      returns (stored: bool)
      modifies this`hashes
      ensures expireTimeSeconds.None? || expireTimeSeconds.value <= 0.0 ==>
                !stored && hashes == old(hashes)
      ensures expireTimeSeconds.Some? && expireTimeSeconds.value > 0.0 ==>
                var percent := if deviatePercent.Some? then deviatePercent.value else defaultDeviatePercent;
                var ttl := ExpirationTime(expireTimeSeconds.value, percent, u);
                && stored == fault.NoFault?
                && hashes == Replace(old(hashes), PrefixKey(keyPrefix, key),
                               AfterHSet(old(HashAt(key, now)), field, value, ttl, now, fault))
    {
      if expireTimeSeconds.None? || expireTimeSeconds.value <= 0.0 {
        return false;
      }
      var prefixed := PrefixKey(keyPrefix, key);
      var percent := if deviatePercent.Some? then deviatePercent.value else defaultDeviatePercent;
      var expirationTime := EnforceMaxRedisTTL(DeviateRandomlyByPercentage(expireTimeSeconds.value, percent, u));
      hashes := Replace(hashes, prefixed, Live(Lookup(hashes, prefixed), now));
      if fault.SetFails? {
        Clean(prefixed, fault.cleaned);
        return false;
      }
      hashes := Replace(hashes, prefixed, RedisStore.HSet(Lookup(hashes, prefixed), field, value));
      if fault.ExpireFails? {
        Clean(prefixed, fault.cleaned);
        return false;
      }
      hashes := Replace(hashes, prefixed, ExpireNX(Lookup(hashes, prefixed), expirationTime, now));
      stored := true;
    }

    /** The UNLINK of the error path. */
    method Clean(prefixed: string, succeeds: bool)
      modifies this`hashes
      ensures hashes == if succeeds then old(hashes) - {prefixed} else old(hashes)
    {
      if succeeds {
        hashes := hashes - {prefixed};
      }
    }

    method HGet(key: string, field: string, now: int) returns (value: Option<Cell>)
      ensures value == RedisStore.HGet(HashAt(key, now), field)
    {
      value := RedisStore.HGet(Live(Lookup(hashes, PrefixKey(keyPrefix, key)), now), field);
    }

    /** Unlinks the key, then records when, unless no default expiry is configured: the marker keeps the
        expiry of its first write. When that write fails the call does, and the key stays unlinked. */
    method DeleteByKey(key: string, u: real, now: int, fault: Fault) returns (unlinked: Option<nat>)
      modifies this`hashes
      ensures HashAt(key, now).None?
      ensures unlinked == if defaultExpirationSeconds > 0.0 && !fault.NoFault? then None
                          else Some(if old(HashAt(key, now)).Some? then 1 else 0)
      ensures HashAt(MarkerKey(key), now) ==
                if defaultExpirationSeconds <= 0.0 then old(HashAt(MarkerKey(key), now))
                else Live(AfterHSet(old(HashAt(MarkerKey(key), now)), "", TimeMs(now),
                                    ExpirationTime(defaultExpirationSeconds, 0.0, u), now, fault), now)
      ensures forall k :: k != key && k != MarkerKey(key) ==> HashAt(k, now) == old(HashAt(k, now))
    {
      var prefixed := PrefixKey(keyPrefix, key);
      var result := if Live(Lookup(hashes, prefixed), now).Some? then 1 else 0;
      hashes := hashes - {prefixed};
      forall k ensures PrefixKey(keyPrefix, k) == prefixed <==> k == key {
        KeysDoNotCollide(keyPrefix, k, key);
      }
      forall k ensures PrefixKey(keyPrefix, k) == PrefixKey(keyPrefix, MarkerKey(key)) <==> k == MarkerKey(key) {
        KeysDoNotCollide(keyPrefix, k, MarkerKey(key));
      }
      KeysDoNotCollide(keyPrefix, key, key);
      var stored := HSet(MarkerKey(key), "", TimeMs(now), Some(defaultExpirationSeconds), Some(0.0), u, now, fault);
      unlinked := if defaultExpirationSeconds > 0.0 && !stored then None else Some(result);
    }

    /** The seconds an increment asks to expire after, if it asks. */
    function AskedTtl(expireTimeSeconds: Option<real>, deviatePercent: Option<real>, u: real): Option<int> {
      if expireTimeSeconds.None? || expireTimeSeconds.value <= 0.0 then None
      else Some(ExpirationTime(expireTimeSeconds.value,
                  if deviatePercent.Some? then deviatePercent.value else defaultDeviatePercent, u))
    }

    /** An increment asks for an expiry exactly when it is given a positive time to live; without a
        percentage it takes the service's; with none at all, whole seconds are asked for as they are, and
        otherwise the jitter stays within its bound. */
    lemma AskedTtlFacts(seconds: int, percent: real, u: real, deviatePercent: Option<real>)
      requires 1 <= seconds <= MAX_TTL && percent >= 0.0 && IsDraw(u)
      ensures forall e: Option<real> ::
                AskedTtl(e, deviatePercent, u).Some? <==> e.Some? && e.value > 0.0
      ensures AskedTtl(Some(seconds as real), None, u) ==
              AskedTtl(Some(seconds as real), Some(defaultDeviatePercent), u)
      ensures AskedTtl(Some(seconds as real), Some(0.0), u) == Some(seconds)
      ensures AskedTtl(Some(seconds as real), Some(percent), u).value <=
              seconds + Ceil(seconds as real * (percent / 100.0))
    {
      ExpirationUpperBound(seconds as real, seconds, percent, u);
      WholeExpiration(seconds, 0.0, u);
      assert MaxDeviation(seconds as real, 0.0) == 0.0;
    }

    /** INCR and EXPIRE NX in one transaction, on the key as given. */
    method Increment(key: string, expireTimeSeconds: Option<real>, deviatePercent: Option<real>, u: real, now: int)
      returns (count: int)
      modifies this`counters
      ensures count == CountAt(old(counters), key, now) + 1
      ensures counters == AfterIncrement(old(counters), key, AskedTtl(expireTimeSeconds, deviatePercent, u), now)
    {
      var after := Incr(LiveCounter(Lookup(counters, key), now));
      count := after.value.value;
      if expireTimeSeconds.Some? && expireTimeSeconds.value > 0.0 {
        var percent := if deviatePercent.Some? then deviatePercent.value else defaultDeviatePercent;
        after := ExpireCounterNX(after, ExpirationTime(expireTimeSeconds.value, percent, u), now);
      }
      counters := Replace(counters, key, after);
    }

    /** SET EX NX, on the key as given: an existing counter is left alone, and an expiry that is not
        positive is an error. */
    method SetCounter(key: string, value: int, expireTimeSeconds: real, deviatePercent: Option<real>, u: real, now: int)
      returns (ok: bool)
      modifies this`counters
      ensures var before := LiveCounter(Lookup(old(counters), key), now);
              var ttl := ExpirationTime(expireTimeSeconds,
                           if deviatePercent.Some? then deviatePercent.value else defaultDeviatePercent, u);
              && ok == (ttl > 0)
              && counters == if !ok || before.Some? then old(counters)
                             else old(counters)[key := Counter(value, Some(now + 1000 * ttl))]
    {
      var percent := if deviatePercent.Some? then deviatePercent.value else defaultDeviatePercent;
      var ttl := ExpirationTime(expireTimeSeconds, percent, u);
      if ttl <= 0 { return false; }
      if LiveCounter(Lookup(counters, key), now).None? {
        counters := counters[key := Counter(value, Some(now + 1000 * ttl))];
      }
      ok := true;
    }

    /** Reads under the prefixed key; a missing key reads as zero. */
    method GetCounter(key: string, now: int) returns (count: int)
      ensures count == CountAt(counters, PrefixKey(keyPrefix, key), now)
    {
      var c := LiveCounter(Lookup(counters, PrefixKey(keyPrefix, key)), now);
      count := if c.Some? then c.value.value else 0;
    }

    /** An increment and the read that follows it, in any state: with no prefix the read gives the count
        back exactly when the increment left the counter alive (or the count is zero, what an absent
        counter reads as); with a prefix it reads another key, which the increment never touches. */
    method IncrementThenGet(key: string, expireTimeSeconds: Option<real>, deviatePercent: Option<real>,
                            u: real, now: int)
      returns (count: int, read: int)
      modifies this`counters
      ensures count == CountAt(old(counters), key, now) + 1
      ensures keyPrefix == "" ==>
                (read == count <==>
                   count == 0 || Survives(old(counters), key, AskedTtl(expireTimeSeconds, deviatePercent, u), now))
      ensures keyPrefix != "" ==> read == CountAt(old(counters), PrefixKey(keyPrefix, key), now)
    {
      ghost var before := counters;
      count := Increment(key, expireTimeSeconds, deviatePercent, u, now);
      read := GetCounter(key, now);
      CounterReadBackIff(before, keyPrefix, key, AskedTtl(expireTimeSeconds, deviatePercent, u), now);
    }
  }

  /** What a counter key reads as: its live value, or zero. */
  function CountAt(counters: map<string, Counter>, key: string, now: int): int {
    var c := LiveCounter(Lookup(counters, key), now);
    if c.Some? then c.value.value else 0
  }

  function AfterIncrement(counters: map<string, Counter>, key: string, ttl: Option<int>, now: int)
    : map<string, Counter>
  {
    var after := Incr(LiveCounter(Lookup(counters, key), now));
    Replace(counters, key, if ttl.Some? then ExpireCounterNX(after, ttl.value, now) else after)
  }

  /** The counter had an expiry already, or is asked for none or for a positive one. */
  predicate Survives(counters: map<string, Counter>, key: string, ttl: Option<int>, now: int) {
    var before := LiveCounter(Lookup(counters, key), now);
    ttl.None? || ttl.value > 0 || (before.Some? && before.value.expireAt.Some?)
  }

  /** Increments go to the bare key and reads to the prefixed one. In any state of the store a counter just
      incremented reads back as its new count exactly when there is no prefix and the increment left the
      counter alive, or what is read happens to hold that count: the untouched counter under the prefixed
      key, or zero for a counter the increment deleted. */
  lemma CounterReadBackIff(counters: map<string, Counter>, prefix: string, key: string, ttl: Option<int>, now: int)
    ensures var count := CountAt(counters, key, now) + 1;
            var read := CountAt(AfterIncrement(counters, key, ttl, now), PrefixKey(prefix, key), now);
            && (read == count <==>
                  if prefix == "" then Survives(counters, key, ttl, now) || count == 0
                  else CountAt(counters, PrefixKey(prefix, key), now) == count)
            && (prefix != "" ==> read == CountAt(counters, PrefixKey(prefix, key), now))
  {
    assert prefix != "" ==> |PrefixKey(prefix, key)| > |key|;
  }

  /** A rate-limit window: after an increment the count stands until the expiry the counter had, or else
      until the seconds asked for are over, or for ever when none were; then it is zero again. */
  lemma IncrementOpensWindow(counters: map<string, Counter>, key: string, ttl: Option<int>, now: int, later: int)
    requires now <= later && (ttl.Some? ==> ttl.value >= 1)
    ensures var before := LiveCounter(Lookup(counters, key), now);
            var expireAt := if before.Some? && before.value.expireAt.Some? then before.value.expireAt
                            else if ttl.Some? then Some(now + 1000 * ttl.value) else None;
            CountAt(AfterIncrement(counters, key, ttl, now), key, later) ==
              if expireAt.Some? && later >= expireAt.value then 0 else CountAt(counters, key, now) + 1
  {
  }

  /** And no other counter is touched. */
  lemma IncrementTouchesOne(counters: map<string, Counter>, key: string, ttl: Option<int>, now: int, other: string,
                            later: int)
    requires other != key
    ensures CountAt(AfterIncrement(counters, key, ttl, now), other, later) == CountAt(counters, other, later)
  {
  }
}
