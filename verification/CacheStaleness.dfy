/** How old a cached value can be, when expiries are set once and never moved
    (src/datasources/cache/redis.cache.service.ts). One hash key; HSET and EXPIRE NX of each write are
    separate commands that other writers and UNLINKs interleave with. */
module CacheStaleness {
  import opened Wrappers
  import opened RedisStore

  /** A write that has done its HSET and will send EXPIRE, with its seconds, by its deadline. */
  datatype Pending = Pending(ttl: int, deadline: int)

  /** Values are represented by the time they were written. `created` is the first write since the key
      was last absent. */
  datatype Sys = Sys(now: int, key: Option<Hash<int>>, pending: map<nat, Pending>, created: int)

  /** Every EXPIRE follows its HSET within `latency` milliseconds and asks for at most `maxTtl`
      seconds. */
  datatype Bounds = Bounds(latency: nat, maxTtl: int)

  datatype Event =
    | Set(writer: nat, field: string, ttl: int)
    | Expire(writer: nat)
    | Unlink
    | Tick(ms: nat)

  function Init(now: int): Sys {
    Sys(now, None, map[], now)
  }

  predicate Enabled(b: Bounds, s: Sys, e: Event) {
    match e
    case Set(w, _, ttl) => w !in s.pending && ttl <= b.maxTtl
    case Expire(w) => w in s.pending
    case Unlink => true
    case Tick(ms) => forall w :: w in s.pending ==> s.now + ms <= s.pending[w].deadline
  }

  function Step(b: Bounds, s: Sys, e: Event): Sys
    requires Enabled(b, s, e)
  {
    match e
    case Set(w, field, ttl) =>
      s.(key := HSet(s.key, field, s.now),
         pending := s.pending[w := Pending(ttl, s.now + b.latency)],
         created := if s.key.None? then s.now else s.created)
    case Expire(w) => s.(key := ExpireNX(s.key, s.pending[w].ttl, s.now), pending := s.pending - {w})
    case Unlink => s.(key := None)
    case Tick(ms) => s.(now := s.now + ms, key := Live(s.key, s.now + ms))
  }

  predicate ValidRun(b: Bounds, s: Sys, events: seq<Event>)
    decreases |events|
  {
    events == [] || (Enabled(b, s, events[0]) && ValidRun(b, Step(b, s, events[0]), events[1..]))
  }

  function Run(b: Bounds, s: Sys, events: seq<Event>): Sys
    requires ValidRun(b, s, events)
    decreases |events|
  {
    if events == [] then s else Run(b, Step(b, s, events[0]), events[1..])
  }

  predicate Inv(b: Bounds, s: Sys) {
    && (forall w :: w in s.pending ==> s.now <= s.pending[w].deadline && s.pending[w].ttl <= b.maxTtl)
    && (s.key.Some? ==>
          && s.created <= s.now
          && (forall f :: f in s.key.value.fields ==> s.created <= s.key.value.fields[f] <= s.now)
          && (if s.key.value.expireAt.Some?
              then s.now < s.key.value.expireAt.value <= s.created + b.latency + 1000 * b.maxTtl
              else exists w :: w in s.pending && s.pending[w].deadline <= s.created + b.latency))
  }

  lemma SetKeepsInv(b: Bounds, s: Sys, e: Event)
    requires Inv(b, s) && Enabled(b, s, e) && e.Set?
    ensures Inv(b, Step(b, s, e))
  {
    var t := Step(b, s, e);
    if s.key.None? {
      assert t.pending[e.writer].deadline <= t.created + b.latency;
    } else if s.key.value.expireAt.None? {
      var w :| w in s.pending && s.pending[w].deadline <= s.created + b.latency;
      assert t.pending[w] == s.pending[w];
    }
  }

  lemma ExpireKeepsInv(b: Bounds, s: Sys, e: Event)
    requires Inv(b, s) && Enabled(b, s, e) && e.Expire?
    ensures Inv(b, Step(b, s, e))
  {
    var t := Step(b, s, e);
    if s.key.Some? && s.key.value.expireAt.None? && t.key.Some? {
      var w :| w in s.pending && s.pending[w].deadline <= s.created + b.latency;
      assert s.now <= s.created + b.latency;
    }
  }

  lemma StepKeepsInv(b: Bounds, s: Sys, e: Event)
    requires Inv(b, s) && Enabled(b, s, e)
    ensures Inv(b, Step(b, s, e))
  {
    match e
    case Set(_, _, _) => SetKeepsInv(b, s, e);
    case Expire(_) => ExpireKeepsInv(b, s, e);
    case Unlink =>
    case Tick(ms) =>
      if s.key.Some? && s.key.value.expireAt.None? {
        var w :| w in s.pending && s.pending[w].deadline <= s.created + b.latency;
        assert Step(b, s, e).pending[w] == s.pending[w];
      }
  }

  lemma {:induction false} RunKeepsInv(b: Bounds, s: Sys, events: seq<Event>)
    requires Inv(b, s) && ValidRun(b, s, events)
    ensures Inv(b, Run(b, s, events))
    decreases |events|
  {
    if events != [] {
      StepKeepsInv(b, s, events[0]);
      RunKeepsInv(b, Step(b, s, events[0]), events[1..]);
    }
  }

  /** In every run, a value that can be read was written less than maxTtl seconds plus the latency of
      one EXPIRE ago, or at most that latency ago if the expiry is still on its way. */
  lemma StalenessBound(b: Bounds, start: int, events: seq<Event>, field: string)
    requires ValidRun(b, Init(start), events)
    requires HGet(Run(b, Init(start), events).key, field).Some?
    ensures var t := Run(b, Init(start), events);
            var age := t.now - HGet(t.key, field).value;
            if t.key.value.expireAt.Some? then 0 <= age < b.latency + 1000 * b.maxTtl
            else 0 <= age <= b.latency
  {
    RunKeepsInv(b, Init(start), events);
    var t := Run(b, Init(start), events);
    if t.key.value.expireAt.None? {
      var w :| w in t.pending && t.pending[w].deadline <= t.created + b.latency;
    }
  }

  /** With writes that ask for at most T whole seconds, jittered by p percent, no value is read the latency
      of one EXPIRE plus T + ceil(T p / 100) seconds after it was written. */
  lemma JitteredStalenessBound(t: int, percent: real, latency: nat, start: int, events: seq<Event>, field: string)
    requires t >= 1 && percent >= 0.0
    requires var b := Bounds(latency, t + Ceil(t as real * (percent / 100.0)));
             ValidRun(b, Init(start), events) && HGet(Run(b, Init(start), events).key, field).Some?
    ensures var limit := t + Ceil(t as real * (percent / 100.0));
            var s := Run(Bounds(latency, limit), Init(start), events);
            0 <= s.now - HGet(s.key, field).value < latency + 1000 * limit
    ensures forall value, u {:trigger ExpirationTime(value, percent, u)} ::
              0.0 <= value <= t as real && IsDraw(u) ==>
              ExpirationTime(value, percent, u) <= t + Ceil(t as real * (percent / 100.0))
  {
    var limit := t + Ceil(t as real * (percent / 100.0));
    StalenessBound(Bounds(latency, limit), start, events, field);
    MaxDeviationMonotone(t as real, t as real, percent);
    CeilMonotone(0.0, t as real * (percent / 100.0));
    forall value, u | 0.0 <= value <= t as real && IsDraw(u)
      ensures ExpirationTime(value, percent, u) <= limit
    {
      ExpirationUpperBound(value, t, percent, u);
    }
  }

  /** Up to the expiry, a run without UNLINK. */
  predicate Undisturbed(b: Bounds, s: Sys, events: seq<Event>, expireAt: int)
    requires ValidRun(b, s, events)
    decreases |events|
  {
    s.now < expireAt &&
    (events == [] || (!events[0].Unlink? && Undisturbed(b, Step(b, s, events[0]), events[1..], expireAt)))
  }

  /** Once set, an expiry is never moved: whatever is written, and whichever expiries are asked for,
      the key lives until exactly that time and keeps every field. */
  lemma {:induction false} ExpiryNeverMoves(b: Bounds, s: Sys, events: seq<Event>)
    requires ValidRun(b, s, events) && s.key.Some? && s.key.value.expireAt.Some?
    requires Undisturbed(b, s, events, s.key.value.expireAt.value)
    ensures var t := Run(b, s, events);
            && t.key.Some? && t.key.value.expireAt == s.key.value.expireAt
            && s.key.value.fields.Keys <= t.key.value.fields.Keys
    ensures forall ms: nat :: Enabled(b, Run(b, s, events), Tick(ms)) ==>
              (Step(b, Run(b, s, events), Tick(ms)).key.None? <==>
               Run(b, s, events).now + ms >= s.key.value.expireAt.value)
    decreases |events|
  {
    if events != [] {
      var t := Step(b, s, events[0]);
      assert t.key.Some? && t.key.value.expireAt == s.key.value.expireAt by {
        if events[0].Tick? {
          assert Undisturbed(b, t, events[1..], s.key.value.expireAt.value);
        }
      }
      ExpiryNeverMoves(b, t, events[1..]);
    }
  }
}
