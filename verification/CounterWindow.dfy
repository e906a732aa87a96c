/** Counting in a fixed window (increment and setCounter of
    src/datasources/cache/redis.cache.service.ts). */
module CounterWindow {
  import opened Wrappers
  import opened RedisStore

  /** `base` is what the counter started from (zero, unless it was set), `increments` how often it was
      incremented since it was last absent, and `window` the expiry once one was asked for. */
  datatype Sys = Sys(now: int, counter: Option<Counter>, base: int, increments: nat, window: Option<int>)

  datatype Event =
    | Increment(ttl: Option<int>)
    | SetCounter(value: int, seconds: int)
    | Tick(ms: nat)

  /** What one transaction of `increment` leaves behind; a time to live that is not positive deletes
      the counter it has just incremented. */
  function Incremented(s: Sys, ttl: Option<int>): Option<Counter> {
    var c := Incr(s.counter);
    if ttl.Some? then ExpireCounterNX(c, ttl.value, s.now) else c
  }

  function Step(s: Sys, e: Event): Sys {
    match e
    case Increment(ttl) =>
      var absent := s.counter.None?;
      var asked := if ttl.Some? then Some(s.now + 1000 * ttl.value) else None;
      s.(counter := Incremented(s, ttl),
         base := if absent then 0 else s.base,
         increments := if absent then 1 else s.increments + 1,
         window := if absent || s.window.None? then asked else s.window)
    case SetCounter(value, seconds) =>
      if s.counter.Some? || seconds <= 0 then s
      else
        var window := Some(s.now + 1000 * seconds);
        s.(counter := Some(Counter(value, window)), base := value, increments := 0, window := window)
    case Tick(ms) => s.(now := s.now + ms, counter := LiveCounter(s.counter, s.now + ms))
  }

  function Run(s: Sys, events: seq<Event>): Sys
    decreases |events|
  {
    if events == [] then s else Run(Step(s, events[0]), events[1..])
  }

  /** The reply to INCR, which is what `increment` returns. */
  function Reply(s: Sys): int {
    Incr(s.counter).value.value
  }

  predicate Inv(s: Sys) {
    s.counter.Some? ==>
      && s.counter.value.value == s.base + s.increments
      && s.counter.value.expireAt == s.window
      && (s.window.Some? ==> s.now < s.window.value)
  }

  lemma StepKeepsInv(s: Sys, e: Event)
    requires Inv(s)
    ensures Inv(Step(s, e))
  {
  }

  lemma {:induction false} RunKeepsInv(s: Sys, events: seq<Event>)
    requires Inv(s)
    ensures Inv(Run(s, events))
    decreases |events|
  {
    if events != [] {
      StepKeepsInv(s, events[0]);
      RunKeepsInv(Step(s, events[0]), events[1..]);
    }
  }

  /** In every run an increment returns the starting value plus the number of increments since the
      counter was last absent, this one included; and while the counter lives, the first expiry it was
      given is the one it keeps. */
  lemma IncrementCountsTheWindow(start: int, events: seq<Event>, ttl: Option<int>)
    ensures var s := Run(Sys(start, None, 0, 0, None), events);
            var t := Step(s, Increment(ttl));
            && Reply(s) == t.base + t.increments
            && (s.counter.Some? ==> t.base == s.base && t.increments == s.increments + 1)
            && (s.counter.None? ==> t.base == 0 && t.increments == 1)
            && (s.counter.Some? && s.counter.value.expireAt.Some? ==>
                  t.counter.Some? && t.counter.value.expireAt == s.counter.value.expireAt)
            && (t.counter.Some? ==> t.counter.value == Counter(Reply(s), t.window))
  {
    RunKeepsInv(Sys(start, None, 0, 0, None), events);
  }

  /** No increment and no set moves the expiry of a live counter. */
  lemma {:induction false} WindowIsFixed(s: Sys, events: seq<Event>)
    requires Inv(s) && s.counter.Some? && s.counter.value.expireAt.Some?
    ensures var t := Run(s, events);
            t.now < s.counter.value.expireAt.value ==>
              t.counter.Some? && t.counter.value.expireAt == s.counter.value.expireAt && t.base == s.base
              && t.increments >= s.increments
    decreases |events|
  {
    if events != [] {
      var t := Step(s, events[0]);
      StepKeepsInv(s, events[0]);
      NowGrows(t, events[1..]);
      if t.counter.Some? {
        WindowIsFixed(t, events[1..]);
      }
    }
  }

  lemma {:induction false} NowGrows(s: Sys, events: seq<Event>)
    ensures Run(s, events).now >= s.now
    decreases |events|
  {
    if events != [] {
      NowGrows(Step(s, events[0]), events[1..]);
    }
  }
}
