/** Sharing of identical in-flight requests on top of the circuit breaker wrapper
    (createCachedRequestFunction in src/datasources/network/network.module.ts). */
module InFlight {
  import opened CircuitBreakerModel
  import CircuitRuns
  import CircuitHistory
  import FailureWindow

  type Key = string
  /** A promise is named by the number of the request that produced it. */
  type Promise = nat

  /** A caller joins the promise stored under its key, or stores the one it starts. */
  function Join(cache: map<Key, Promise>, key: Key, started: Promise): (map<Key, Promise>, Promise) {
    if key in cache then (cache, cache[key]) else (cache[key := started], started)
  }

  /** The module-level record of pending promises. Deletion is by key, with no identity check. */
  class RequestCache {
    var cache: map<Key, Promise>

    constructor ()
      ensures cache == map[]
    {
      cache := map[];
    }

    /** `started` is the request this call sends if, and only if, nothing is pending. */
    method Request(key: Key, started: Promise) returns (promise: Promise, sent: bool)
      modifies this
      ensures (cache, promise) == Join(old(cache), key, started)
      ensures sent <==> key !in old(cache)
    {
      sent := key !in cache;
      if sent {
        cache := cache[key := started];
      }
      promise := cache[key];
    }

    method OnFinally(key: Key)
      modifies this
      ensures cache == old(cache) - {key}
    {
      cache := cache - {key};
    }
  }

  /** A refused request is rejected by the breaker and never sent. */
  datatype Phase = Fetching | Settled(outcome: Outcome) | Refused

  datatype Flight = Flight(key: Key, phase: Phase, finalised: bool)

  /** `guarded` are the keys whose requests go through the circuit; `admissions` and `records`
      count, per request, the slots taken and the outcomes recorded in it. */
  datatype Net = Net(
    guarded: set<Key>,
    breaker: CircuitRuns.Sys,
    cache: map<Key, Promise>,
    flights: map<Promise, Flight>,
    next: nat,
    callers: map<nat, Promise>,
    admissions: multiset<Promise>,
    records: multiset<Promise>)

  datatype Event =
    | Call(caller: nat, key: Key, now: int)
    | Settle(request: Promise, outcome: Outcome, now: int)
    | Finally(request: Promise)
    | Housekeeping(event: CircuitRuns.Event)

  function Init(guarded: set<Key>): Net {
    Net(guarded, CircuitRuns.INIT, map[], map[], 0, map[], multiset{}, multiset{})
  }

  /** A call sends a request exactly when nothing is pending under its key. */
  predicate Sends(n: Net, e: Event) {
    e.Call? && e.key !in n.cache
  }

  predicate Enabled(n: Net, e: Event) {
    match e
    case Call(caller, key, now) =>
      caller !in n.callers &&
      (Sends(n, e) && key in n.guarded ==> CircuitRuns.Enabled(n.breaker, CircuitRuns.Admit(n.next, now)))
    case Settle(r, outcome, now) =>
      r in n.flights && n.flights[r].phase == Fetching &&
      (n.flights[r].key in n.guarded ==>
         CircuitRuns.Enabled(n.breaker, CircuitRuns.Complete(r, outcome, now)))
    case Finally(r) => r in n.flights && n.flights[r].phase != Fetching && !n.flights[r].finalised
    case Housekeeping(b) => (b.Cleanup? || b.Delete?) && CircuitRuns.Enabled(n.breaker, b)
  }

  function Send(cfg: Config, n: Net, key: Key, now: int): Net {
    var admit := CircuitRuns.Admit(n.next, now);
    if key !in n.guarded then
      n.(next := n.next + 1, flights := n.flights[n.next := Flight(key, Fetching, false)])
    else
      var admitted := CircuitRuns.Admitted(cfg, n.breaker, admit);
      n.(next := n.next + 1,
         breaker := CircuitRuns.StepAdmit(cfg, n.breaker, n.next, now),
         flights := n.flights[n.next := Flight(key, if admitted then Fetching else Refused, false)],
         admissions := if admitted then n.admissions + multiset{n.next} else n.admissions)
  }

  function Step(cfg: Config, n: Net, e: Event): Net
    requires Enabled(n, e)
  {
    match e
    case Call(caller, key, now) =>
      var (cache, promise) := Join(n.cache, key, n.next);
      (if Sends(n, e) then Send(cfg, n, key, now) else n)
      .(cache := cache, callers := n.callers[caller := promise])
    case Settle(r, outcome, now) =>
      var m := n.(flights := n.flights[r := n.flights[r].(phase := Settled(outcome))]);
      if n.flights[r].key !in n.guarded then m
      else m.(breaker := CircuitRuns.StepComplete(cfg, n.breaker, r, outcome, now),
              records := n.records + multiset{r})
    case Finally(r) =>
      n.(cache := n.cache - {n.flights[r].key},
         flights := n.flights[r := n.flights[r].(finalised := true)])
    case Housekeeping(b) => n.(breaker := CircuitRuns.Step(cfg, n.breaker, b))
  }

  predicate ValidRun(cfg: Config, n: Net, events: seq<Event>)
    decreases |events|
  {
    events == [] || (Enabled(n, events[0]) && ValidRun(cfg, Step(cfg, n, events[0]), events[1..]))
  }

  function Run(cfg: Config, n: Net, events: seq<Event>): Net
    requires ValidRun(cfg, n, events)
    decreases |events|
  {
    if events == [] then n else Run(cfg, Step(cfg, n, events[0]), events[1..])
  }

  /** The request holds, or held, a slot of the circuit. */
  predicate Slotted(n: Net, r: Promise) {
    r in n.flights && n.flights[r].key in n.guarded && n.flights[r].phase != Refused
  }

  ghost predicate CacheInv(n: Net) {
    && (forall k :: k in n.cache ==> n.cache[k] in n.flights && n.flights[n.cache[k]].key == k
                                     && !n.flights[n.cache[k]].finalised)
    && (forall r :: r in n.flights ==> r < n.next)
    && (forall r :: r in n.flights && !n.flights[r].finalised ==>
          n.flights[r].key in n.cache && n.cache[n.flights[r].key] == r)
    && (forall r :: r in n.flights && n.flights[r].finalised ==> n.flights[r].phase != Fetching)
    && (forall c :: c in n.callers ==> n.callers[c] in n.flights)
  }

  /** What the circuit knows of one request. */
  predicate Accounted(n: Net, r: Promise) {
    && (r in n.breaker.inFlight <==>
          r in n.flights && n.flights[r].key in n.guarded && n.flights[r].phase == Fetching)
    && n.admissions[r] == (if Slotted(n, r) then 1 else 0)
    && n.records[r] == if Slotted(n, r) && n.flights[r].phase.Settled? then 1 else 0
  }

  ghost predicate BreakerInv(n: Net) {
    forall r :: Accounted(n, r)
  }

  lemma CallShape(cfg: Config, n: Net, e: Event) returns (phase: Phase)
    requires CacheInv(n) && Enabled(n, e) && Sends(n, e)
    ensures phase == Fetching || phase == Refused
    ensures phase == Refused ==> e.key in n.guarded
    ensures var t := Step(cfg, n, e);
            && t.guarded == n.guarded && t.next == n.next + 1
            && t.flights == n.flights[n.next := Flight(e.key, phase, false)]
            && t.cache == n.cache[e.key := n.next]
            && t.callers == n.callers[e.caller := n.next]
            && t.records == n.records
            && t.admissions == (if e.key in n.guarded && phase == Fetching
                                then n.admissions + multiset{n.next} else n.admissions)
            && t.breaker.inFlight.Keys == (if e.key in n.guarded && phase == Fetching
                                then n.breaker.inFlight.Keys + {n.next} else n.breaker.inFlight.Keys)
  {
    if e.key in n.guarded && !CircuitRuns.Admitted(cfg, n.breaker, CircuitRuns.Admit(n.next, e.now)) {
      phase := Refused;
    } else {
      phase := Fetching;
    }
  }

  lemma CallKeepsCache(cfg: Config, n: Net, e: Event)
    requires CacheInv(n) && Enabled(n, e) && e.Call?
    ensures CacheInv(Step(cfg, n, e))
  {
    if Sends(n, e) {
      var phase := CallShape(cfg, n, e);
      AddedFlightKeepsCache(n, Step(cfg, n, e), e.caller, Flight(e.key, phase, false));
    } else {
      var t := Step(cfg, n, e);
      assert t == n.(callers := n.callers[e.caller := n.cache[e.key]]);
    }
  }

  lemma AddedFlightKeepsCache(n: Net, t: Net, caller: nat, f: Flight)
    requires CacheInv(n) && f.key !in n.cache && !f.finalised
    requires t.flights == n.flights[n.next := f] && t.next == n.next + 1
    requires t.cache == n.cache[f.key := n.next] && t.callers == n.callers[caller := n.next]
    ensures CacheInv(t)
  {
    assert n.next !in n.flights;
  }

  lemma SettleKeepsCache(cfg: Config, n: Net, e: Event)
    requires CacheInv(n) && Enabled(n, e) && e.Settle?
    ensures CacheInv(Step(cfg, n, e))
  {
    var t := Step(cfg, n, e);
    assert t.flights.Keys == n.flights.Keys && t.cache == n.cache && t.callers == n.callers;
    assert forall r :: r in n.flights ==>
      t.flights[r].key == n.flights[r].key && t.flights[r].finalised == n.flights[r].finalised;
  }

  lemma StepKeepsCache(cfg: Config, n: Net, e: Event)
    requires CacheInv(n) && Enabled(n, e)
    ensures CacheInv(Step(cfg, n, e))
  {
    match e
    case Call(_, _, _) => CallKeepsCache(cfg, n, e);
    case Settle(_, _, _) => SettleKeepsCache(cfg, n, e);
    case Finally(_) =>
    case Housekeeping(_) =>
  }

  lemma CallKeepsBreaker(cfg: Config, n: Net, e: Event)
    requires CacheInv(n) && BreakerInv(n) && Enabled(n, e) && e.Call?
    ensures BreakerInv(Step(cfg, n, e))
  {
    if Sends(n, e) {
      var phase := CallShape(cfg, n, e);
      AddedFlightKeepsBreaker(n, Step(cfg, n, e), Flight(e.key, phase, false));
    } else {
      var t := Step(cfg, n, e);
      assert t == n.(callers := n.callers[e.caller := n.cache[e.key]]);
      IdleStepKeepsBreaker(n, t);
    }
  }

  lemma AddedFlightKeepsBreaker(n: Net, t: Net, f: Flight)
    requires CacheInv(n) && BreakerInv(n)
    requires f.phase == Fetching || (f.phase == Refused && f.key in n.guarded)
    requires t.guarded == n.guarded && t.flights == n.flights[n.next := f] && t.records == n.records
    requires var taken := f.key in n.guarded && f.phase == Fetching;
             && t.admissions == (if taken then n.admissions + multiset{n.next} else n.admissions)
             && t.breaker.inFlight.Keys ==
                  (if taken then n.breaker.inFlight.Keys + {n.next} else n.breaker.inFlight.Keys)
    ensures BreakerInv(t)
  {
    assert n.next !in n.flights;
    forall r ensures Accounted(t, r) {
      assert Accounted(n, r);
      assert r in t.breaker.inFlight <==> r in t.breaker.inFlight.Keys;
      assert r in n.breaker.inFlight <==> r in n.breaker.inFlight.Keys;
    }
  }

  lemma SettleKeepsBreaker(cfg: Config, n: Net, e: Event)
    requires CacheInv(n) && BreakerInv(n) && Enabled(n, e) && e.Settle?
    ensures BreakerInv(Step(cfg, n, e))
  {
    var t := Step(cfg, n, e);
    forall r ensures Accounted(t, r) {
      assert Accounted(n, r) && Accounted(n, e.request);
    }
  }

  lemma IdleStepKeepsBreaker(n: Net, t: Net)
    requires BreakerInv(n) && t.guarded == n.guarded && t.flights.Keys == n.flights.Keys
    requires forall r :: r in n.flights ==>
               t.flights[r].key == n.flights[r].key && t.flights[r].phase == n.flights[r].phase
    requires t.breaker.inFlight == n.breaker.inFlight && t.admissions == n.admissions && t.records == n.records
    ensures BreakerInv(t)
  {
    forall r ensures Accounted(t, r) {
      assert Accounted(n, r);
      assert r in t.flights <==> r in t.flights.Keys;
    }
  }

  lemma StepKeepsBreaker(cfg: Config, n: Net, e: Event)
    requires CacheInv(n) && BreakerInv(n) && Enabled(n, e)
    ensures BreakerInv(Step(cfg, n, e))
  {
    match e
    case Call(_, _, _) => CallKeepsBreaker(cfg, n, e);
    case Settle(_, _, _) => SettleKeepsBreaker(cfg, n, e);
    case Finally(_) => IdleStepKeepsBreaker(n, Step(cfg, n, e));
    case Housekeeping(_) => IdleStepKeepsBreaker(n, Step(cfg, n, e));
  }

  ghost predicate Reachable(cfg: Config, guarded: set<Key>, n: Net) {
    exists events :: ValidRun(cfg, Init(guarded), events) && Run(cfg, Init(guarded), events) == n
  }

  lemma {:induction false} RunKeepsInv(cfg: Config, n: Net, events: seq<Event>)
    requires CacheInv(n) && BreakerInv(n) && ValidRun(cfg, n, events)
    requires CircuitRuns.Reachable(cfg, n.breaker)
    ensures CacheInv(Run(cfg, n, events)) && BreakerInv(Run(cfg, n, events))
    ensures CircuitRuns.Reachable(cfg, Run(cfg, n, events).breaker)
    decreases |events|
  {
    if events != [] {
      var e := events[0];
      StepKeepsCache(cfg, n, e);
      StepKeepsBreaker(cfg, n, e);
      BreakerStaysReachable(cfg, n, e);
      RunKeepsInv(cfg, Step(cfg, n, e), events[1..]);
    }
  }

  /** Every step of the shared requests is a step of the circuit, or leaves it alone. */
  lemma BreakerStaysReachable(cfg: Config, n: Net, e: Event)
    requires Enabled(n, e) && CircuitRuns.Reachable(cfg, n.breaker)
    ensures CircuitRuns.Reachable(cfg, Step(cfg, n, e).breaker)
  {
    match e
    case Call(caller, key, now) =>
      if Sends(n, e) && key in n.guarded {
        CircuitRuns.ReachableStep(cfg, n.breaker, CircuitRuns.Admit(n.next, now));
      }
    case Settle(r, outcome, now) =>
      if n.flights[r].key in n.guarded {
        CircuitRuns.ReachableStep(cfg, n.breaker, CircuitRuns.Complete(r, outcome, now));
      }
    case Finally(r) =>
    case Housekeeping(b) => CircuitRuns.ReachableStep(cfg, n.breaker, b);
  }

  lemma ReachableInv(cfg: Config, guarded: set<Key>, n: Net)
    requires Reachable(cfg, guarded, n)
    ensures CacheInv(n) && BreakerInv(n) && CircuitRuns.Reachable(cfg, n.breaker)
  {
    var events :| ValidRun(cfg, Init(guarded), events) && Run(cfg, Init(guarded), events) == n;
    assert CircuitRuns.ValidRun(cfg, CircuitRuns.INIT, []) &&
           CircuitRuns.Run(cfg, CircuitRuns.INIT, []) == CircuitRuns.INIT;
    RunKeepsInv(cfg, Init(guarded), events);
  }

  /** At most one underlying request per key is outstanding at any time. */
  lemma OneRequestPerKey(cfg: Config, guarded: set<Key>, n: Net, r: Promise, q: Promise)
    requires Reachable(cfg, guarded, n)
    requires r in n.flights && q in n.flights && n.flights[r].key == n.flights[q].key
    requires n.flights[r].phase == Fetching && n.flights[q].phase == Fetching
    ensures r == q
  {
    ReachableInv(cfg, guarded, n);
  }

  /** A call gets a request of its own key whose clean-up had not run yet: the pending one if there
      is one, and otherwise the one it sends. */
  lemma CallerSharesPending(cfg: Config, guarded: set<Key>, n: Net, e: Event)
    requires Reachable(cfg, guarded, n) && Enabled(n, e) && e.Call?
    ensures var t := Step(cfg, n, e);
            var r := t.callers[e.caller];
            && r in t.flights && t.flights[r].key == e.key && !t.flights[r].finalised
            && (r in n.flights || r == n.next)
            && (forall q :: q in n.flights && n.flights[q].key == e.key && n.flights[q].phase == Fetching
                  ==> r == q && t.flights == n.flights && t.breaker == n.breaker)
  {
    ReachableInv(cfg, guarded, n);
    StepKeepsCache(cfg, n, e);
  }

  /** Settling a request and cleaning up after it removes its own entry and no other. */
  lemma FinallyRemovesOwnEntry(cfg: Config, guarded: set<Key>, n: Net, e: Event, k: Key)
    requires Reachable(cfg, guarded, n) && Enabled(n, e) && e.Finally?
    ensures k in n.cache ==> (k in Step(cfg, n, e).cache <==> n.cache[k] != e.request)
    ensures k in Step(cfg, n, e).cache ==> k in n.cache && Step(cfg, n, e).cache[k] == n.cache[k]
    ensures n.flights[e.request].key in n.cache
  {
    ReachableInv(cfg, guarded, n);
  }

  /** However many callers share a request, it takes one slot of the circuit and records one outcome
      in it; a refused or unguarded request takes and records none. */
  lemma OneSlotOneOutcome(cfg: Config, guarded: set<Key>, n: Net, r: Promise)
    requires Reachable(cfg, guarded, n) && r in n.flights
    ensures n.admissions[r] == if n.flights[r].key in n.guarded && n.flights[r].phase != Refused then 1 else 0
    ensures n.records[r] == if n.flights[r].key in n.guarded && n.flights[r].phase.Settled? then 1 else 0
    ensures r in n.breaker.inFlight <==> n.admissions[r] == 1 && n.records[r] == 0
  {
    ReachableInv(cfg, guarded, n);
    assert Accounted(n, r);
  }

  /** The later state keeps every caller's request and every settled outcome of the earlier one. */
  ghost predicate Remembers(n: Net, t: Net) {
    && (forall c :: c in n.callers ==> c in t.callers && t.callers[c] == n.callers[c])
    && (forall r :: r in n.flights ==> r in t.flights && t.flights[r].key == n.flights[r].key)
    && (forall r :: r in n.flights && n.flights[r].phase != Fetching ==>
          t.flights[r].phase == n.flights[r].phase)
  }

  lemma StepRemembers(cfg: Config, n: Net, e: Event)
    requires CacheInv(n) && Enabled(n, e)
    ensures Remembers(n, Step(cfg, n, e))
  {
    assert n.next !in n.flights;
  }

  /** What a caller was given, and how a settled request ended, never change. */
  lemma {:induction false} CallersKeepTheirRequest(cfg: Config, n: Net, events: seq<Event>)
    requires CacheInv(n) && ValidRun(cfg, n, events)
    ensures Remembers(n, Run(cfg, n, events))
    decreases |events|
  {
    if events != [] {
      StepKeepsCache(cfg, n, events[0]);
      StepRemembers(cfg, n, events[0]);
      CallersKeepTheirRequest(cfg, Step(cfg, n, events[0]), events[1..]);
    }
  }

  /** What a step of the shared requests does to the circuit: a guarded request that is sent asks for
      admission, and one that settles records the outcome it settled with. */
  function CircuitEvents(n: Net, e: Event): seq<CircuitRuns.Event> {
    match e
    case Call(_, key, now) => if Sends(n, e) && key in n.guarded then [CircuitRuns.Admit(n.next, now)] else []
    case Settle(r, outcome, now) =>
      if r in n.flights && n.flights[r].key in n.guarded then [CircuitRuns.Complete(r, outcome, now)] else []
    case Finally(_) => []
    case Housekeeping(b) => [b]
  }

  function Projection(cfg: Config, n: Net, events: seq<Event>): seq<CircuitRuns.Event>
    requires ValidRun(cfg, n, events)
    decreases |events|
  {
    if events == [] then []
    else CircuitEvents(n, events[0]) + Projection(cfg, Step(cfg, n, events[0]), events[1..])
  }

  lemma StepProjects(cfg: Config, n: Net, e: Event)
    requires Enabled(n, e)
    ensures CircuitRuns.ValidRun(cfg, n.breaker, CircuitEvents(n, e))
    ensures CircuitRuns.Run(cfg, n.breaker, CircuitEvents(n, e)) == Step(cfg, n, e).breaker
  {
    var es := CircuitEvents(n, e);
    if es != [] {
      var next := CircuitRuns.Step(cfg, n.breaker, es[0]);
      assert es[1..] == [] && CircuitRuns.Run(cfg, next, []) == next;
    }
  }

  /** The circuit goes through exactly the admissions and completions of its requests, each completion with
      the outcome and time its request settled with, whatever else happens in between. */
  lemma {:induction false} CircuitFollowsRequests(cfg: Config, n: Net, events: seq<Event>)
    requires ValidRun(cfg, n, events)
    ensures CircuitRuns.ValidRun(cfg, n.breaker, Projection(cfg, n, events))
    ensures CircuitRuns.Run(cfg, n.breaker, Projection(cfg, n, events)) == Run(cfg, n, events).breaker
    decreases |events|
  {
    if events != [] {
      var next := Step(cfg, n, events[0]);
      StepProjects(cfg, n, events[0]);
      CircuitFollowsRequests(cfg, next, events[1..]);
      CircuitRuns.RunConcat(cfg, n.breaker, CircuitEvents(n, events[0]), Projection(cfg, next, events[1..]));
    }
  }

  /** A guarded request that settles while the circuit is HALF_OPEN adds its outcome to the window, and one
      that settles while there is no circuit registers one exactly if it ended in a server error or without
      a response. */
  lemma SettledOutcomeIsRecorded(cfg: Config, n: Net, e: Event)
    requires cfg.Valid() && cfg.enabled && Enabled(n, e) && e.Settle? && n.flights[e.request].key in n.guarded
    ensures var t := Step(cfg, n, e).breaker;
            var failed := e.outcome.RequestError? || (e.outcome.ResponseError? && e.outcome.status >= 500);
            && (CircuitRuns.InState(n.breaker.circuit, HALF_OPEN) ==> t.outcomes == n.breaker.outcomes + [!failed])
            && (n.breaker.circuit.None? ==> (t.circuit.Some? <==> failed))
            && (CircuitRuns.InState(n.breaker.circuit, CLOSED) && failed ==> t.failures == n.breaker.failures + [e.now])
  {
    StepProjects(cfg, n, e);
  }

  /** The settle times of the guarded requests that ended in a server error or without a response. */
  function SettledFailures(cfg: Config, n: Net, events: seq<Event>): seq<int>
    requires ValidRun(cfg, n, events)
    decreases |events|
  {
    if events == [] then []
    else
      var e := events[0];
      (if && e.Settle? && n.flights[e.request].key in n.guarded
          && (e.outcome.RequestError? || (e.outcome.ResponseError? && e.outcome.status >= 500))
       then [e.now] else [])
      + SettledFailures(cfg, Step(cfg, n, e), events[1..])
  }

  lemma {:induction false} FailureTimesConcat(one: seq<CircuitRuns.Event>, two: seq<CircuitRuns.Event>)
    ensures CircuitHistory.FailureTimes(one + two) ==
            CircuitHistory.FailureTimes(one) + CircuitHistory.FailureTimes(two)
    decreases |two|
  {
    if two == [] {
      assert one + two == one;
    } else {
      FailureTimesConcat(one, two[..|two| - 1]);
      assert (one + two)[..|one + two| - 1] == one + two[..|two| - 1];
    }
  }

  lemma FailureTimesOfStep(n: Net, e: Event)
    requires Enabled(n, e)
    ensures CircuitHistory.FailureTimes(CircuitEvents(n, e)) ==
              if && e.Settle? && n.flights[e.request].key in n.guarded
                 && (e.outcome.RequestError? || (e.outcome.ResponseError? && e.outcome.status >= 500))
              then [e.now] else []
  {
    var es := CircuitEvents(n, e);
    if es != [] {
      assert es[..0] == [] && CircuitHistory.FailureTimes([]) == [];
    }
  }

  lemma {:induction false} FailuresProject(cfg: Config, n: Net, events: seq<Event>)
    requires ValidRun(cfg, n, events)
    ensures CircuitHistory.FailureTimes(Projection(cfg, n, events)) == SettledFailures(cfg, n, events)
    decreases |events|
  {
    if events != [] {
      var next := Step(cfg, n, events[0]);
      FailuresProject(cfg, next, events[1..]);
      FailureTimesOfStep(n, events[0]);
      FailureTimesConcat(CircuitEvents(n, events[0]), Projection(cfg, next, events[1..]));
    }
  }

  lemma CountedIsSuffix(cfg: Config, es: seq<CircuitRuns.Event>)
    requires cfg.Valid() && CircuitRuns.ValidRun(cfg, CircuitRuns.INIT, es)
    requires CircuitRuns.InState(CircuitRuns.Run(cfg, CircuitRuns.INIT, es).circuit, CLOSED)
    ensures var counted := CircuitRuns.Run(cfg, CircuitRuns.INIT, es).failures;
            var all := CircuitHistory.FailureTimes(es);
            |counted| <= |all| && all[|all| - |counted|..] == counted
  {
    var k := CircuitHistory.ClosedCountsCompletions(cfg, es);
    FailureTimesConcat(es[..k], es[k..]);
    assert es == es[..k] + es[k..];
  }

  lemma CountsSomething(cfg: Config, es: seq<CircuitRuns.Event>)
    requires cfg.Valid() && CircuitRuns.ValidRun(cfg, CircuitRuns.INIT, es)
    requires CircuitRuns.InState(CircuitRuns.Run(cfg, CircuitRuns.INIT, es).circuit, CLOSED)
    ensures CircuitRuns.Run(cfg, CircuitRuns.INIT, es).failures != []
  {
    var s := CircuitRuns.Run(cfg, CircuitRuns.INIT, es);
    assert CircuitRuns.Reachable(cfg, s);
    FailureWindow.FailureCountIsLongestChain(cfg, s);
  }

  /** Hence, in any run that ends with the circuit CLOSED, the failure times it counts from are the last
      ones of the settle times of the guarded requests that failed: no success counts, no failure of its
      time is left out, none counts twice, however many callers shared it. */
  lemma ClosedCountsSettledFailures(cfg: Config, guarded: set<Key>, events: seq<Event>)
    requires cfg.Valid() && ValidRun(cfg, Init(guarded), events)
    requires CircuitRuns.InState(Run(cfg, Init(guarded), events).breaker.circuit, CLOSED)
    ensures var counted := Run(cfg, Init(guarded), events).breaker.failures;
            var settled := SettledFailures(cfg, Init(guarded), events);
            counted != [] && |counted| <= |settled| && settled[|settled| - |counted|..] == counted
  {
    var es := Projection(cfg, Init(guarded), events);
    CircuitFollowsRequests(cfg, Init(guarded), events);
    FailuresProject(cfg, Init(guarded), events);
    CountedIsSuffix(cfg, es);
    CountsSomething(cfg, es);
  }

  /** What every caller of a request gets, at any later time, is the outcome it settled with. */
  lemma OutcomeIsDelivered(cfg: Config, guarded: set<Key>, n: Net, e: Event, events: seq<Event>)
    requires Reachable(cfg, guarded, n) && Enabled(n, e) && e.Settle?
    requires ValidRun(cfg, Step(cfg, n, e), events)
    ensures e.request in Run(cfg, Step(cfg, n, e), events).flights
    ensures Run(cfg, Step(cfg, n, e), events).flights[e.request].phase == Settled(e.outcome)
  {
    ReachableInv(cfg, guarded, n);
    StepKeepsCache(cfg, n, e);
    CallersKeepTheirRequest(cfg, Step(cfg, n, e), events);
  }
}
