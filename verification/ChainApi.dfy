/** The per-chain cache of API instances (src/datasources/common/chain-api.manager.ts): retrievals share a
    pending creation, a failed one evicts itself, destroyApi evicts whatever is there. A creation (the
    promise `created`) is known by its number. */
module ChainApi {
  type ChainId = string

  /** `Failed` until the catch handler has run, `Handled` from then on. */
  datatype Phase = Pending | Ready | Failed | Handled
  datatype Creation = Creation(chain: ChainId, phase: Phase)
  datatype State = State(apis: map<ChainId, nat>, creations: seq<Creation>)
  datatype Event = Get(chain: ChainId) | Resolve(id: nat) | Reject(id: nat) | Handle(id: nat) | Destroy(chain: ChainId)

  const INITIAL := State(map[], [])

  predicate Enabled(s: State, e: Event) {
    match e
    case Resolve(id) => id < |s.creations| && s.creations[id].phase == Pending
    case Reject(id) => id < |s.creations| && s.creations[id].phase == Pending
    case Handle(id) => id < |s.creations| && s.creations[id].phase == Failed
    case _ => true
  }

  /** The creation a retrieval returns: the cached one, or a new one. */
  function Retrieved(s: State, chain: ChainId): nat {
    if chain in s.apis then s.apis[chain] else |s.creations|
  }

  function SetPhase(s: State, id: nat, phase: Phase): State
    requires id < |s.creations|
  {
    s.(creations := s.creations[id := s.creations[id].(phase := phase)])
  }

  /** The catch handler evicts the entry of its chain when it is still the handler's own. */
  predicate StillCached(s: State, id: nat)
    requires id < |s.creations|
  {
    s.creations[id].chain in s.apis && s.apis[s.creations[id].chain] == id
  }

  function Step(s: State, e: Event): State
    requires Enabled(s, e)
  {
    match e
    case Get(chain) =>
      if chain in s.apis then s
      else State(s.apis[chain := |s.creations|], s.creations + [Creation(chain, Pending)])
    case Resolve(id) => SetPhase(s, id, Ready)
    case Reject(id) => SetPhase(s, id, Failed)
    case Handle(id) =>
      var handled := SetPhase(s, id, Handled);
      if StillCached(s, id) then handled.(apis := s.apis - {s.creations[id].chain}) else handled
    case Destroy(chain) => s.(apis := s.apis - {chain})
  }

  /** The object and its asynchronous closures, on the same state. */
  class ChainApiManager {
    var apis: map<ChainId, nat>
    var creations: seq<Creation>

    function View(): State
      reads this
    {
      State(apis, creations)
    }

    constructor ()
      ensures View() == INITIAL
    {
      apis, creations := map[], [];
    }

    method GetOrCreateApi(chain: ChainId) returns (id: nat)
      modifies this
      ensures id == Retrieved(old(View()), chain) && View() == Step(old(View()), Get(chain))
    {
      if chain in apis { return apis[chain]; }
      id := |creations|;
      creations := creations + [Creation(chain, Pending)];
      apis := apis[chain := id];
    }

    /** createApi returned (or its promise resolved), or it threw (or its promise was rejected). */
    method Settle(id: nat, ok: bool)
      requires id < |creations| && creations[id].phase == Pending
      modifies this`creations
      ensures View() == Step(old(View()), if ok then Resolve(id) else Reject(id))
    {
      creations := creations[id := creations[id].(phase := if ok then Ready else Failed)];
    }

    method HandleFailure(id: nat)
      requires id < |creations| && creations[id].phase == Failed
      modifies this
      ensures View() == Step(old(View()), Handle(id))
    {
      var chain := creations[id].chain;
      if chain in apis && apis[chain] == id {
        apis := apis - {chain};
      }
      creations := creations[id := creations[id].(phase := Handled)];
    }

    method DestroyApi(chain: ChainId)
      modifies this`apis
      ensures View() == Step(old(View()), Destroy(chain))
    {
      apis := apis - {chain};
    }
  }

  predicate Runs(s: State, run: seq<Event>)
    decreases run
  {
    run == [] || (Enabled(s, run[0]) && Runs(Step(s, run[0]), run[1..]))
  }

  function After(s: State, run: seq<Event>): State
    requires Runs(s, run)
    decreases run
  {
    if run == [] then s else After(Step(s, run[0]), run[1..])
  }

  /** An entry is a creation for its own chain whose failure handler has not run. */
  predicate Inv(s: State) {
    forall chain <- s.apis :: var id := s.apis[chain];
      id < |s.creations| && s.creations[id].chain == chain && s.creations[id].phase != Handled
  }

  lemma StepKeepsInv(s: State, e: Event)
    requires Inv(s) && Enabled(s, e)
    ensures Inv(Step(s, e)) && |Step(s, e).creations| >= |s.creations|
  {
  }

  lemma {:induction false} RunKeepsInv(s: State, run: seq<Event>)
    requires Inv(s) && Runs(s, run)
    ensures Inv(After(s, run)) && |After(s, run).creations| >= |s.creations|
    decreases run
  {
    if run != [] {
      StepKeepsInv(s, run[0]);
      RunKeepsInv(Step(s, run[0]), run[1..]);
    }
  }

  /** In every run no creation whose failure handler has run is cached. */
  lemma NoHandledFailureIsCached(run: seq<Event>, chain: ChainId)
    requires Runs(INITIAL, run) && chain in After(INITIAL, run).apis
    ensures var s := After(INITIAL, run);
            s.apis[chain] < |s.creations| && s.creations[s.apis[chain]].phase != Handled
  {
    RunKeepsInv(INITIAL, run);
  }

  predicate Evicts(e: Event, chain: ChainId, id: nat) {
    e == Destroy(chain) || e == Handle(id)
  }

  lemma {:induction false} KeptUnlessEvicted(s: State, run: seq<Event>, chain: ChainId)
    requires Inv(s) && Runs(s, run) && chain in s.apis
    requires forall k :: 0 <= k < |run| ==> !Evicts(run[k], chain, s.apis[chain])
    ensures chain in After(s, run).apis && After(s, run).apis[chain] == s.apis[chain]
    decreases run
  {
    if run != [] {
      assert !Evicts(run[0], chain, s.apis[chain]);
      StepKeepsInv(s, run[0]);
      assert chain in Step(s, run[0]).apis && Step(s, run[0]).apis[chain] == s.apis[chain];
      KeptUnlessEvicted(Step(s, run[0]), run[1..], chain);
    }
  }

  /** Once a chain has no entry, only creations started later can become one. */
  lemma {:induction false} OnlyLaterCreations(s: State, run: seq<Event>, chain: ChainId, bound: nat)
    requires Inv(s) && Runs(s, run) && bound <= |s.creations|
    requires chain in s.apis ==> s.apis[chain] >= bound
    ensures chain in After(s, run).apis ==> After(s, run).apis[chain] >= bound
    decreases run
  {
    if run != [] {
      StepKeepsInv(s, run[0]);
      OnlyLaterCreations(Step(s, run[0]), run[1..], chain, bound);
    }
  }

  lemma {:induction false} RunsSplit(s: State, front: seq<Event>, back: seq<Event>)
    requires Runs(s, front + back)
    ensures Runs(s, front) && Runs(After(s, front), back) && After(s, front + back) == After(After(s, front), back)
    decreases front
  {
    if front == [] {
      assert front + back == back;
    } else {
      assert (front + back)[1..] == front[1..] + back;
      RunsSplit(Step(s, front[0]), front[1..], back);
    }
  }

  /** After a destroy, at every later moment, what the chain's entry and retrievals give was created after
      the destroy, even if older creations are still pending. */
  lemma AfterDestroy(front: seq<Event>, chain: ChainId, back: seq<Event>)
    requires Runs(INITIAL, front + ([Destroy(chain)] + back))
    ensures Runs(INITIAL, front)
    ensures Retrieved(After(INITIAL, front + ([Destroy(chain)] + back)), chain) >= |After(INITIAL, front).creations|
  {
    RunsSplit(INITIAL, front, [Destroy(chain)] + back);
    RunKeepsInv(INITIAL, front);
    var s := After(INITIAL, front);
    assert ([Destroy(chain)] + back)[1..] == back;
    StepKeepsInv(s, Destroy(chain));
    OnlyLaterCreations(Step(s, Destroy(chain)), back, chain, |s.creations|);
    RunKeepsInv(Step(s, Destroy(chain)), back);
  }

  lemma {:induction false} GoneOnceEvicted(s: State, run: seq<Event>, chain: ChainId, id: nat)
    requires Inv(s) && Runs(s, run) && chain in s.apis && s.apis[chain] == id
    requires exists k :: 0 <= k < |run| && Evicts(run[k], chain, id)
    ensures Retrieved(After(s, run), chain) > id
    decreases run
  {
    StepKeepsInv(s, run[0]);
    var next := Step(s, run[0]);
    RunKeepsInv(next, run[1..]);
    if Evicts(run[0], chain, id) {
      OnlyLaterCreations(next, run[1..], chain, |s.creations|);
    } else {
      var k :| 0 <= k < |run| && Evicts(run[k], chain, id);
      assert run[k] == run[1..][k - 1];
      GoneOnceEvicted(next, run[1..], chain, id);
    }
  }

  /** Two retrievals of a chain, with any events between them, share one creation exactly when in between
      neither the chain was destroyed nor that creation's own failure was handled: no other creation's
      failure, earlier or later, evicts it. */
  lemma SharedIff(front: seq<Event>, chain: ChainId, between: seq<Event>)
    requires Runs(INITIAL, front + ([Get(chain)] + between))
    ensures Runs(INITIAL, front)
    ensures var first := Retrieved(After(INITIAL, front), chain);
            var second := Retrieved(After(INITIAL, front + ([Get(chain)] + between)), chain);
            second == first <==> forall k :: 0 <= k < |between| ==> !Evicts(between[k], chain, first)
  {
    RunsSplit(INITIAL, front, [Get(chain)] + between);
    RunKeepsInv(INITIAL, front);
    var s := After(INITIAL, front);
    assert ([Get(chain)] + between)[1..] == between;
    StepKeepsInv(s, Get(chain));
    var next := Step(s, Get(chain));
    if forall k :: 0 <= k < |between| ==> !Evicts(between[k], chain, next.apis[chain]) {
      KeptUnlessEvicted(next, between, chain);
    } else {
      GoneOnceEvicted(next, between, chain, next.apis[chain]);
    }
  }

  function CreatedFor(creations: seq<Creation>, chain: ChainId): nat {
    if creations == [] then 0
    else CreatedFor(creations[..|creations| - 1], chain) + if creations[|creations| - 1].chain == chain then 1 else 0
  }

  /** Events that took away an entry of the chain. */
  function Evictions(s: State, run: seq<Event>, chain: ChainId): nat
    requires Runs(s, run)
    decreases run
  {
    if run == [] then 0
    else
      (if chain in s.apis && chain !in Step(s, run[0]).apis then 1 else 0) + Evictions(Step(s, run[0]), run[1..], chain)
  }

  lemma {:induction false} PhaseKeepsCount(creations: seq<Creation>, id: nat, phase: Phase, chain: ChainId)
    requires id < |creations|
    ensures CreatedFor(creations[id := creations[id].(phase := phase)], chain) == CreatedFor(creations, chain)
  {
    var changed := creations[id := creations[id].(phase := phase)];
    var last := |creations| - 1;
    if id < last {
      PhaseKeepsCount(creations[..last], id, phase, chain);
      assert changed[..last] == creations[..last][id := creations[id].(phase := phase)];
    } else {
      assert changed[..last] == creations[..last];
    }
  }

  lemma StepCounts(s: State, e: Event, chain: ChainId)
    requires Inv(s) && Enabled(s, e)
    ensures var t := Step(s, e);
            CreatedFor(t.creations, chain) + (if chain in s.apis then 1 else 0) ==
            CreatedFor(s.creations, chain) + (if chain in t.apis then 1 else 0) +
            (if chain in s.apis && chain !in t.apis then 1 else 0)
  {
    match e
    case Get(c) =>
      var more := s.creations + [Creation(c, Pending)];
      assert more[..|more| - 1] == s.creations;
    case Resolve(id) => PhaseKeepsCount(s.creations, id, Ready, chain);
    case Reject(id) => PhaseKeepsCount(s.creations, id, Failed, chain);
    case Handle(id) => PhaseKeepsCount(s.creations, id, Handled, chain);
    case Destroy(_) =>
  }

  lemma {:induction false} RunCounts(s: State, run: seq<Event>, chain: ChainId)
    requires Inv(s) && Runs(s, run)
    ensures CreatedFor(After(s, run).creations, chain) + (if chain in s.apis then 1 else 0) ==
            CreatedFor(s.creations, chain) + (if chain in After(s, run).apis then 1 else 0) + Evictions(s, run, chain)
    decreases run
  {
    if run != [] {
      StepKeepsInv(s, run[0]);
      StepCounts(s, run[0], chain);
      RunCounts(Step(s, run[0]), run[1..], chain);
    }
  }

  /** Work is never duplicated: a chain has had one creation for each entry evicted, and one more while an
      entry is there. */
  lemma CreationsAreAccountedFor(run: seq<Event>, chain: ChainId)
    requires Runs(INITIAL, run)
    ensures var s := After(INITIAL, run);
            CreatedFor(s.creations, chain) == Evictions(INITIAL, run, chain) + if chain in s.apis then 1 else 0
  {
    RunCounts(INITIAL, run, chain);
  }

  predicate Destroys(e: Event, chain: ChainId) {
    e == Destroy(chain)
  }

  predicate IsReady(s: State, chain: ChainId) {
    chain in s.apis && s.apis[chain] < |s.creations| && s.creations[s.apis[chain]].phase == Ready
  }

  lemma {:induction false} ReadyStays(s: State, run: seq<Event>, chain: ChainId)
    requires Inv(s) && Runs(s, run) && IsReady(s, chain)
    requires forall k :: 0 <= k < |run| ==> !Destroys(run[k], chain)
    ensures chain in After(s, run).apis && After(s, run).apis[chain] == s.apis[chain]
    decreases run
  {
    if run != [] {
      assert !Destroys(run[0], chain);
      StepKeepsInv(s, run[0]);
      ReadyStays(Step(s, run[0]), run[1..], chain);
    }
  }

  /** A creation that succeeded while cached serves every retrieval until its chain is destroyed: no
      failure of any creation ends it. */
  lemma ResolvedServes(front: seq<Event>, chain: ChainId, back: seq<Event>)
    requires Runs(INITIAL, front) && chain in After(INITIAL, front).apis
    requires var id := After(INITIAL, front).apis[chain];
             Enabled(After(INITIAL, front), Resolve(id)) && Runs(Step(After(INITIAL, front), Resolve(id)), back)
    requires forall k :: 0 <= k < |back| ==> !Destroys(back[k], chain)
    ensures var id := After(INITIAL, front).apis[chain];
            Retrieved(After(Step(After(INITIAL, front), Resolve(id)), back), chain) == id
  {
    var s := After(INITIAL, front);
    RunKeepsInv(INITIAL, front);
    StepKeepsInv(s, Resolve(s.apis[chain]));
    ReadyStays(Step(s, Resolve(s.apis[chain])), back, chain);
  }

  /** One that was rejected while cached is gone once its handler has run, and the next retrieval starts a
      new one. */
  lemma RejectedIsReplaced(front: seq<Event>, chain: ChainId)
    requires Runs(INITIAL, front) && chain in After(INITIAL, front).apis
    requires Enabled(After(INITIAL, front), Reject(After(INITIAL, front).apis[chain]))
    ensures var s := After(INITIAL, front);
            var id := s.apis[chain];
            var rejected := Step(s, Reject(id));
            && Enabled(rejected, Handle(id)) && chain !in Step(rejected, Handle(id)).apis
            && Retrieved(Step(rejected, Handle(id)), chain) == |s.creations|
  {
    RunKeepsInv(INITIAL, front);
  }
}
