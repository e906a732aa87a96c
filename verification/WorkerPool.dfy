/** mapWithConcurrency (scripts/backfill-field-encryption.ts): workers that claim indices from a shared
    counter, over every interleaving of claims, completions and rejections. */
module WorkerPool {

  /** At the head of its loop, waiting for one call, returned, or ended by the rejection of a call. */
  datatype Worker = AtHead | Busy(index: nat) | Returned | Rejected(index: nat)

  /** `results` has an entry per index that was assigned; `owner` remembers who claimed an index. */
  datatype Pool<R> = Pool(next: nat, workers: seq<Worker>, results: map<nat, R>, owner: map<nat, nat>)

  function Min(a: int, b: int): int {
    if a < b then a else b
  }

  /** As many workers as the smaller of the two numbers; a negative one gives none. */
  function WorkerCount(concurrency: int, n: nat): nat {
    if Min(concurrency, n) < 0 then 0 else Min(concurrency, n)
  }

  function Init<R>(concurrency: int, n: nat): Pool<R> {
    Pool(0, seq(WorkerCount(concurrency, n), _ => AtHead), map[], map[])
  }

  predicate CanClaim<R>(p: Pool<R>, w: nat) {
    w < |p.workers| && p.workers[w].AtHead?
  }

  function Claim<R>(p: Pool<R>, n: nat, w: nat): Pool<R>
    requires CanClaim(p, w)
  {
    var i := p.next;
    if i >= n then p.(next := i + 1, workers := p.workers[w := Returned])
    else p.(next := i + 1, workers := p.workers[w := Busy(i)], owner := p.owner[i := w])
  }

  predicate CanComplete<R>(p: Pool<R>, w: nat) {
    w < |p.workers| && p.workers[w].Busy?
  }

  function Complete<R>(p: Pool<R>, w: nat, r: R): Pool<R>
    requires CanComplete(p, w)
  {
    p.(workers := p.workers[w := AtHead], results := p.results[p.workers[w].index := r])
  }

  /** The other workers go on; the whole is rejected, but nothing is taken back. */
  function Reject<R>(p: Pool<R>, w: nat): Pool<R>
    requires CanComplete(p, w)
  {
    p.(workers := p.workers[w := Rejected(p.workers[w].index)])
  }

  datatype Event<R> = Claims(worker: nat) | Completes(worker: nat, result: R) | Rejects(worker: nat)

  /** `allowed(x, r)`: the call on x may return r. */
  predicate Enabled<T, R>(items: seq<T>, allowed: (T, R) -> bool, p: Pool<R>, e: Event<R>) {
    match e
    case Claims(w) => CanClaim(p, w)
    case Completes(w, r) => CanComplete(p, w) && p.workers[w].index < |items| && allowed(items[p.workers[w].index], r)
    case Rejects(w) => CanComplete(p, w)
  }

  function Step<T, R>(items: seq<T>, allowed: (T, R) -> bool, p: Pool<R>, e: Event<R>): Pool<R>
    requires Enabled(items, allowed, p, e)
  {
    match e
    case Claims(w) => Claim(p, |items|, w)
    case Completes(w, r) => Complete(p, w, r)
    case Rejects(w) => Reject(p, w)
  }

  predicate ValidRun<T, R>(items: seq<T>, allowed: (T, R) -> bool, p: Pool<R>, events: seq<Event<R>>)
    decreases |events|
  {
    events == [] ||
    (Enabled(items, allowed, p, events[0]) &&
     ValidRun(items, allowed, Step(items, allowed, p, events[0]), events[1..]))
  }

  function Run<T, R>(items: seq<T>, allowed: (T, R) -> bool, p: Pool<R>, events: seq<Event<R>>): Pool<R>
    requires ValidRun(items, allowed, p, events)
    decreases |events|
  {
    if events == [] then p else Run(items, allowed, Step(items, allowed, p, events[0]), events[1..])
  }

  predicate AllReturned<R>(p: Pool<R>) {
    forall w :: 0 <= w < |p.workers| ==> p.workers[w].Returned?
  }

  /** Every worker has ended. */
  predicate AllSettled<R>(p: Pool<R>) {
    forall w :: 0 <= w < |p.workers| ==> p.workers[w].Returned? || p.workers[w].Rejected?
  }

  predicate Holds(w: Worker, i: nat) {
    w == Busy(i) || w == Rejected(i)
  }

  /** Every index below the counter has one owner, which is still busy with it, was rejected on it, or has
      stored its result. */
  predicate IndexInv<R>(n: nat, p: Pool<R>) {
    && (forall i :: i in p.owner ==> i < Min(p.next, n) && p.owner[i] < |p.workers|)
    && (forall i :: 0 <= i < Min(p.next, n) ==> i in p.owner)
    && (forall i :: i in p.results ==> i in p.owner)
    && (forall i :: i in p.owner && i !in p.results ==> Holds(p.workers[p.owner[i]], i))
    && (forall w :: 0 <= w < |p.workers| && (p.workers[w].Busy? || p.workers[w].Rejected?) ==>
          p.workers[w].index in p.owner && p.owner[p.workers[w].index] == w
          && p.workers[w].index !in p.results)
    && (forall w :: 0 <= w < |p.workers| && p.workers[w].Returned? ==> p.next > n)
  }

  predicate ResultInv<T, R>(items: seq<T>, allowed: (T, R) -> bool, p: Pool<R>) {
    forall i :: i in p.results ==> i < |items| && allowed(items[i], p.results[i])
  }

  predicate Inv<T, R>(items: seq<T>, allowed: (T, R) -> bool, p: Pool<R>) {
    IndexInv(|items|, p) && ResultInv(items, allowed, p)
  }

  lemma ClaimKeepsInv<R>(n: nat, p: Pool<R>, w: nat)
    requires IndexInv(n, p) && CanClaim(p, w)
    ensures IndexInv(n, Claim(p, n, w))
  {
  }

  lemma CompleteKeepsInv<R>(n: nat, p: Pool<R>, w: nat, r: R)
    requires IndexInv(n, p) && CanComplete(p, w)
    ensures IndexInv(n, Complete(p, w, r))
  {
  }

  lemma RejectKeepsInv<R>(n: nat, p: Pool<R>, w: nat)
    requires IndexInv(n, p) && CanComplete(p, w)
    ensures IndexInv(n, Reject(p, w))
  {
  }

  lemma StepKeepsInv<T, R>(items: seq<T>, allowed: (T, R) -> bool, p: Pool<R>, e: Event<R>)
    requires Inv(items, allowed, p) && Enabled(items, allowed, p, e)
    ensures Inv(items, allowed, Step(items, allowed, p, e))
  {
    match e
    case Claims(w) => ClaimKeepsInv(|items|, p, w);
    case Completes(w, r) => CompleteKeepsInv(|items|, p, w, r);
    case Rejects(w) => RejectKeepsInv(|items|, p, w);
  }

  function Weight(w: Worker): nat {
    match w
    case AtHead => 1
    case Busy(_) => 2
    case _ => 0
  }

  function TotalWeight(ws: seq<Worker>): nat {
    if ws == [] then 0 else Weight(ws[0]) + TotalWeight(ws[1..])
  }

  lemma {:induction false} WeightUpdate(ws: seq<Worker>, w: nat, x: Worker)
    requires w < |ws|
    ensures TotalWeight(ws[w := x]) == TotalWeight(ws) - Weight(ws[w]) + Weight(x)
  {
    if w == 0 {
      assert ws[w := x][1..] == ws[1..];
    } else {
      WeightUpdate(ws[1..], w - 1, x);
      assert ws[w := x][1..] == ws[1..][w - 1 := x];
    }
  }

  function Lost(ws: seq<Worker>): nat {
    if ws == [] then 0 else (if ws[0].Rejected? then 1 else 0) + Lost(ws[1..])
  }

  lemma {:induction false} LostUpdate(ws: seq<Worker>, w: nat, x: Worker)
    requires w < |ws| && !ws[w].Rejected?
    ensures Lost(ws[w := x]) == Lost(ws) + if x.Rejected? then 1 else 0
  {
    if w == 0 {
      assert ws[w := x][1..] == ws[1..];
    } else {
      LostUpdate(ws[1..], w - 1, x);
      assert ws[w := x][1..] == ws[1..][w - 1 := x];
    }
  }

  lemma {:induction false} LostZero(ws: seq<Worker>)
    ensures Lost(ws) == 0 <==> forall w :: 0 <= w < |ws| ==> !ws[w].Rejected?
  {
    if ws != [] {
      LostZero(ws[1..]);
      assert forall w :: 0 < w < |ws| ==> ws[w] == ws[1..][w - 1];
    }
  }

  function Rejections<R>(events: seq<Event<R>>): nat {
    if events == [] then 0 else (if events[0].Rejects? then 1 else 0) + Rejections(events[1..])
  }

  /** The steps still to come, if no call is rejected. */
  function Remaining<R>(n: nat, p: Pool<R>): nat {
    2 * (n - Min(p.next, n)) + TotalWeight(p.workers)
  }

  lemma StepConsumesOne<T, R>(items: seq<T>, allowed: (T, R) -> bool, p: Pool<R>, e: Event<R>)
    requires Enabled(items, allowed, p, e)
    ensures var q := Step(items, allowed, p, e);
            var lost := if e.Rejects? then 1 else 0;
            && Remaining(|items|, q) == Remaining(|items|, p) - 1 - lost
            && Lost(q.workers) == Lost(p.workers) + lost
  {
    match e
    case Claims(w) =>
      WeightUpdate(p.workers, w, if p.next >= |items| then Returned else Busy(p.next));
      LostUpdate(p.workers, w, if p.next >= |items| then Returned else Busy(p.next));
    case Completes(w, r) =>
      WeightUpdate(p.workers, w, AtHead);
      LostUpdate(p.workers, w, AtHead);
    case Rejects(w) =>
      WeightUpdate(p.workers, w, Rejected(p.workers[w].index));
      LostUpdate(p.workers, w, Rejected(p.workers[w].index));
  }

  lemma {:induction false} RunKeepsInv<T, R>(items: seq<T>, allowed: (T, R) -> bool, p: Pool<R>, events: seq<Event<R>>)
    requires Inv(items, allowed, p) && ValidRun(items, allowed, p, events)
    ensures var q := Run(items, allowed, p, events);
            && Inv(items, allowed, q)
            && |q.workers| == |p.workers|
            && Lost(q.workers) == Lost(p.workers) + Rejections(events)
            && Remaining(|items|, q) == Remaining(|items|, p) - |events| - Rejections(events)
    decreases |events|
  {
    if events != [] {
      StepKeepsInv(items, allowed, p, events[0]);
      StepConsumesOne(items, allowed, p, events[0]);
      RunKeepsInv(items, allowed, Step(items, allowed, p, events[0]), events[1..]);
    }
  }

  lemma {:induction false} WeightZero(ws: seq<Worker>)
    ensures TotalWeight(ws) == 0 <==> forall w :: 0 <= w < |ws| ==> ws[w].Returned? || ws[w].Rejected?
  {
    if ws != [] {
      WeightZero(ws[1..]);
      assert forall w :: 0 < w < |ws| ==> ws[w] == ws[1..][w - 1];
    }
  }

  lemma {:induction false} HeadWeight(k: nat)
    ensures TotalWeight(seq(k, _ => AtHead)) == k
    ensures Lost(seq(k, _ => AtHead)) == 0
  {
    if k > 0 {
      HeadWeight(k - 1);
      assert seq(k, _ => AtHead)[1..] == seq(k - 1, _ => AtHead);
    }
  }

  /** At any moment of any run at most min(concurrency, n) calls are outstanding, on different indices,
      and a claim takes an index nobody has claimed before. */
  lemma BoundedAndDisjoint<T, R>(items: seq<T>, allowed: (T, R) -> bool, concurrency: int, events: seq<Event<R>>)
    requires ValidRun(items, allowed, Init(concurrency, |items|), events)
    ensures var p := Run(items, allowed, Init(concurrency, |items|), events);
            && |p.workers| == WorkerCount(concurrency, |items|)
            && (forall v, w :: 0 <= v < w < |p.workers| && p.workers[v].Busy? && p.workers[w].Busy? ==>
                  p.workers[v].index != p.workers[w].index)
            && (forall w :: 0 <= w < |p.workers| && p.workers[w].Busy? ==>
                  p.workers[w].index < |items| && p.workers[w].index !in p.results)
            && p.next !in p.owner
  {
    RunKeepsInv(items, allowed, Init<R>(concurrency, |items|), events);
  }

  /** Whatever was rejected meanwhile: once all workers have returned, which is when the whole resolves,
      every item has a result its call allowed exactly when the concurrency is at least 1 or there is
      nothing to do. */
  lemma ResultsCompleteIff<T, R>(items: seq<T>, allowed: (T, R) -> bool, concurrency: int, events: seq<Event<R>>)
    requires ValidRun(items, allowed, Init(concurrency, |items|), events)
    requires AllReturned(Run(items, allowed, Init(concurrency, |items|), events))
    ensures var p := Run(items, allowed, Init(concurrency, |items|), events);
            && ((forall i :: 0 <= i < |items| ==> i in p.results) <==> concurrency >= 1 || |items| == 0)
            && (forall i :: i in p.results ==> i < |items| && allowed(items[i], p.results[i]))
  {
    RunKeepsInv(items, allowed, Init<R>(concurrency, |items|), events);
    var p := Run(items, allowed, Init<R>(concurrency, |items|), events);
    if concurrency >= 1 && |items| > 0 {
      assert p.workers[0].Returned?;
    } else if |items| > 0 {
      assert 0 !in p.results;
    }
  }

  lemma StartCounts<R>(concurrency: int, n: nat)
    ensures var start := Init<R>(concurrency, n);
            && Lost(start.workers) == 0
            && Remaining(n, start) == 2 * n + WorkerCount(concurrency, n)
  {
    var start := Init<R>(concurrency, n);
    HeadWeight(|start.workers|);
    assert start.workers == seq(|start.workers|, _ => AtHead);
  }

  lemma NothingRemainsIff<R>(n: nat, p: Pool<R>)
    requires IndexInv(n, p) && (p.workers == [] ==> n == 0)
    ensures Remaining(n, p) == 0 && Lost(p.workers) == 0 <==> AllReturned(p)
  {
    WeightZero(p.workers);
    LostZero(p.workers);
    if AllReturned(p) && p.workers != [] {
      assert p.workers[0].Returned?;
    }
  }

  lemma SomeoneCanAct<R>(p: Pool<R>)
    requires !AllSettled(p)
    ensures exists w: nat :: CanClaim(p, w) || CanComplete(p, w)
  {
    var w :| 0 <= w < |p.workers| && !p.workers[w].Returned? && !p.workers[w].Rejected?;
    assert CanClaim(p, w) || CanComplete(p, w);
  }

  lemma RunCounts<T, R>(items: seq<T>, allowed: (T, R) -> bool, concurrency: int, events: seq<Event<R>>)
    requires ValidRun(items, allowed, Init(concurrency, |items|), events)
    ensures var p := Run(items, allowed, Init(concurrency, |items|), events);
            && IndexInv(|items|, p) && |p.workers| == WorkerCount(concurrency, |items|)
            && Lost(p.workers) == Rejections(events)
            && Remaining(|items|, p) == 2 * |items| + WorkerCount(concurrency, |items|) - |events| - Rejections(events)
  {
    StartCounts<R>(concurrency, |items|);
    RunKeepsInv(items, allowed, Init<R>(concurrency, |items|), events);
  }

  lemma SettledIff<R>(p: Pool<R>)
    requires AllSettled(p)
    ensures AllReturned(p) <==> Lost(p.workers) == 0
  {
    LostZero(p.workers);
  }

  /** Once all workers have ended, the whole resolves exactly when no call was rejected. */
  lemma ResolvesIff<T, R>(items: seq<T>, allowed: (T, R) -> bool, concurrency: int, events: seq<Event<R>>)
    requires ValidRun(items, allowed, Init(concurrency, |items|), events)
    requires AllSettled(Run(items, allowed, Init(concurrency, |items|), events))
    ensures AllReturned(Run(items, allowed, Init(concurrency, |items|), events)) <==> Rejections(events) == 0
  {
    RunCounts(items, allowed, concurrency, events);
    SettledIff(Run(items, allowed, Init<R>(concurrency, |items|), events));
  }

  /** No run gets stuck or goes on for ever: all workers have returned exactly when 2 n + workers steps
      were taken, no run takes more, and while a worker has not ended some worker can act as soon as its
      call ends. */
  lemma RunsEndTogether<T, R>(items: seq<T>, allowed: (T, R) -> bool, concurrency: int, events: seq<Event<R>>)
    requires ValidRun(items, allowed, Init(concurrency, |items|), events)
    requires concurrency >= 1
    ensures var p := Run(items, allowed, Init(concurrency, |items|), events);
            && |events| <= 2 * |items| + WorkerCount(concurrency, |items|)
            && (AllReturned(p) <==> |events| == 2 * |items| + WorkerCount(concurrency, |items|))
            && (!AllSettled(p) ==> exists w: nat :: CanClaim(p, w) || CanComplete(p, w))
  {
    var p := Run(items, allowed, Init<R>(concurrency, |items|), events);
    RunCounts(items, allowed, concurrency, events);
    NothingRemainsIff(|items|, p);
    if !AllSettled(p) {
      SomeoneCanAct(p);
    }
  }

  /** The counter, the workers and the results array, updated in place. */
  class PoolState<R(==)> {
    const n: nat
    var next: nat
    var workers: seq<Worker>
    var results: map<nat, R>
    ghost var owner: map<nat, nat>

    ghost function View(): Pool<R>
      reads this
    {
      Pool(next, workers, results, owner)
    }

    constructor (n: nat, concurrency: int)
      ensures this.n == n && View() == Init<R>(concurrency, n)
    {
      this.n := n;
      next, results, owner := 0, map[], map[];
      workers := seq(WorkerCount(concurrency, n), _ => AtHead);
    }

    /** A worker at the head of its loop takes the next index, or returns when none is left. */
    method ClaimNext(w: nat)
      requires CanClaim(View(), w)
      modifies this
      ensures View() == Claim(old(View()), n, w)
    {
      var i := next;
      next := next + 1;
      if i >= n {
        workers := workers[w := Returned];
        return;
      }
      workers := workers[w := Busy(i)];
      owner := owner[i := w];
    }

    /** The call of a busy worker ended with a result, which goes into the slot of its item. */
    method Store(w: nat, r: R)
      requires CanComplete(View(), w)
      modifies this
      ensures View() == Complete(old(View()), w, r)
    {
      results := results[workers[w].index := r];
      workers := workers[w := AtHead];
    }

    /** The call of a busy worker was rejected, and so is the worker. */
    method Fail(w: nat)
      requires CanComplete(View(), w)
      modifies this`workers
      ensures View() == Reject(old(View()), w)
    {
      workers := workers[w := Rejected(workers[w].index)];
    }
  }
}
