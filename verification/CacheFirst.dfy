/** Cache-first reads against invalidations (src/datasources/cache/cache.first.data.source.ts,
    src/datasources/cache/redis.cache.service.ts): which interleavings let a response that was
    requested before an invalidation be cached after it. One cache key with its fields, and the
    marker key of its invalidations; every command is a step of its own. */
module CacheFirst {
  import opened Wrappers
  import opened RedisStore

  /** Entries of the cached key, tagged with the request that wrote them. */
  datatype Cell = Value(request: nat) | NotFound(request: nat)

  /** Start time read, then the marker check, then the HSET. Steps are numbered; `seen` is the marker
      value the check found. */
  datatype Request = Request(
    field: string, start: int, checkedAt: Option<nat>, seen: Option<int>, wroteAt: Option<nat>)

  /** UNLINK, then the clock is read, then the HSET of the marker. */
  datatype Invalidation = Invalidation(
    unlinkedAt: nat, readAt: Option<nat>, time: int, markedAt: Option<nat>)

  datatype Sys = Sys(
    now: int,
    step: nat,
    data: Option<Hash<Cell>>,
    marker: Option<Hash<int>>,
    requests: map<nat, Request>,
    invalidations: map<nat, Invalidation>)

  datatype Event =
    | Start(request: nat, field: string)
    | Check(request: nat)
    | Write(request: nat)
    | WriteNotFound(request: nat)
    | ExpireData(ttl: int)
    | DropData
    | Unlink(invalidation: nat)
    | ReadClock(invalidation: nat)
    | Mark(invalidation: nat)
    | ExpireMarker(ttl: int)
    | DropMarker
    | Tick(ms: nat)

  function Init(now: int): Sys {
    Sys(now, 0, None, None, map[], map[])
  }

  /** A response is cached when no marker was found, or one strictly before the start time. */
  predicate ShouldBeCached(seen: Option<int>, start: int) {
    seen.None? || seen.value < start
  }

  predicate Enabled(s: Sys, e: Event) {
    match e
    case Start(r, _) => r !in s.requests
    case Check(r) => r in s.requests && s.requests[r].checkedAt.None?
    case Write(r) => r in s.requests && s.requests[r].checkedAt.Some? && s.requests[r].wroteAt.None?
                     && ShouldBeCached(s.requests[r].seen, s.requests[r].start)
    case WriteNotFound(r) => r in s.requests && s.requests[r].checkedAt.None?
    case Unlink(i) => i !in s.invalidations
    case ReadClock(i) => i in s.invalidations && s.invalidations[i].readAt.None?
    case Mark(i) => i in s.invalidations && s.invalidations[i].readAt.Some? && s.invalidations[i].markedAt.None?
    case _ => true
  }

  /** The effect of each command; DropData and DropMarker are the UNLINK of a failed hSet. */
  function Effect(s: Sys, e: Event): Sys
    requires Enabled(s, e)
  {
    match e
    case Start(r, field) => s.(requests := s.requests[r := Request(field, s.now, None, None, None)])
    case Check(r) =>
      s.(requests := s.requests[r := s.requests[r].(checkedAt := Some(s.step), seen := HGet(s.marker, ""))])
    case Write(r) =>
      s.(data := HSet(s.data, s.requests[r].field, Value(r)),
         requests := s.requests[r := s.requests[r].(wroteAt := Some(s.step))])
    case WriteNotFound(r) => s.(data := HSet(s.data, s.requests[r].field, NotFound(r)))
    case ExpireData(ttl) => s.(data := ExpireNX(s.data, ttl, s.now))
    case DropData => s.(data := None)
    case Unlink(i) =>
      s.(data := None, invalidations := s.invalidations[i := Invalidation(s.step, None, 0, None)])
    case ReadClock(i) =>
      s.(invalidations := s.invalidations[i := s.invalidations[i].(readAt := Some(s.step), time := s.now)])
    case Mark(i) =>
      s.(marker := HSet(s.marker, "", s.invalidations[i].time),
         invalidations := s.invalidations[i := s.invalidations[i].(markedAt := Some(s.step))])
    case ExpireMarker(ttl) => s.(marker := ExpireNX(s.marker, ttl, s.now))
    case DropMarker => s.(marker := None)
    case Tick(ms) =>
      s.(now := s.now + ms, data := Live(s.data, s.now + ms), marker := Live(s.marker, s.now + ms))
  }

  function Step(s: Sys, e: Event): Sys
    requires Enabled(s, e)
  {
    Effect(s, e).(step := s.step + 1)
  }

  predicate ValidRun(s: Sys, events: seq<Event>)
    decreases |events|
  {
    events == [] || (Enabled(s, events[0]) && ValidRun(Step(s, events[0]), events[1..]))
  }

  function Run(s: Sys, events: seq<Event>): Sys
    requires ValidRun(s, events)
    decreases |events|
  {
    if events == [] then s else Run(Step(s, events[0]), events[1..])
  }

  ghost predicate Reachable(s: Sys) {
    exists start, events :: ValidRun(Init(start), events) && Run(Init(start), events) == s
  }

  lemma {:induction false} RunConcat(s: Sys, xs: seq<Event>, ys: seq<Event>)
    requires ValidRun(s, xs) && ValidRun(Run(s, xs), ys)
    ensures ValidRun(s, xs + ys) && Run(s, xs + ys) == Run(Run(s, xs), ys)
    decreases |xs|
  {
    if xs == [] {
      assert xs + ys == ys;
    } else {
      RunConcat(Step(s, xs[0]), xs[1..], ys);
      assert (xs + ys)[1..] == xs[1..] + ys;
    }
  }

  lemma ReachableStep(s: Sys, e: Event)
    requires Reachable(s) && Enabled(s, e)
    ensures Reachable(Step(s, e))
  {
    var start, before :| ValidRun(Init(start), before) && Run(Init(start), before) == s;
    assert [e][1..] == [];
    assert Run(Step(s, e), []) == Step(s, e) && Run(s, [e]) == Step(s, e);
    RunConcat(Init(start), before, [e]);
  }

  lemma InitReachable(start: int)
    ensures Reachable(Init(start))
  {
    assert ValidRun(Init(start), []) && Run(Init(start), []) == Init(start);
  }

  /** What is cached was written by a checked request, after every UNLINK so far. */
  predicate DataInv(s: Sys) {
    s.data.Some? ==>
      forall f :: f in s.data.value.fields && s.data.value.fields[f].Value? ==>
        var r := s.data.value.fields[f].request;
        && r in s.requests && s.requests[r].wroteAt.Some?
        && (forall i :: i in s.invalidations ==> s.invalidations[i].unlinkedAt < s.requests[r].wroteAt.value)
  }

  predicate RequestInv(s: Sys) {
    forall r :: r in s.requests ==>
      var q := s.requests[r];
      && (q.checkedAt.Some? ==> q.checkedAt.value < s.step)
      && (q.wroteAt.Some? ==>
            q.checkedAt.Some? && q.checkedAt.value < q.wroteAt.value < s.step && ShouldBeCached(q.seen, q.start))
  }

  predicate PhaseInv(s: Sys) {
    forall i :: i in s.invalidations ==>
      var v := s.invalidations[i];
      && v.unlinkedAt < s.step
      && (v.readAt.Some? ==> v.unlinkedAt < v.readAt.value < s.step && v.time <= s.now)
      && (v.markedAt.Some? ==> v.readAt.Some? && v.readAt.value < v.markedAt.value < s.step)
  }

  /** The clock is read in the order of the times it shows. */
  predicate ClockInv(s: Sys) {
    forall i, j | i in s.invalidations && j in s.invalidations ::
      s.invalidations[i].readAt.Some? && s.invalidations[j].readAt.Some?
      && s.invalidations[i].time < s.invalidations[j].time ==>
        s.invalidations[i].readAt.value < s.invalidations[j].readAt.value
  }

  /** No two of the recorded steps are the same step. */
  predicate DistinctInv(s: Sys) {
    && (forall i, j | i in s.invalidations && j in s.invalidations && i != j ::
          s.invalidations[i].markedAt.Some? ==> s.invalidations[i].markedAt != s.invalidations[j].markedAt)
    && (forall r, i | r in s.requests && i in s.invalidations && s.invalidations[i].markedAt.Some? ::
          s.requests[r].checkedAt != s.invalidations[i].markedAt
          && s.requests[r].wroteAt != s.invalidations[i].markedAt)
  }

  predicate InvalidationInv(s: Sys) {
    PhaseInv(s) && ClockInv(s) && DistinctInv(s)
  }

  /** `j` is the last invalidation whose mark landed before step `before`, and marked `time`. */
  predicate LastMark(s: Sys, j: nat, before: nat, time: int) {
    && j in s.invalidations && s.invalidations[j].markedAt.Some?
    && s.invalidations[j].markedAt.value < before && s.invalidations[j].time == time
    && (forall i :: i in s.invalidations && s.invalidations[i].markedAt.Some?
          && s.invalidations[i].markedAt.value < before
          ==> s.invalidations[i].markedAt.value <= s.invalidations[j].markedAt.value)
  }

  /** The marker, while it exists, is the last one that landed. */
  ghost predicate MarkerInv(s: Sys) {
    && (HGet(s.marker, "").Some? ==> exists j :: LastMark(s, j, s.step, HGet(s.marker, "").value))
    && (forall r :: r in s.requests && s.requests[r].checkedAt.Some? && s.requests[r].seen.Some? ==>
          exists j :: LastMark(s, j, s.requests[r].checkedAt.value, s.requests[r].seen.value))
  }

  ghost predicate Inv(s: Sys) {
    DataInv(s) && RequestInv(s) && InvalidationInv(s) && MarkerInv(s)
  }

  lemma StepKeepsData(s: Sys, e: Event)
    requires DataInv(s) && RequestInv(s) && InvalidationInv(s) && Enabled(s, e)
    ensures DataInv(Step(s, e))
  {
  }

  lemma StepKeepsRequests(s: Sys, e: Event)
    requires RequestInv(s) && Enabled(s, e)
    ensures RequestInv(Step(s, e))
  {
  }

  lemma StepKeepsPhases(s: Sys, e: Event)
    requires PhaseInv(s) && Enabled(s, e)
    ensures PhaseInv(Step(s, e))
  {
  }

  lemma StepKeepsClock(s: Sys, e: Event)
    requires PhaseInv(s) && ClockInv(s) && Enabled(s, e)
    ensures ClockInv(Step(s, e))
  {
  }

  lemma StepKeepsDistinct(s: Sys, e: Event)
    requires PhaseInv(s) && DistinctInv(s) && RequestInv(s) && Enabled(s, e)
    ensures DistinctInv(Step(s, e))
  {
  }

  /** A step never changes who marked last before an earlier step. */
  lemma LastMarkStays(s: Sys, e: Event, j: nat, before: nat, time: int)
    requires InvalidationInv(s) && Enabled(s, e) && before <= s.step && LastMark(s, j, before, time)
    ensures LastMark(Step(s, e), j, before, time)
  {
  }

  lemma MarkIsLast(s: Sys, i: nat)
    requires InvalidationInv(s) && Enabled(s, Mark(i))
    ensures LastMark(Step(s, Mark(i)), i, s.step + 1, s.invalidations[i].time)
  {
  }

  lemma LastMarkStillLast(s: Sys, e: Event, j: nat, time: int)
    requires InvalidationInv(s) && Enabled(s, e) && !e.Mark? && LastMark(s, j, s.step, time)
    ensures LastMark(Step(s, e), j, s.step + 1, time)
  {
  }

  lemma StepKeepsLatestMark(s: Sys, e: Event)
    requires Inv(s) && Enabled(s, e)
    ensures var t := Step(s, e);
            HGet(t.marker, "").Some? ==> exists j :: LastMark(t, j, t.step, HGet(t.marker, "").value)
  {
    var t := Step(s, e);
    if e.Mark? {
      MarkIsLast(s, e.invalidation);
    } else if HGet(t.marker, "").Some? {
      assert HGet(s.marker, "") == HGet(t.marker, "");
      var j :| LastMark(s, j, s.step, HGet(s.marker, "").value);
      LastMarkStillLast(s, e, j, HGet(s.marker, "").value);
    }
  }

  lemma StepKeepsSeenMark(s: Sys, e: Event, r: nat)
    requires Inv(s) && Enabled(s, e)
    requires r in Step(s, e).requests
    ensures var t := Step(s, e);
            var q := t.requests[r];
            q.checkedAt.Some? && q.seen.Some? ==> exists j :: LastMark(t, j, q.checkedAt.value, q.seen.value)
  {
    var t := Step(s, e);
    var q := t.requests[r];
    if q.checkedAt.Some? && q.seen.Some? {
      if e == Check(r) {
        var j :| LastMark(s, j, s.step, q.seen.value);
        LastMarkStays(s, e, j, s.step, q.seen.value);
      } else {
        assert s.requests[r].checkedAt == q.checkedAt && s.requests[r].seen == q.seen;
        var j :| LastMark(s, j, q.checkedAt.value, q.seen.value);
        LastMarkStays(s, e, j, q.checkedAt.value, q.seen.value);
      }
    }
  }

  lemma StepKeepsMarker(s: Sys, e: Event)
    requires Inv(s) && Enabled(s, e)
    ensures MarkerInv(Step(s, e))
  {
    var t := Step(s, e);
    StepKeepsLatestMark(s, e);
    forall r | r in t.requests && t.requests[r].checkedAt.Some? && t.requests[r].seen.Some?
      ensures exists j :: LastMark(t, j, t.requests[r].checkedAt.value, t.requests[r].seen.value)
    {
      StepKeepsSeenMark(s, e, r);
    }
  }

  lemma StepKeepsInv(s: Sys, e: Event)
    requires Inv(s) && Enabled(s, e)
    ensures Inv(Step(s, e))
  {
    StepKeepsData(s, e);
    StepKeepsRequests(s, e);
    StepKeepsPhases(s, e);
    StepKeepsClock(s, e);
    StepKeepsDistinct(s, e);
    StepKeepsMarker(s, e);
  }

  lemma {:induction false} RunKeepsInv(s: Sys, events: seq<Event>)
    requires Inv(s) && ValidRun(s, events)
    ensures Inv(Run(s, events))
    decreases |events|
  {
    if events != [] {
      StepKeepsInv(s, events[0]);
      RunKeepsInv(Step(s, events[0]), events[1..]);
    }
  }

  lemma ReachableInv(s: Sys)
    requires Reachable(s)
    ensures Inv(s)
  {
    var start, events :| ValidRun(Init(start), events) && Run(Init(start), events) == s;
    RunKeepsInv(Init(start), events);
  }

  /** A response of a request that started no later than a completed invalidation's mark time is
      cached. */
  predicate Stale(s: Sys, field: string, r: nat, i: nat) {
    && HGet(s.data, field) == Some(Value(r))
    && r in s.requests
    && i in s.invalidations && s.invalidations[i].markedAt.Some?
    && s.requests[r].start <= s.invalidations[i].time
  }

  /** Written after the UNLINK and before the mark landed. */
  predicate WroteBeforeMark(q: Request, v: Invalidation) {
    q.wroteAt.Some? && v.markedAt.Some? && v.unlinkedAt < q.wroteAt.value < v.markedAt.value
  }

  /** The mark landed between the check and the write. */
  predicate MarkedAfterCheck(q: Request, v: Invalidation) {
    q.checkedAt.Some? && q.wroteAt.Some? && v.markedAt.Some? &&
    q.checkedAt.value < v.markedAt.value < q.wroteAt.value
  }

  /** The mark had landed, and the check found no marker: it had expired or been dropped. */
  predicate MarkerGone(q: Request, v: Invalidation) {
    q.checkedAt.Some? && v.markedAt.Some? && v.markedAt.value < q.checkedAt.value && q.seen.None?
  }

  /** An invalidation that had read the clock earlier landed its mark later, before the check. */
  predicate Overtaken(q: Request, v: Invalidation, w: Invalidation) {
    && q.checkedAt.Some? && v.markedAt.Some? && w.markedAt.Some? && v.readAt.Some? && w.readAt.Some?
    && w.readAt.value < v.readAt.value < v.markedAt.value < w.markedAt.value < q.checkedAt.value
    && w.time < v.time && q.seen == Some(w.time)
  }

  /** One of the four ways in which a marker does not stop a response. */
  ghost predicate Defeats(s: Sys, r: nat, i: nat)
    requires r in s.requests && i in s.invalidations
  {
    var q, v := s.requests[r], s.invalidations[i];
    || WroteBeforeMark(q, v)
    || MarkedAfterCheck(q, v)
    || MarkerGone(q, v)
    || exists j :: j in s.invalidations && Overtaken(q, v, s.invalidations[j])
  }

  /** In every run, for every completed invalidation and every response that was requested no later than
      its mark time and was written: it was written after the UNLINK, so that the UNLINK does not remove
      it, exactly in these four ways. Everything else a run can do keeps the promise of the marker. */
  lemma WrittenPastUnlinkIff(s: Sys, r: nat, i: nat)
    requires Reachable(s) && r in s.requests && i in s.invalidations
    requires s.requests[r].wroteAt.Some? && s.invalidations[i].markedAt.Some?
    requires s.requests[r].start <= s.invalidations[i].time
    ensures s.requests[r].wroteAt.value > s.invalidations[i].unlinkedAt <==> Defeats(s, r, i)
  {
    ReachableInv(s);
    var q, v := s.requests[r], s.invalidations[i];
    if q.wroteAt.value > v.unlinkedAt && v.markedAt.value < q.checkedAt.value && q.seen.Some? {
      var j :| LastMark(s, j, q.checkedAt.value, q.seen.value);
      assert Overtaken(q, v, s.invalidations[j]);
    }
  }

  /** Hence a stale response that is cached got there in one of the four ways. */
  lemma StaleOnlyIf(s: Sys, field: string, r: nat, i: nat)
    requires Reachable(s) && Stale(s, field, r, i)
    ensures Defeats(s, r, i)
  {
    ReachableInv(s);
    WrittenPastUnlinkIff(s, r, i);
  }

  /** Safety: in an orderly run every cached response was requested after every completed
      invalidation. */
  lemma FreshWhenOrderly(s: Sys, field: string)
    requires Reachable(s) && HGet(s.data, field).Some? && HGet(s.data, field).value.Value?
    requires forall r, i {:trigger s.requests[r], s.invalidations[i]} ::
               r in s.requests && i in s.invalidations ==> !Defeats(s, r, i)
    ensures var r := HGet(s.data, field).value.request;
            && r in s.requests
            && forall i :: i in s.invalidations && s.invalidations[i].markedAt.Some? ==>
                 s.invalidations[i].time < s.requests[r].start
  {
    ReachableInv(s);
    var r := HGet(s.data, field).value.request;
    forall i | i in s.invalidations && s.invalidations[i].markedAt.Some?
      ensures s.invalidations[i].time < s.requests[r].start
    {
      assert !Defeats(s, r, i);
      if s.requests[r].start <= s.invalidations[i].time {
        StaleOnlyIf(s, field, r, i);
      }
    }
  }

  /** Right after a response (or a 404) is written it is what its own field holds, and the other fields
      hold what they held. */
  lemma WriteIsReadable(s: Sys, e: Event, field: string)
    requires Enabled(s, e) && (e.Write? || e.WriteNotFound?)
    ensures HGet(Step(s, e).data, field) ==
              if field == s.requests[e.request].field
              then Some(if e.Write? then Value(e.request) else NotFound(e.request))
              else HGet(s.data, field)
  {
  }

  /** What is cached under a field was requested for it. */
  predicate FieldInv(s: Sys) {
    s.data.Some? ==>
      forall f :: f in s.data.value.fields ==>
        s.data.value.fields[f].request in s.requests && s.requests[s.data.value.fields[f].request].field == f
  }

  lemma StepKeepsFields(s: Sys, e: Event)
    requires FieldInv(s) && Enabled(s, e)
    ensures FieldInv(Step(s, e))
  {
  }

  lemma {:induction false} RunKeepsFields(s: Sys, events: seq<Event>)
    requires FieldInv(s) && ValidRun(s, events)
    ensures FieldInv(Run(s, events))
    decreases |events|
  {
    if events != [] {
      StepKeepsFields(s, events[0]);
      RunKeepsFields(Step(s, events[0]), events[1..]);
    }
  }

  /** In every run, what can be read under a field, data or 404, came from a request for that field. */
  lemma CachedUnderOwnField(s: Sys, field: string)
    requires Reachable(s) && HGet(s.data, field).Some?
    ensures HGet(s.data, field).value.request in s.requests
    ensures s.requests[HGet(s.data, field).value.request].field == field
  {
    var start, events :| ValidRun(Init(start), events) && Run(Init(start), events) == s;
    RunKeepsFields(Init(start), events);
  }

  /** Times are those of the clock: a request starts, and an invalidation takes its mark time, when it says. */
  lemma TimesAreOfTheClock(s: Sys, e: Event)
    requires Enabled(s, e)
    ensures e.Start? ==>
              Step(s, e).requests[e.request].start == s.now && Step(s, e).requests[e.request].field == e.field
    ensures e.ReadClock? ==> Step(s, e).invalidations[e.invalidation].time == s.now
    ensures e.Mark? ==> HGet(Step(s, e).marker, "") == Some(s.invalidations[e.invalidation].time)
    ensures e.Check? ==> Step(s, e).requests[e.request].seen == HGet(s.marker, "")
    ensures e.Unlink? ==> Step(s, e).data.None?
  {
  }

  /** Nothing past its expiry is there to be read. */
  predicate UnexpiredInv(s: Sys) {
    && (s.data.Some? && s.data.value.expireAt.Some? ==> s.now < s.data.value.expireAt.value)
    && (s.marker.Some? && s.marker.value.expireAt.Some? ==> s.now < s.marker.value.expireAt.value)
  }

  lemma StepKeepsUnexpired(s: Sys, e: Event)
    requires UnexpiredInv(s) && Enabled(s, e)
    ensures UnexpiredInv(Step(s, e))
  {
  }

  lemma {:induction false} RunKeepsUnexpired(s: Sys, events: seq<Event>)
    requires UnexpiredInv(s) && ValidRun(s, events)
    ensures UnexpiredInv(Run(s, events))
    decreases |events|
  {
    if events != [] {
      StepKeepsUnexpired(s, events[0]);
      RunKeepsUnexpired(Step(s, events[0]), events[1..]);
    }
  }

  /** In every run, whatever the other clients did, a key is gone once its expiry has passed. */
  lemma ExpiredIsGone(s: Sys, expireAt: int)
    requires Reachable(s) && expireAt <= s.now
    ensures s.data.Some? ==> s.data.value.expireAt != Some(expireAt)
    ensures s.marker.Some? ==> s.marker.value.expireAt != Some(expireAt)
  {
    var start, events :| ValidRun(Init(start), events) && Run(Init(start), events) == s;
    RunKeepsUnexpired(Init(start), events);
  }
}
