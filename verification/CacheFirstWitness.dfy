/** Runs showing that each of the four ways of CacheFirst.StaleOnlyIf really happens, as the only one
    of the four. Request 0 is the stale one, invalidation 0 the one it should have respected. */
module CacheFirstWitness {
  import opened Wrappers
  import opened RedisStore
  import opened CacheFirst

  /** One step, to the state it is said to lead to. */
  lemma Advance(s: Sys, e: Event, t: Sys)
    requires Reachable(s) && Enabled(s, e) && Step(s, e) == t
    ensures Reachable(t)
  {
    ReachableStep(s, e);
  }

  function Entry(r: nat): Option<Hash<Cell>> {
    Some(Hash(map["" := Value(r)], None))
  }

  function Marker(time: int, expireAt: Option<int>): Option<Hash<int>> {
    Some(Hash(map["" := time], expireAt))
  }

  const WRITTEN_EARLY_3 := Sys(1, 3, None, None, map[0 := Request("", 1, Some(2), None, None)],
                  map[0 := Invalidation(0, None, 0, None)])

  const WRITTEN_EARLY_6 := Sys(1, 6, Entry(0), Marker(1, None), map[0 := Request("", 1, Some(2), None, Some(3))],
                  map[0 := Invalidation(0, Some(4), 1, Some(5))])

  lemma WriteBetweenUnlinkAndMark3()
    ensures Reachable(WRITTEN_EARLY_3)
  {
    var s0 := Init(1);
    InitReachable(1);
    var s1 := Sys(1, 1, None, None, map[],
                  map[0 := Invalidation(0, None, 0, None)]);
    assert Reachable(s1) by { Advance(s0, Unlink(0), s1); }
    var s2 := Sys(1, 2, None, None, map[0 := Request("", 1, None, None, None)],
                  map[0 := Invalidation(0, None, 0, None)]);
    assert Reachable(s2) by { Advance(s1, Start(0, ""), s2); }
    var s3 := WRITTEN_EARLY_3;
    assert Reachable(s3) by { Advance(s2, Check(0), s3); }
  }

  lemma WriteBetweenUnlinkAndMark6()
    ensures Reachable(WRITTEN_EARLY_6)
  {
    WriteBetweenUnlinkAndMark3();
    var s3 := WRITTEN_EARLY_3;
    var s4 := Sys(1, 4, Entry(0), None, map[0 := Request("", 1, Some(2), None, Some(3))],
                  map[0 := Invalidation(0, None, 0, None)]);
    assert Reachable(s4) by { Advance(s3, Write(0), s4); }
    var s5 := Sys(1, 5, Entry(0), None, map[0 := Request("", 1, Some(2), None, Some(3))],
                  map[0 := Invalidation(0, Some(4), 1, None)]);
    assert Reachable(s5) by { Advance(s4, ReadClock(0), s5); }
    var s6 := WRITTEN_EARLY_6;
    assert Reachable(s6) by { Advance(s5, Mark(0), s6); }
  }

  predicate OnlyWroteBeforeMark(s: Sys) {
    && Stale(s, "", 0, 0)
    && var q, v := s.requests[0], s.invalidations[0];
       && WroteBeforeMark(q, v) && !MarkedAfterCheck(q, v) && !MarkerGone(q, v)
       && s.invalidations.Keys == {0}
  }

  lemma WriteBetweenUnlinkAndMark() returns (s: Sys)
    ensures Reachable(s) && OnlyWroteBeforeMark(s)
  {
    WriteBetweenUnlinkAndMark6();
    s := WRITTEN_EARLY_6;
  }

  const MARKED_LATE_3 := Sys(1, 3, None, None, map[0 := Request("", 1, Some(1), None, None)],
                  map[0 := Invalidation(2, None, 0, None)])

  const MARKED_LATE_6 := Sys(1, 6, Entry(0), Marker(1, None), map[0 := Request("", 1, Some(1), None, Some(5))],
                  map[0 := Invalidation(2, Some(3), 1, Some(4))])

  lemma MarkBetweenCheckAndWrite3()
    ensures Reachable(MARKED_LATE_3)
  {
    var s0 := Init(1);
    InitReachable(1);
    var s1 := Sys(1, 1, None, None, map[0 := Request("", 1, None, None, None)],
                  map[]);
    assert Reachable(s1) by { Advance(s0, Start(0, ""), s1); }
    var s2 := Sys(1, 2, None, None, map[0 := Request("", 1, Some(1), None, None)],
                  map[]);
    assert Reachable(s2) by { Advance(s1, Check(0), s2); }
    var s3 := MARKED_LATE_3;
    assert Reachable(s3) by { Advance(s2, Unlink(0), s3); }
  }

  lemma MarkBetweenCheckAndWrite6()
    ensures Reachable(MARKED_LATE_6)
  {
    MarkBetweenCheckAndWrite3();
    var s3 := MARKED_LATE_3;
    var s4 := Sys(1, 4, None, None, map[0 := Request("", 1, Some(1), None, None)],
                  map[0 := Invalidation(2, Some(3), 1, None)]);
    assert Reachable(s4) by { Advance(s3, ReadClock(0), s4); }
    var s5 := Sys(1, 5, None, Marker(1, None), map[0 := Request("", 1, Some(1), None, None)],
                  map[0 := Invalidation(2, Some(3), 1, Some(4))]);
    assert Reachable(s5) by { Advance(s4, Mark(0), s5); }
    var s6 := MARKED_LATE_6;
    assert Reachable(s6) by { Advance(s5, Write(0), s6); }
  }

  predicate OnlyMarkedAfterCheck(s: Sys) {
    && Stale(s, "", 0, 0)
    && var q, v := s.requests[0], s.invalidations[0];
       && !WroteBeforeMark(q, v) && MarkedAfterCheck(q, v) && !MarkerGone(q, v)
       && s.invalidations.Keys == {0}
  }

  lemma MarkBetweenCheckAndWrite() returns (s: Sys)
    ensures Reachable(s) && OnlyMarkedAfterCheck(s)
  {
    MarkBetweenCheckAndWrite6();
    s := MARKED_LATE_6;
  }

  const EXPIRED_3 := Sys(0, 3, None, Marker(0, None), map[],
                  map[1 := Invalidation(0, Some(1), 0, Some(2))])

  const EXPIRED_6 := Sys(9999, 6, None, Marker(0, Some(10000)), map[0 := Request("", 9999, None, None, None)],
                  map[1 := Invalidation(0, Some(1), 0, Some(2))])

  const EXPIRED_8 := Sys(9999, 8, None, Marker(0, Some(10000)), map[0 := Request("", 9999, None, None, None)],
                  map[0 := Invalidation(6, Some(7), 9999, None), 1 := Invalidation(0, Some(1), 0, Some(2))])

  const EXPIRED_9 := Sys(9999, 9, None, Marker(9999, Some(10000)), map[0 := Request("", 9999, None, None, None)],
                  map[0 := Invalidation(6, Some(7), 9999, Some(8)), 1 := Invalidation(0, Some(1), 0, Some(2))])

  const EXPIRED_12 := Sys(10000, 12, None, None, map[0 := Request("", 9999, Some(11), None, None)],
                  map[0 := Invalidation(6, Some(7), 9999, Some(8)), 1 := Invalidation(0, Some(1), 0, Some(2))])

  const EXPIRED_13 := Sys(10000, 13, Entry(0), None, map[0 := Request("", 9999, Some(11), None, Some(12))],
                  map[0 := Invalidation(6, Some(7), 9999, Some(8)), 1 := Invalidation(0, Some(1), 0, Some(2))])

  lemma MarkerExpiredEarly3()
    ensures Reachable(EXPIRED_3)
  {
    var s0 := Init(0);
    InitReachable(0);
    var s1 := Sys(0, 1, None, None, map[],
                  map[1 := Invalidation(0, None, 0, None)]);
    assert Reachable(s1) by { Advance(s0, Unlink(1), s1); }
    var s2 := Sys(0, 2, None, None, map[],
                  map[1 := Invalidation(0, Some(1), 0, None)]);
    assert Reachable(s2) by { Advance(s1, ReadClock(1), s2); }
    var s3 := EXPIRED_3;
    assert Reachable(s3) by { Advance(s2, Mark(1), s3); }
  }

  lemma MarkerExpiredEarly6()
    ensures Reachable(EXPIRED_6)
  {
    MarkerExpiredEarly3();
    var s3 := EXPIRED_3;
    var s4 := Sys(0, 4, None, Marker(0, Some(10000)), map[],
                  map[1 := Invalidation(0, Some(1), 0, Some(2))]);
    assert Reachable(s4) by { Advance(s3, ExpireMarker(10), s4); }
    var s5 := Sys(9999, 5, None, Marker(0, Some(10000)), map[],
                  map[1 := Invalidation(0, Some(1), 0, Some(2))]);
    assert Reachable(s5) by { Advance(s4, Tick(9999), s5); }
    var s6 := EXPIRED_6;
    assert Reachable(s6) by { Advance(s5, Start(0, ""), s6); }
  }

  lemma MarkerExpiredEarly8()
    ensures Reachable(EXPIRED_8)
  {
    MarkerExpiredEarly6();
    var s6 := EXPIRED_6;
    var s7 := Sys(9999, 7, None, Marker(0, Some(10000)), map[0 := Request("", 9999, None, None, None)],
                  map[0 := Invalidation(6, None, 0, None), 1 := Invalidation(0, Some(1), 0, Some(2))]);
    assert Reachable(s7) by { Advance(s6, Unlink(0), s7); }
    var s8 := EXPIRED_8;
    assert Reachable(s8) by { Advance(s7, ReadClock(0), s8); }
  }

  lemma MarkerExpiredEarly9()
    ensures Reachable(EXPIRED_9)
  {
    MarkerExpiredEarly8();
    assert map["" := 0]["" := 9999] == map["" := 9999];
    Advance(EXPIRED_8, Mark(0), EXPIRED_9);
  }

  lemma MarkerExpiredEarly12()
    ensures Reachable(EXPIRED_12)
  {
    MarkerExpiredEarly9();
    var s9 := EXPIRED_9;
    var s10 := Sys(9999, 10, None, Marker(9999, Some(10000)), map[0 := Request("", 9999, None, None, None)],
                  map[0 := Invalidation(6, Some(7), 9999, Some(8)), 1 := Invalidation(0, Some(1), 0, Some(2))]);
    assert Reachable(s10) by { Advance(s9, ExpireMarker(10), s10); }
    var s11 := Sys(10000, 11, None, None, map[0 := Request("", 9999, None, None, None)],
                  map[0 := Invalidation(6, Some(7), 9999, Some(8)), 1 := Invalidation(0, Some(1), 0, Some(2))]);
    assert Reachable(s11) by { Advance(s10, Tick(1), s11); }
    var s12 := EXPIRED_12;
    assert Reachable(s12) by { Advance(s11, Check(0), s12); }
  }

  lemma MarkerExpiredEarly13()
    ensures Reachable(EXPIRED_13)
  {
    MarkerExpiredEarly12();
    var s12 := EXPIRED_12;
    var s13 := EXPIRED_13;
    assert Reachable(s13) by { Advance(s12, Write(0), s13); }
  }

  predicate OnlyMarkerGone(s: Sys) {
    && Stale(s, "", 0, 0)
    && var q, v := s.requests[0], s.invalidations[0];
       && !WroteBeforeMark(q, v) && !MarkedAfterCheck(q, v) && MarkerGone(q, v)
       && (forall j :: j in s.invalidations ==> !Overtaken(q, v, s.invalidations[j]))
  }

  /** The marker keeps the expiry of its first write: an earlier invalidation (number 1) armed it for
      10 seconds, so it is gone one millisecond after a mark that asked for 10 seconds of its own. */
  lemma MarkerExpiredEarly() returns (s: Sys)
    ensures Reachable(s) && OnlyMarkerGone(s)
    ensures s.now == s.invalidations[0].time + 1
  {
    MarkerExpiredEarly13();
    s := EXPIRED_13;
  }

  const OVERTAKEN_3 := Sys(2, 3, None, None, map[],
                  map[1 := Invalidation(0, Some(1), 1, None)])

  const OVERTAKEN_6 := Sys(2, 6, None, None, map[0 := Request("", 2, None, None, None)],
                  map[0 := Invalidation(4, Some(5), 2, None), 1 := Invalidation(0, Some(1), 1, None)])

  const OVERTAKEN_7 := Sys(2, 7, None, Marker(2, None), map[0 := Request("", 2, None, None, None)],
                  map[0 := Invalidation(4, Some(5), 2, Some(6)), 1 := Invalidation(0, Some(1), 1, None)])

  const OVERTAKEN_9 := Sys(2, 9, None, Marker(1, None), map[0 := Request("", 2, Some(8), Some(1), None)],
                  map[0 := Invalidation(4, Some(5), 2, Some(6)), 1 := Invalidation(0, Some(1), 1, Some(7))])

  const OVERTAKEN_10 := Sys(2, 10, Entry(0), Marker(1, None), map[0 := Request("", 2, Some(8), Some(1), Some(9))],
                  map[0 := Invalidation(4, Some(5), 2, Some(6)), 1 := Invalidation(0, Some(1), 1, Some(7))])

  lemma MarksOutOfOrder3()
    ensures Reachable(OVERTAKEN_3)
  {
    var s0 := Init(1);
    InitReachable(1);
    var s1 := Sys(1, 1, None, None, map[],
                  map[1 := Invalidation(0, None, 0, None)]);
    assert Reachable(s1) by { Advance(s0, Unlink(1), s1); }
    var s2 := Sys(1, 2, None, None, map[],
                  map[1 := Invalidation(0, Some(1), 1, None)]);
    assert Reachable(s2) by { Advance(s1, ReadClock(1), s2); }
    var s3 := OVERTAKEN_3;
    assert Reachable(s3) by { Advance(s2, Tick(1), s3); }
  }

  lemma MarksOutOfOrder6()
    ensures Reachable(OVERTAKEN_6)
  {
    MarksOutOfOrder3();
    var s3 := OVERTAKEN_3;
    var s4 := Sys(2, 4, None, None, map[0 := Request("", 2, None, None, None)],
                  map[1 := Invalidation(0, Some(1), 1, None)]);
    assert Reachable(s4) by { Advance(s3, Start(0, ""), s4); }
    var s5 := Sys(2, 5, None, None, map[0 := Request("", 2, None, None, None)],
                  map[0 := Invalidation(4, None, 0, None), 1 := Invalidation(0, Some(1), 1, None)]);
    assert Reachable(s5) by { Advance(s4, Unlink(0), s5); }
    var s6 := OVERTAKEN_6;
    assert Reachable(s6) by { Advance(s5, ReadClock(0), s6); }
  }

  lemma MarksOutOfOrder7()
    ensures Reachable(OVERTAKEN_7)
  {
    MarksOutOfOrder6();
    Advance(OVERTAKEN_6, Mark(0), OVERTAKEN_7);
  }

  lemma MarksOutOfOrder9()
    ensures Reachable(OVERTAKEN_9)
  {
    MarksOutOfOrder7();
    var s7 := OVERTAKEN_7;
    var s8 := Sys(2, 8, None, Marker(1, None), map[0 := Request("", 2, None, None, None)],
                  map[0 := Invalidation(4, Some(5), 2, Some(6)), 1 := Invalidation(0, Some(1), 1, Some(7))]);
    assert map["" := 2]["" := 1] == map["" := 1];
    assert Reachable(s8) by { Advance(s7, Mark(1), s8); }
    var s9 := OVERTAKEN_9;
    assert Reachable(s9) by { Advance(s8, Check(0), s9); }
  }

  lemma MarksOutOfOrder10()
    ensures Reachable(OVERTAKEN_10)
  {
    MarksOutOfOrder9();
    var s9 := OVERTAKEN_9;
    var s10 := OVERTAKEN_10;
    assert Reachable(s10) by { Advance(s9, Write(0), s10); }
  }

  predicate OnlyOvertaken(s: Sys) {
    && Stale(s, "", 0, 0) && 1 in s.invalidations
    && var q, v := s.requests[0], s.invalidations[0];
       && !WroteBeforeMark(q, v) && !MarkedAfterCheck(q, v) && !MarkerGone(q, v)
       && Overtaken(q, v, s.invalidations[1])
  }

  /** Two invalidations overlap, and the one that read the clock first marks last. */
  lemma MarksOutOfOrder() returns (s: Sys)
    ensures Reachable(s) && OnlyOvertaken(s)
  {
    MarksOutOfOrder10();
    s := OVERTAKEN_10;
  }
}
