/** The cache-first data source object (src/datasources/cache/cache.first.data.source.ts) over the cache
    service it shares with others. A read that misses is two calls: everything other clients do to the
    cache while the network answers happens between Begin and Complete. */
module CacheFirstDataSource {
  import opened Wrappers
  import RedisStore
  import CacheFirst
  import R = RedisCacheService

  /** What the network answered; a 404 carries the text cached for it. */
  datatype Answer = Data(text: string) | NotFound(text: string) | Failed

  /** A cached text that does not parse makes the call throw. */
  datatype Reading =
    | Hit(text: string) | CachedNotFound(text: string) | Unreadable(text: string)
    | Miss(startTimeMs: int)

  class CacheFirstDataSource {
    const cache: R.RedisCacheService
    /** Does the cached JSON hold a response with status 404? None if it is not JSON. */
    const holds404: string -> Option<bool>
    /** Number(text) when that is an integer. */
    const asInteger: string -> Option<int>
    /** The decimal text of a time. */
    const timeText: int -> string

    constructor (cache: R.RedisCacheService, holds404: string -> Option<bool>, asInteger: string -> Option<int>,
                 timeText: int -> string)
      ensures this.cache == cache && this.holds404 == holds404
      ensures this.asInteger == asInteger && this.timeText == timeText
    {
      this.cache, this.holds404, this.asInteger, this.timeText := cache, holds404, asInteger, timeText;
    }

    function Text(cell: R.Cell): string {
      match cell
      case Json(text) => text
      case TimeMs(ms) => timeText(ms)
    }

    /** The time of the last invalidation, as the marker check understands it: Some(None) is a marker that
        is no integer, which lets nothing be cached. */
    ghost function MarkerAt(key: string, now: int): Option<Option<int>>
      reads cache
    {
      match RedisStore.HGet(cache.HashAt(R.MarkerKey(key), now), "")
      case None => None
      case Some(cell) =>
        match cell
        case TimeMs(ms) => Some(Some(ms))
        case Json(text) => if text == "" then None else Some(asInteger(text))
    }

    /** A response may be cached when no marker is there, or one strictly before the request started. */
    method ShouldBeCached(key: string, startTimeMs: int, now: int) returns (ok: bool)
      ensures var marker := MarkerAt(key, now);
              ok <==> marker.None? || (marker.value.Some? && CacheFirst.ShouldBeCached(marker.value, startTimeMs))
    {
      var marker := cache.HGet(R.MarkerKey(key), "", now);
      match marker
      case None => ok := true;
      case Some(TimeMs(ms)) => ok := ms < startTimeMs;
      case Some(Json(text)) =>
        if text == "" {
          ok := true;
        } else {
          var time := asInteger(text);
          ok := time.Some? && time.value < startTimeMs;
        }
    }

    /** tryCache up to the network request: a cached value, a cached 404, a cached text that is not JSON, or
        the start of a request. */
    method Begin(key: string, field: string, now: int) returns (reading: Reading)
      ensures var cached := RedisStore.HGet(cache.HashAt(key, now), field);
              && (reading.Miss? <==> cached.None?)
              && (reading.Miss? ==> reading.startTimeMs == now)
              && (cached.Some? ==> reading.text == Text(cached.value))
              && (reading.Hit? <==> cached.Some? && holds404(Text(cached.value)) == Some(false))
              && (reading.CachedNotFound? <==> cached.Some? && holds404(Text(cached.value)) == Some(true))
    {
      var cached := cache.HGet(key, field, now);
      if cached.None? { return Miss(now); }
      var text := Text(cached.value);
      match holds404(text)
      case None => reading := Unreadable(text);
      case Some(notFound) => reading := if notFound then CachedNotFound(text) else Hit(text);
    }

    /** tryCache from the answer on. Data is written only past the marker check; a 404 is written without
        one; nothing else is written, and nothing but this key. */
    method Complete(key: string, field: string, startTimeMs: int, answer: Answer,
                    expireTimeSeconds: Option<real>, notFoundExpireTimeSeconds: Option<real>,
                    u: real, now: int, fault: R.Fault)
      modifies cache`hashes
      ensures var marker := old(MarkerAt(key, now));
              answer.Data? && marker.Some? && (marker.value.None? || marker.value.value >= startTimeMs) ==>
                cache.hashes == old(cache.hashes)
      ensures var expire := if answer.NotFound? then notFoundExpireTimeSeconds else expireTimeSeconds;
              answer.Failed? || expire.None? || expire.value <= 0.0 ==> cache.hashes == old(cache.hashes)
      ensures var marker := old(MarkerAt(key, now));
              var expire := if answer.NotFound? then notFoundExpireTimeSeconds else expireTimeSeconds;
              var mayWrite := answer.NotFound? || marker.None? ||
                              (marker.value.Some? && marker.value.value < startTimeMs);
              !answer.Failed? && mayWrite && expire.Some? && expire.value > 0.0 ==>
                cache.hashes == Replace(old(cache.hashes), R.PrefixKey(cache.keyPrefix, key),
                  R.AfterHSet(old(cache.HashAt(key, now)), field, R.Json(answer.text),
                    RedisStore.ExpirationTime(expire.value, cache.defaultDeviatePercent, u), now, fault))
    {
      match answer
      case Data(text) =>
        var shouldBeCached := ShouldBeCached(key, startTimeMs, now);
        if shouldBeCached {
          var _ := cache.HSet(key, field, R.Json(text), expireTimeSeconds, None, u, now, fault);
        }
      case NotFound(text) =>
        var _ := cache.HSet(key, field, R.Json(text), notFoundExpireTimeSeconds, None, u, now, fault);
      case Failed =>
    }

    /** The race the marker is for, played out: the key is invalidated while the network answers an older
        request. As long as the marker is there when the answer is checked, what that request fetched is
        not cached, whichever field it was for; unless neither the marker nor the clean-up after it could
        be written, which leaves the marker of an earlier invalidation in place. */
    method InvalidatedWhileFetching(key: string, field: string, text: string,
                                    started: int, deleted: int, answered: int, u: real,
                                    expireTimeSeconds: Option<real>, deleteFault: R.Fault, fault: R.Fault)
      requires started <= deleted <= answered
      modifies cache`hashes
      ensures old(RedisStore.HGet(cache.HashAt(key, started), field)).None? && cache.defaultExpirationSeconds > 0.0
              && deleteFault != R.SetFails(false) && MarkerAt(key, answered).Some? ==>
                cache.HashAt(key, answered).None?
    {
      var reading := Begin(key, field, started);
      if !reading.Miss? { return; }
      var _ := cache.DeleteByKey(key, u, deleted, deleteFault);
      GoneStaysGone(Lookup(cache.hashes, R.PrefixKey(cache.keyPrefix, key)), deleted, answered);
      assert cache.HashAt(key, answered).None?;
      StillThere(Lookup(cache.hashes, R.PrefixKey(cache.keyPrefix, R.MarkerKey(key))), deleted, answered);
      Complete(key, field, reading.startTimeMs, Data(text), expireTimeSeconds, None, u, answered, fault);
    }
  }

  lemma StillThere<V>(h: Option<RedisStore.Hash<V>>, now: int, later: int)
    requires now <= later
    ensures RedisStore.Live(h, later).Some? ==> RedisStore.Live(h, now) == RedisStore.Live(h, later)
  {
  }

  lemma GoneStaysGone<V>(h: Option<RedisStore.Hash<V>>, now: int, later: int)
    requires now <= later && RedisStore.Live(h, now).None?
    ensures RedisStore.Live(h, later).None?
  {
  }
}
