/** internal/auth/ratelimit.go: the limiter as an object, proved against module RateLimit. */
module RateLimiters {
  import RateLimit
  import opened Wrappers
  import Sets

  /** The limiter with its mutable map. The lock makes every call one step. */
  class RateLimiter {
    const config: RateLimit.Config
    var hits: RateLimit.Hits

    constructor (limit: int, per: int)
      ensures config == RateLimit.Config(limit, per) && hits == map[]
    {
      config := RateLimit.Config(limit, per);
      hits := map[];
    }

    method Allow(key: string, now: RateLimit.Time) returns (ok: bool)
      modifies this
      ensures (hits, ok) == RateLimit.Allow(config, old(hits), key, now)
      ensures key in hits
      ensures if key in old(hits) && now <= old(hits)[key].start + config.per
              then
                hits[key].start == old(hits)[key].start && hits[key].count == old(hits)[key].count + 1
                && (ok <==> hits[key].count <= config.limit)
              else hits[key].start == now && hits[key].count == 1 && ok
      ensures forall k <- old(hits) :: k != key && now <= old(hits)[k].start + config.per ==>
                k in hits && hits[k] == old(hits)[k]
      ensures |old(hits)| <= 10000 ==> hits == old(hits)[key := hits[key]]
      ensures |old(hits)| > 10000 ==>
                forall k <- hits :: k != key ==> k in old(hits) && now <= old(hits)[k].start + config.per
    {
      if |hits| > RateLimit.PURGE_ABOVE {
        ghost var was := hits;
        var todo := hits.Keys;
        while todo != {}
          invariant todo <= hits.Keys <= was.Keys
          invariant forall k <- hits :: hits[k] == was[k]
          invariant forall k <- was :: k in hits <==> k in todo || !RateLimit.Lapsed(config, was[k], now)
          decreases todo
        {
          ghost var one := Sets.Member(todo);
          var k :| k in todo;
          if now - hits[k].start > config.per { hits := hits - {k}; }
          todo := todo - {k};
        }
        assert hits == RateLimit.Purged(config, was, now);
      }
      if key !in hits || now - hits[key].start > config.per {
        hits := hits[key := RateLimit.Window(now, 1)];
        return true;
      }
      hits := hits[key := RateLimit.Window(hits[key].start, hits[key].count + 1)];
      ok := hits[key].count <= config.limit;
    }

    method Reset(key: string)
      modifies this
      ensures hits == old(hits) - {key}
    {
      hits := hits - {key};
    }
  }
}
