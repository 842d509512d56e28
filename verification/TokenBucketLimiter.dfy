/** The limiter object, refining the steps of module TokenBucket. */
module TokenBucketLimiter {
  import opened TokenBucket

  class Limiter {
    const cfg: Config
    var buckets: Buckets
    var totalAllowed: nat
    var totalRejected: nat

    constructor (cfg: Config)
      ensures this.cfg == cfg && buckets == map[] && totalAllowed == 0 && totalRejected == 0
    {
      this.cfg := cfg;
      buckets := map[];
      totalAllowed, totalRejected := 0, 0;
    }

    method Allow(key: Key, now: real) returns (ok: bool)
      modifies this
      ensures ok == Allows(old(buckets), key, now)
      ensures buckets == AfterAllow(cfg, old(buckets), key, now)
      ensures totalAllowed + totalRejected == old(totalAllowed + totalRejected) + 1
      ensures totalAllowed == old(totalAllowed) + (if ok then 1 else 0)
    {
      hide Refilled;
      if key !in buckets {
        buckets := buckets[key := New(cfg, now)];
        totalAllowed := totalAllowed + 1;
        return true;
      }
      var bucket := Refilled(buckets[key], now);
      buckets := buckets[key := bucket];
      if bucket.tokens >= 1.0 {
        buckets := buckets[key := bucket.(tokens := bucket.tokens - 1.0)];
        totalAllowed := totalAllowed + 1;
        return true;
      }
      totalRejected := totalRejected + 1;
      return false;
    }

    /** Answers what Allow would answer at the same instant, and changes nothing. */
    method Check(key: Key, now: real) returns (ok: bool)
      ensures ok == Allows(buckets, key, now)
    {
      if key !in buckets {
        return true;
      }
      var bucket := Refilled(buckets[key], now);
      return bucket.tokens >= 1.0;
    }

    method Remaining(key: Key, now: real) returns (tokens: real)
      ensures tokens == Level(cfg, buckets, key, now)
    {
      if key !in buckets {
        return cfg.burst;
      }
      var bucket := Refilled(buckets[key], now);
      return bucket.tokens;
    }

    method SetRate(key: Key, rate: real, burst: real)
      modifies this
      ensures buckets == AfterSetRate(old(buckets), key, rate, burst)
      ensures totalAllowed == old(totalAllowed) && totalRejected == old(totalRejected)
    {
      if key in buckets {
        buckets := buckets[key := buckets[key].(rate := rate, burst := burst)];
      }
    }

    /** Erases while walking the map; every bucket is visited once, in any order. */
    method Cleanup(now: real)
      modifies this
      ensures buckets == AfterCleanup(cfg, old(buckets), now)
      ensures totalAllowed == old(totalAllowed) && totalRejected == old(totalRejected)
    {
      hide Expired;
      var todo := buckets.Keys;
      while todo != {}
        invariant todo <= buckets.Keys <= old(buckets).Keys
        invariant totalAllowed == old(totalAllowed) && totalRejected == old(totalRejected)
        invariant forall k | k in buckets :: buckets[k] == old(buckets)[k]
        invariant forall k | k in old(buckets) && k !in todo :: k in buckets <==> !Expired(cfg, old(buckets)[k], now)
        decreases |todo|
      {
        var k :| k in todo;
        if Expired(cfg, buckets[k], now) {
          buckets := buckets - {k};
        }
        todo := todo - {k};
      }
    }
  }
}
