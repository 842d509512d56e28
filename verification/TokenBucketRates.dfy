/**
 * The limiter when rates change during a run. set_rate does not refill the bucket first, so a new rate counts
 * from the last refill on; still no run lets a key exceed what the largest rate and burst it ever had allow.
 */
module TokenBucketRates {
  import opened TokenBucket

  /** Every rate and burst that the key gets is at most these. */
  predicate AtMost(cfg: Config, es: seq<Event>, key: Key, rate: real, burst: real) {
    && cfg.rate <= rate && cfg.burst <= burst
    && forall e | e in es && e.op.SetRate? && e.op.key == key :: e.op.rate <= rate && e.op.burst <= burst
  }

  ghost predicate Below(m: Buckets, key: Key, t: real, rate: real, burst: real) {
    key in m ==> m[key].rate <= rate && m[key].burst <= burst && m[key].last <= t && m[key].tokens <= burst
  }

  function Positive(x: real): real {
    if x < 0.0 then 0.0 else x
  }

  /** What the key could have at time t if it had the larger rate all along. */
  function Credit(m: Buckets, key: Key, t: real, rate: real, burst: real): real {
    if key in m then Min(burst, Positive(m[key].tokens) + Gain(t - m[key].last, rate)) else burst
  }

  /** Cleanup is absent, or a bucket with the larger rate is full before it can be erased. */
  predicate Harmless(cfg: Config, es: seq<Event>, rate: real, burst: real) {
    NoCleanup(es) || Gain(Idle(cfg), rate) >= burst
  }

  lemma GainMore(dt: real, rate: real, more: real)
    requires 0.0 <= dt && rate <= more
    ensures Gain(dt, rate) <= Gain(dt, more)
  {
    assert dt * (more - rate) >= 0.0;
  }

  lemma {:induction false} CreditLater(m: Buckets, key: Key, t: real, later: real, rate: real, burst: real)
    requires Below(m, key, t, rate, burst) && t <= later && rate >= 0.0 && burst >= 1.0
    ensures Below(m, key, later, rate, burst)
    ensures 0.0 <= Credit(m, key, t, rate, burst) <= burst
    ensures Credit(m, key, later, rate, burst) <= Credit(m, key, t, rate, burst) + Gain(later - t, rate)
  {
    hide Gain;
    Gains(rate, later - t);
    if key in m {
      Gains(rate, t - m[key].last);
      GainsAdd(rate, t - m[key].last, later - t);
      assert (t - m[key].last) + (later - t) == later - m[key].last;
    }
  }

  /** A request spends at least one token of the credit when it is allowed. */
  lemma {:induction false} AllowSpends(cfg: Config, m: Buckets, key: Key, now: real, rate: real, burst: real)
    requires Below(m, key, now, rate, burst) && rate >= 0.0 && burst >= 1.0 && cfg.rate <= rate && cfg.burst <= burst
    ensures var m' := AfterAllow(cfg, m, key, now);
            && Below(m', key, now, rate, burst)
            && Credit(m', key, now, rate, burst) + (if Allows(m, key, now) then 1.0 else 0.0) <= Credit(m, key, now, rate, burst)
  {
    hide Gain, Refilled;
    NoGain(rate);
    assert now - now == 0.0;
    if key in m {
      RefilledLevel(m[key], now);
      GainMore(now - m[key].last, m[key].rate, rate);
      Gains(rate, now - m[key].last);
    }
  }

  lemma {:induction false} CleanupKeeps(cfg: Config, m: Buckets, key: Key, now: real, rate: real, burst: real)
    requires Below(m, key, now, rate, burst) && rate >= 0.0 && burst >= 1.0 && Gain(Idle(cfg), rate) >= burst
    ensures var m' := AfterCleanup(cfg, m, now);
            Below(m', key, now, rate, burst) && Credit(m', key, now, rate, burst) == Credit(m, key, now, rate, burst)
  {
    hide Gain;
    if key in m && Expired(cfg, m[key], now) {
      Grows(rate, Idle(cfg), now - m[key].last);
    }
  }

  /** A change of rate gives no credit, and no more does any other event of another kind. */
  lemma {:induction false} OtherKeeps(cfg: Config, m: Buckets, e: Event, key: Key, rate: real, burst: real)
    requires Below(m, key, e.at, rate, burst) && rate >= 0.0 && burst >= 1.0 && e.op != Allow(key)
    requires e.op.SetRate? && e.op.key == key ==> e.op.rate <= rate && e.op.burst <= burst
    requires e.op.Cleanup? ==> Gain(Idle(cfg), rate) >= burst
    ensures var m' := Next(cfg, m, e);
            Below(m', key, e.at, rate, burst) && Credit(m', key, e.at, rate, burst) == Credit(m, key, e.at, rate, burst)
  {
    hide Gain, Refilled;
    if e.op.Cleanup? {
      CleanupKeeps(cfg, m, key, e.at, rate, burst);
    }
  }

  lemma Tail(cfg: Config, es: seq<Event>, key: Key, rate: real, burst: real)
    requires es != [] && AtMost(cfg, es, key, rate, burst) && Harmless(cfg, es, rate, burst)
    ensures AtMost(cfg, es[1..], key, rate, burst) && Harmless(cfg, es[1..], rate, burst)
    ensures var op := es[0].op;
            && (op.SetRate? && op.key == key ==> op.rate <= rate && op.burst <= burst)
            && (op.Cleanup? ==> Gain(Idle(cfg), rate) >= burst)
  {
    assert es[0] in es && forall e | e in es[1..] :: e in es;
  }

  lemma {:induction false} Spent(cfg: Config, m: Buckets, es: seq<Event>, key: Key, from: real, to: real, rate: real, burst: real)
    requires rate >= 0.0 && burst >= 1.0 && Below(m, key, from, rate, burst)
    requires Between(es, from, to) && AtMost(cfg, es, key, rate, burst) && Harmless(cfg, es, rate, burst)
    ensures Count(Results(cfg, m, es, key)) as real <= Credit(m, key, from, rate, burst) + Gain(to - from, rate)
    decreases |es|
  {
    hide Below, Credit, Next, Allows, Gain, AtMost, Harmless, Between, Results;
    if es == [] {
      NothingAsked(cfg, m, key, from, to);
      CreditLater(m, key, from, to, rate, burst);
      Gains(rate, to - from);
    } else {
      var e := es[0];
      FirstEvent(es, from, to);
      CreditLater(m, key, from, e.at, rate, burst);
      GainsAdd(rate, e.at - from, to - e.at);
      assert (e.at - from) + (to - e.at) == to - from;
      Tail(cfg, es, key, rate, burst);
      ResultsHead(cfg, m, es, key);
      if e.op == Allow(key) {
        Defaults(cfg, es, key, rate, burst);
        AllowSpends(cfg, m, key, e.at, rate, burst);
        NextAllow(cfg, m, key, e.at);
      } else {
        OtherKeeps(cfg, m, e, key, rate, burst);
      }
      Spent(cfg, Next(cfg, m, e), es[1..], key, e.at, to, rate, burst);
    }
  }

  lemma NothingAsked(cfg: Config, m: Buckets, key: Key, from: real, to: real)
    ensures Count(Results(cfg, m, [], key)) == 0 && (Between([], from, to) ==> from <= to)
  {
  }

  lemma FirstEvent(es: seq<Event>, from: real, to: real)
    requires es != [] && Between(es, from, to)
    ensures from <= es[0].at <= to && Between(es[1..], es[0].at, to)
  {
    assert es[0] in es && forall e | e in es[1..] :: e in es;
  }

  lemma ResultsHead(cfg: Config, m: Buckets, es: seq<Event>, key: Key)
    requires es != []
    ensures Count(Results(cfg, m, es, key))
         == (if es[0].op == Allow(key) && Allows(m, key, es[0].at) then 1 else 0)
            + Count(Results(cfg, Next(cfg, m, es[0]), es[1..], key))
  {
    hide Allows, Next;
    var rest := Results(cfg, Next(cfg, m, es[0]), es[1..], key);
    CountHead(Allows(m, key, es[0].at), rest);
    assert [] + rest == rest;
  }

  lemma Defaults(cfg: Config, es: seq<Event>, key: Key, rate: real, burst: real)
    requires AtMost(cfg, es, key, rate, burst)
    ensures cfg.rate <= rate && cfg.burst <= burst
  {
  }

  lemma {:induction false} RunBelow(cfg: Config, m: Buckets, es: seq<Event>, key: Key, t: real, rate: real, burst: real)
    requires rate >= 0.0 && burst >= 1.0 && Below(m, key, t, rate, burst) && Ordered(es, t) && AtMost(cfg, es, key, rate, burst)
    ensures Below(Run(cfg, m, es), key, EndTime(es, t), rate, burst) && t <= EndTime(es, t)
    decreases |es|
  {
    hide Allows, Gain, Refilled;
    if es != [] {
      var e := es[0];
      CreditLater(m, key, t, e.at, rate, burst);
      assert e in es && forall x | x in es[1..] :: x in es;
      if e.op == Allow(key) {
        AllowSpends(cfg, m, key, e.at, rate, burst);
      }
      RunBelow(cfg, Next(cfg, m, e), es[1..], key, e.at, rate, burst);
    }
  }

  /**
   * In every run from an empty limiter, with any changes of rate in it, the requests allowed to a key in any later
   * interval are at most burst + rate * length, for any rate and burst that the key's own never exceed.
   */
  lemma {:induction false} RateBoundAnyRates(cfg: Config, before: seq<Event>, es: seq<Event>, key: Key,
                                             start: real, from: real, to: real, rate: real, burst: real)
    requires Ordered(before, start) && EndTime(before, start) <= from && Between(es, from, to)
    requires rate >= 0.0 && burst >= 1.0 && AtMost(cfg, before + es, key, rate, burst) && Harmless(cfg, es, rate, burst)
    ensures Count(Results(cfg, Run(cfg, map[], before), es, key)) as real <= burst + (to - from) * rate
  {
    hide Results, Run, Harmless, Credit, Between;
    assert forall e | e in before || e in es :: e in before + es;
    RunBelow(cfg, map[], before, key, start, rate, burst);
    var m := Run(cfg, map[], before);
    CreditLater(m, key, EndTime(before, start), from, rate, burst);
    CreditLater(m, key, from, from, rate, burst);
    Spent(cfg, m, es, key, from, to, rate, burst);
  }

  /** A new rate and burst count from the last refill on, and only for a key that has a bucket. */
  lemma {:induction false} SetRateLevel(cfg: Config, m: Buckets, key: Key, rate: real, burst: real, at: real, later: real)
    ensures var m' := Next(cfg, m, Event(SetRate(key, rate, burst), at));
            && m'.Keys == m.Keys && (forall k | k in m && k != key :: m'[k] == m[k])
            && (key !in m ==> Level(cfg, m', key, later) == cfg.burst)
            && (key in m ==> m'[key].tokens == m[key].tokens && m'[key].last == m[key].last
                             && Level(cfg, m', key, later) == Min(burst, m[key].tokens + (later - m[key].last) * rate))
  {
    if key in m {
      RefilledLevel(m[key].(rate := rate, burst := burst), later);
    }
  }
}
