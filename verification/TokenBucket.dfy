/**
 * The token bucket limiter of src/anti_bot.cpp as a state machine over timed events. Doubles are real numbers
 * and the clock is an input that never goes back.
 */
module TokenBucket {

  type Key = string

  datatype Config = Config(rate: real, burst: real, window: int)

  datatype Bucket = Bucket(tokens: real, rate: real, burst: real, last: real)

  type Buckets = map<Key, Bucket>

  datatype Op =
    | Allow(key: Key)
    | SetRate(key: Key, rate: real, burst: real)
    | Cleanup

  datatype Event = Event(op: Op, at: real)

  // ----- Operations -----

  function Refilled(b: Bucket, now: real): Bucket {
    var tokens := b.tokens + (now - b.last) * b.rate;
    b.(tokens := if tokens < b.burst then tokens else b.burst, last := now)
  }

  function New(cfg: Config, now: real): Bucket {
    Bucket(cfg.burst - 1.0, cfg.rate, cfg.burst, now)
  }

  function Taken(b: Bucket): Bucket {
    if b.tokens >= 1.0 then b.(tokens := b.tokens - 1.0) else b
  }

  predicate Allows(m: Buckets, key: Key, now: real) {
    key !in m || Refilled(m[key], now).tokens >= 1.0
  }

  function AfterAllow(cfg: Config, m: Buckets, key: Key, now: real): Buckets {
    m[key := if key in m then Taken(Refilled(m[key], now)) else New(cfg, now)]
  }

  function AfterSetRate(m: Buckets, key: Key, rate: real, burst: real): Buckets {
    if key in m then m[key := m[key].(rate := rate, burst := burst)] else m
  }

  /** Idle for more whole seconds than the window. */
  predicate Expired(cfg: Config, b: Bucket, now: real) {
    (now - b.last).Floor > cfg.window
  }

  function AfterCleanup(cfg: Config, m: Buckets, now: real): Buckets {
    map k | k in m && !Expired(cfg, m[k], now) :: m[k]
  }

  function Next(cfg: Config, m: Buckets, e: Event): Buckets {
    match e.op
    case Allow(key) => AfterAllow(cfg, m, key, e.at)
    case SetRate(key, rate, burst) => AfterSetRate(m, key, rate, burst)
    case Cleanup => AfterCleanup(cfg, m, e.at)
  }

  /** The answers that one key got, in order. */
  function Results(cfg: Config, m: Buckets, es: seq<Event>, key: Key): seq<bool>
    decreases |es|
  {
    if es == [] then []
    else (if es[0].op == Allow(key) then [Allows(m, key, es[0].at)] else [])
         + Results(cfg, Next(cfg, m, es[0]), es[1..], key)
  }

  /** The times at which one key asked. */
  function Asks(es: seq<Event>, key: Key): seq<real> {
    if es == [] then []
    else (if es[0].op == Allow(key) then [es[0].at] else []) + Asks(es[1..], key)
  }

  function Count(rs: seq<bool>): nat {
    if rs == [] then 0 else (if rs[0] then 1 else 0) + Count(rs[1..])
  }

  predicate Ordered(es: seq<Event>, t: real)
    decreases |es|
  {
    es == [] || (t <= es[0].at && Ordered(es[1..], es[0].at))
  }

  predicate NoSetRate(es: seq<Event>, key: Key) {
    forall e | e in es :: !(e.op.SetRate? && e.op.key == key)
  }

  predicate NoCleanup(es: seq<Event>) {
    forall e | e in es :: !e.op.Cleanup?
  }

  // ----- The ideal bucket of one key: a level that refills and is capped -----

  /** Tokens that accrue over a time. */
  function Gain(dt: real, rate: real): real {
    dt * rate
  }

  function Min(a: real, b: real): real {
    if a <= b then a else b
  }

  function Refill(cfg: Config, level: real, dt: real): real {
    Min(cfg.burst, level + Gain(dt, cfg.rate))
  }

  function Ideal(cfg: Config, level: real, t: real, asks: seq<real>): seq<bool>
    decreases |asks|
  {
    if asks == [] then []
    else
      var now := Refill(cfg, level, asks[0] - t);
      [now >= 1.0] + Ideal(cfg, if now >= 1.0 then now - 1.0 else now, asks[0], asks[1..])
  }

  /** Tokens available to a key: what `remaining` reports. */
  function Level(cfg: Config, m: Buckets, key: Key, t: real): real {
    if key in m then Refilled(m[key], t).tokens else cfg.burst
  }

  predicate Sane(cfg: Config) {
    cfg.rate >= 0.0 && cfg.burst >= 1.0
  }

  /** The key has its default rate, a nonnegative level and a past refill time. */
  ghost predicate Good(cfg: Config, m: Buckets, key: Key, t: real) {
    key in m ==> m[key].rate == cfg.rate && m[key].burst == cfg.burst && m[key].last <= t
                 && 0.0 <= m[key].tokens <= cfg.burst
  }

  /** Seconds of idleness after which cleanup erases a bucket. */
  function Idle(cfg: Config): real {
    if cfg.window + 1 <= 0 then 0.0 else (cfg.window + 1) as real
  }

  /** A bucket that cleanup may erase is full again by then. */
  predicate RefillsFirst(cfg: Config) {
    Gain(Idle(cfg), cfg.rate) >= cfg.burst
  }

  lemma Grows(rate: real, a: real, b: real)
    requires rate >= 0.0 && a <= b
    ensures Gain(a, rate) <= Gain(b, rate)
  {
    assert (b - a) * rate >= 0.0;
  }

  lemma Gains(rate: real, dt: real)
    requires rate >= 0.0 && dt >= 0.0
    ensures Gain(dt, rate) >= 0.0
  {
  }

  lemma NoGain(rate: real)
    ensures Gain(0.0, rate) == 0.0
  {
  }

  lemma GainsAdd(rate: real, a: real, b: real)
    ensures Gain(a + b, rate) == Gain(a, rate) + Gain(b, rate)
  {
  }

  lemma RefilledLevel(b: Bucket, now: real)
    ensures Refilled(b, now) == b.(tokens := Min(b.burst, b.tokens + Gain(now - b.last, b.rate)), last := now)
  {
  }

  /** Refilling in two steps is refilling once. */
  lemma {:induction false} RefillTwice(cfg: Config, level: real, a: real, b: real)
    requires Sane(cfg) && 0.0 <= a && 0.0 <= b && level <= cfg.burst
    ensures Refill(cfg, Refill(cfg, level, a), b) == Refill(cfg, level, a + b)
  {
    hide Gain;
    GainsAdd(cfg.rate, a, b);
    Gains(cfg.rate, a);
    Gains(cfg.rate, b);
  }

  lemma {:induction false} LevelLater(cfg: Config, m: Buckets, key: Key, t: real, later: real)
    requires Sane(cfg) && Good(cfg, m, key, t) && t <= later
    ensures Level(cfg, m, key, later) == Refill(cfg, Level(cfg, m, key, t), later - t)
    ensures 0.0 <= Level(cfg, m, key, later)
  {
    hide Gain, Refilled;
    Gains(cfg.rate, later - t);
    if key in m {
      RefilledLevel(m[key], t);
      RefilledLevel(m[key], later);
      var since := t - m[key].last;
      RefillTwice(cfg, m[key].tokens, since, later - t);
      assert since + (later - t) == later - m[key].last;
      Gains(cfg.rate, later - m[key].last);
    }
  }

  /** The refill of a stored bucket at its own refill time changes nothing. */
  lemma LevelAtRefill(cfg: Config, m: Buckets, key: Key)
    requires key in m && m[key].tokens <= m[key].burst
    ensures Level(cfg, m, key, m[key].last) == m[key].tokens
  {
    hide Gain, Refilled;
    RefilledLevel(m[key], m[key].last);
    assert m[key].last - m[key].last == 0.0;
    NoGain(m[key].rate);
  }

  /** allow answers yes exactly when a token is there, and then takes one. */
  lemma {:induction false} AllowLevel(cfg: Config, m: Buckets, key: Key, now: real)
    requires Sane(cfg) && Good(cfg, m, key, now)
    ensures var m' := AfterAllow(cfg, m, key, now);
            var level := Level(cfg, m, key, now);
            && Allows(m, key, now) == (level >= 1.0)
            && Good(cfg, m', key, now)
            && Level(cfg, m', key, now) == if level >= 1.0 then level - 1.0 else level
  {
    hide Gain, Refilled;
    LevelLater(cfg, m, key, now, now);
    if key in m {
      RefilledLevel(m[key], now);
    }
    LevelAtRefill(cfg, AfterAllow(cfg, m, key, now), key);
  }

  /** Erasing an expired bucket leaves its level as it was, if it refills first. */
  lemma {:induction false} CleanupLevel(cfg: Config, m: Buckets, key: Key, now: real)
    requires Sane(cfg) && Good(cfg, m, key, now) && RefillsFirst(cfg)
    ensures Good(cfg, AfterCleanup(cfg, m, now), key, now)
    ensures Level(cfg, AfterCleanup(cfg, m, now), key, now) == Level(cfg, m, key, now)
  {
    hide Gain, Refilled;
    if key in m && Expired(cfg, m[key], now) {
      RefilledLevel(m[key], now);
      Grows(cfg.rate, Idle(cfg), now - m[key].last);
    }
  }

  /** What an event of any kind does to a key that is never given another rate. */
  lemma {:induction false} OtherEvent(cfg: Config, m: Buckets, e: Event, key: Key)
    requires Sane(cfg) && Good(cfg, m, key, e.at) && e.op != Allow(key)
    requires !(e.op.SetRate? && e.op.key == key) && (e.op.Cleanup? ==> RefillsFirst(cfg))
    ensures Good(cfg, Next(cfg, m, e), key, e.at)
    ensures Level(cfg, Next(cfg, m, e), key, e.at) == Level(cfg, m, key, e.at)
  {
    hide Refilled;
    if e.op.Cleanup? {
      CleanupLevel(cfg, m, key, e.at);
    }
  }

  predicate Quiet(cfg: Config, es: seq<Event>, key: Key) {
    NoSetRate(es, key) && (RefillsFirst(cfg) || NoCleanup(es))
  }

  lemma QuietTail(cfg: Config, es: seq<Event>, key: Key)
    requires es != [] && Quiet(cfg, es, key)
    ensures Quiet(cfg, es[1..], key) && es[0] in es
  {
    assert forall e | e in es[1..] :: e in es;
  }

  lemma GoodLater(cfg: Config, m: Buckets, key: Key, t: real, later: real)
    requires Good(cfg, m, key, t) && t <= later
    ensures Good(cfg, m, key, later)
  {
  }

  lemma {:induction false} IdealLater(cfg: Config, level: real, t: real, now: real, asks: seq<real>)
    requires Sane(cfg) && t <= now && level <= cfg.burst && (asks != [] ==> now <= asks[0])
    ensures Ideal(cfg, level, t, asks) == Ideal(cfg, Refill(cfg, level, now - t), now, asks)
  {
    if asks != [] {
      RefillTwice(cfg, level, now - t, asks[0] - now);
      assert (now - t) + (asks[0] - now) == asks[0] - t;
    }
  }

  lemma {:induction false} FirstAsk(es: seq<Event>, key: Key, t: real)
    requires Ordered(es, t)
    ensures Asks(es, key) != [] ==> t <= Asks(es, key)[0]
    decreases |es|
  {
    if es != [] {
      FirstAsk(es[1..], key, es[0].at);
    }
  }

  lemma LevelCapped(cfg: Config, m: Buckets, key: Key, t: real)
    requires Good(cfg, m, key, t)
    ensures Level(cfg, m, key, t) <= cfg.burst
  {
  }

  /** The limiter answers every key as its ideal bucket does, whatever happens to other keys in between. */
  lemma {:induction false} RefinesIdeal(cfg: Config, m: Buckets, es: seq<Event>, key: Key, t: real)
    requires Sane(cfg) && Good(cfg, m, key, t) && Ordered(es, t) && Quiet(cfg, es, key)
    ensures Results(cfg, m, es, key) == Ideal(cfg, Level(cfg, m, key, t), t, Asks(es, key))
    decreases |es|
  {
    hide Good, Level, Allows, Next, Quiet, Sane, Refill;
    if es != [] {
      var e := es[0];
      var level := Level(cfg, m, key, t);
      LevelLater(cfg, m, key, t, e.at);
      LevelCapped(cfg, m, key, t);
      GoodLater(cfg, m, key, t, e.at);
      QuietTail(cfg, es, key);
      if e.op == Allow(key) {
        AllowLevel(cfg, m, key, e.at);
        NextAllow(cfg, m, key, e.at);
        RefinesIdeal(cfg, Next(cfg, m, e), es[1..], key, e.at);
        assert Asks(es, key) == [e.at] + Asks(es[1..], key);
      } else {
        QuietHead(cfg, es, key);
        OtherEvent(cfg, m, e, key);
        RefinesIdeal(cfg, Next(cfg, m, e), es[1..], key, e.at);
        assert Asks(es, key) == Asks(es[1..], key);
        FirstAsk(es[1..], key, e.at);
        IdealLater(cfg, level, t, e.at, Asks(es, key));
      }
    }
  }

  lemma NextAllow(cfg: Config, m: Buckets, key: Key, now: real)
    ensures Next(cfg, m, Event(Allow(key), now)) == AfterAllow(cfg, m, key, now)
  {
  }

  lemma QuietHead(cfg: Config, es: seq<Event>, key: Key)
    requires es != [] && Quiet(cfg, es, key)
    ensures !(es[0].op.SetRate? && es[0].op.key == key) && (es[0].op.Cleanup? ==> RefillsFirst(cfg))
  {
  }

  // ----- The rate bound -----

  function Bound(cfg: Config, length: real): real {
    cfg.burst + Gain(length, cfg.rate)
  }

  predicate Within(asks: seq<real>, from: real, to: real)
    decreases |asks|
  {
    from <= to && (asks == [] || (from <= asks[0] && Within(asks[1..], asks[0], to)))
  }

  lemma {:induction false} IdealBound(cfg: Config, level: real, asks: seq<real>, from: real, to: real)
    requires Sane(cfg) && 0.0 <= level <= cfg.burst && Within(asks, from, to)
    ensures Count(Ideal(cfg, level, from, asks)) as real <= level + Gain(to - from, cfg.rate)
    decreases |asks|
  {
    hide Gain;
    if asks == [] {
      Gains(cfg.rate, to - from);
    } else {
      Gains(cfg.rate, asks[0] - from);
      GainsAdd(cfg.rate, asks[0] - from, to - asks[0]);
      assert (asks[0] - from) + (to - asks[0]) == to - from;
      var now := Refill(cfg, level, asks[0] - from);
      var left := if now >= 1.0 then now - 1.0 else now;
      IdealBound(cfg, left, asks[1..], asks[0], to);
      CountHead(now >= 1.0, Ideal(cfg, left, asks[0], asks[1..]));
    }
  }

  lemma CountHead(b: bool, rest: seq<bool>)
    ensures Count([b] + rest) == (if b then 1 else 0) + Count(rest)
  {
    assert ([b] + rest)[1..] == rest;
  }

  predicate Between(es: seq<Event>, from: real, to: real) {
    Ordered(es, from) && from <= to && forall e | e in es :: e.at <= to
  }

  lemma {:induction false} AsksWithin(es: seq<Event>, key: Key, from: real, to: real)
    requires Between(es, from, to)
    ensures Within(Asks(es, key), from, to)
    decreases |es|
  {
    if es != [] {
      assert es[0] in es && forall e | e in es[1..] :: e in es;
      AsksWithin(es[1..], key, es[0].at, to);
      if es[0].op != Allow(key) {
        assert Asks(es, key) == Asks(es[1..], key);
        Earlier(Asks(es[1..], key), from, es[0].at, to);
      } else {
        assert ([es[0].at] + Asks(es[1..], key))[1..] == Asks(es[1..], key);
      }
    }
  }

  lemma {:induction false} Earlier(asks: seq<real>, from: real, mid: real, to: real)
    requires from <= mid && Within(asks, mid, to)
    ensures Within(asks, from, to)
  {
  }

  /**
   * From any state a run can reach, the requests allowed to one key in an interval are at most
   * burst + rate * length; events of other keys and a harmless cleanup do not matter.
   */
  lemma {:induction false} RateBound(cfg: Config, m: Buckets, es: seq<Event>, key: Key, from: real, to: real)
    requires Sane(cfg) && Good(cfg, m, key, from) && Between(es, from, to) && Quiet(cfg, es, key)
    ensures Count(Results(cfg, m, es, key)) as real <= Bound(cfg, to - from)
  {
    hide Good, Level, Quiet, Results, Ideal, Asks, Gain;
    RefinesIdeal(cfg, m, es, key, from);
    AsksWithin(es, key, from, to);
    LevelCapped(cfg, m, key, from);
    LevelLater(cfg, m, key, from, from);
    IdealBound(cfg, Level(cfg, m, key, from), Asks(es, key), from, to);
  }

  function Run(cfg: Config, m: Buckets, es: seq<Event>): Buckets
    decreases |es|
  {
    if es == [] then m else Run(cfg, Next(cfg, m, es[0]), es[1..])
  }

  function EndTime(es: seq<Event>, t: real): real {
    if es == [] then t else es[|es| - 1].at
  }

  lemma {:induction false} RunGood(cfg: Config, m: Buckets, es: seq<Event>, key: Key, t: real)
    requires Sane(cfg) && Good(cfg, m, key, t) && Ordered(es, t) && NoSetRate(es, key)
    ensures Good(cfg, Run(cfg, m, es), key, EndTime(es, t)) && t <= EndTime(es, t)
    decreases |es|
  {
    if es != [] {
      var e := es[0];
      GoodLater(cfg, m, key, t, e.at);
      assert e in es && forall x | x in es[1..] :: x in es;
      if e.op == Allow(key) {
        AllowLevel(cfg, m, key, e.at);
      }
      RunGood(cfg, Next(cfg, m, e), es[1..], key, e.at);
    }
  }

  /** In every run from an empty limiter, over every later interval. */
  lemma {:induction false} RateBoundInRuns(cfg: Config, before: seq<Event>, es: seq<Event>, key: Key, start: real, from: real, to: real)
    requires Sane(cfg) && Ordered(before, start) && EndTime(before, start) <= from && Between(es, from, to)
    requires NoSetRate(before, key) && Quiet(cfg, es, key)
    ensures Count(Results(cfg, Run(cfg, map[], before), es, key)) as real <= Bound(cfg, to - from)
  {
    hide Results, Run, Quiet;
    RunGood(cfg, map[], before, key, start);
    GoodLater(cfg, Run(cfg, map[], before), key, EndTime(before, start), from);
    RateBound(cfg, Run(cfg, map[], before), es, key, from, to);
  }

  /** One request to an empty limiter is always allowed, so the bound needs a burst of one and no negative rate. */
  lemma {:induction false} BoundNeedsSane(cfg: Config, key: Key, to: real)
    requires 0.0 <= to
    ensures var es := [Event(Allow(key), 0.0)];
            && Between(es, 0.0, to) && Quiet(cfg, es, key)
            && Count(Results(cfg, map[], es, key)) == 1
    ensures !Sane(cfg) ==> exists t :: 0.0 <= t && Bound(cfg, t) < 1.0
  {
    var e := Event(Allow(key), 0.0);
    assert [e][1..] == [];
    assert Results(cfg, Next(cfg, map[], e), [], key) == [];
    assert Count([true]) == 1 + Count([]);
    if cfg.rate < 0.0 {
      var t := if cfg.burst < 1.0 then 0.0 else cfg.burst / -cfg.rate;
      assert t * cfg.rate == (if cfg.burst < 1.0 then 0.0 else -cfg.burst);
      assert 0.0 <= t && Bound(cfg, t) < 1.0;
    } else if cfg.burst < 1.0 {
      assert Bound(cfg, 0.0) < 1.0;
    }
  }

  /** Without cleanup the bound holds in every run from empty exactly for a burst of at least one and a rate not negative. */
  lemma {:induction false} RateBoundIff(cfg: Config, key: Key)
    ensures Sane(cfg) <==>
            forall es, to | Between(es, 0.0, to) && NoSetRate(es, key) && NoCleanup(es) ::
              Count(Results(cfg, map[], es, key)) as real <= Bound(cfg, to - 0.0)
  {
    hide Results, Bound, Between;
    if Sane(cfg) {
      forall es, to | Between(es, 0.0, to) && NoSetRate(es, key) && NoCleanup(es)
        ensures Count(Results(cfg, map[], es, key)) as real <= Bound(cfg, to - 0.0)
      {
        RateBound(cfg, map[], es, key, 0.0, to);
      }
    } else {
      BoundNeedsSane(cfg, key, 0.0);
      var t :| 0.0 <= t && Bound(cfg, t) < 1.0;
      BoundNeedsSane(cfg, key, t);
      assert t - 0.0 == t;
    }
  }

  // ----- Cleanup -----

  function WithoutCleanup(es: seq<Event>): seq<Event> {
    if es == [] then []
    else (if es[0].op.Cleanup? then [] else [es[0]]) + WithoutCleanup(es[1..])
  }

  lemma {:induction false} StripFacts(es: seq<Event>, key: Key, t: real)
    requires Ordered(es, t) && NoSetRate(es, key)
    ensures Ordered(WithoutCleanup(es), t) && NoSetRate(WithoutCleanup(es), key) && NoCleanup(WithoutCleanup(es))
    ensures Asks(WithoutCleanup(es), key) == Asks(es, key)
    decreases |es|
  {
    if es != [] {
      assert forall e | e in es[1..] :: e in es;
      StripFacts(es[1..], key, es[0].at);
      var rest := WithoutCleanup(es[1..]);
      if !es[0].op.Cleanup? {
        assert ([es[0]] + rest)[1..] == rest && es[0] in es;
      } else {
        assert WithoutCleanup(es) == rest && Asks(es, key) == Asks(es[1..], key);
        OrderedEarlier(rest, t, es[0].at);
      }
    }
  }

  lemma OrderedEarlier(es: seq<Event>, t: real, later: real)
    requires t <= later && Ordered(es, later)
    ensures Ordered(es, t)
  {
  }

  /** Cleanup, wherever it happens, changes no answer when idle buckets refill before they can be erased. */
  lemma {:induction false} CleanupTransparent(cfg: Config, m: Buckets, es: seq<Event>, key: Key, t: real)
    requires Sane(cfg) && Good(cfg, m, key, t) && Ordered(es, t) && NoSetRate(es, key)
    requires RefillsFirst(cfg)
    ensures Results(cfg, m, es, key) == Results(cfg, m, WithoutCleanup(es), key)
  {
    hide Good, Results, Ideal, Asks, Level, NoSetRate, NoCleanup;
    StripFacts(es, key, t);
    RefinesIdeal(cfg, m, es, key, t);
    RefinesIdeal(cfg, m, WithoutCleanup(es), key, t);
  }
}
