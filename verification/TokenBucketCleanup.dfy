/**
 * When cleanup shows: if an idle bucket can be erased before it has refilled, some run gets a different answer
 * because of a cleanup. Together with TokenBucket.CleanupTransparent this makes the condition exact.
 */
module TokenBucketCleanup {
  import opened TokenBucket

  // ----- Running the ideal bucket -----

  /** Level and time after the asks. */
  function IdealEnd(cfg: Config, level: real, t: real, asks: seq<real>): (real, real)
    decreases |asks|
  {
    if asks == [] then (level, t)
    else
      var now := Refill(cfg, level, asks[0] - t);
      IdealEnd(cfg, if now >= 1.0 then now - 1.0 else now, asks[0], asks[1..])
  }

  lemma {:induction false} IdealAppend(cfg: Config, level: real, t: real, a: seq<real>, b: seq<real>)
    ensures var (l, s) := IdealEnd(cfg, level, t, a);
            Ideal(cfg, level, t, a + b) == Ideal(cfg, level, t, a) + Ideal(cfg, l, s, b)
    decreases |a|
  {
    hide Refill;
    if a == [] {
      assert a + b == b;
    } else {
      var now := Refill(cfg, level, a[0] - t);
      IdealAppend(cfg, if now >= 1.0 then now - 1.0 else now, a[0], a[1..], b);
      assert (a + b)[1..] == a[1..] + b;
    }
  }

  predicate NotBefore(asks: seq<real>, t: real)
    decreases |asks|
  {
    asks == [] || (t <= asks[0] && NotBefore(asks[1..], asks[0]))
  }

  lemma RefillNow(cfg: Config, level: real)
    requires level <= cfg.burst
    ensures Refill(cfg, level, 0.0) == level
  {
    NoGain(cfg.rate);
  }

  /** The time a bucket needs to reach one token. */
  lemma {:induction false} WaitForOne(cfg: Config, level: real) returns (dt: real)
    requires cfg.rate > 0.0 && level <= 1.0 && Sane(cfg)
    ensures dt >= 0.0 && Gain(dt, cfg.rate) == 1.0 - level
  {
    dt := (1.0 - level) / cfg.rate;
  }

  /** Two different levels are told apart by some sequence of asks. */
  lemma {:induction false} Diverge(cfg: Config, x: real, y: real, t: real) returns (asks: seq<real>)
    requires Sane(cfg) && 0.0 <= x < y <= cfg.burst && (cfg.rate > 0.0 || x < 1.0 <= y)
    ensures NotBefore(asks, t) && Ideal(cfg, x, t, asks) != Ideal(cfg, y, t, asks)
    decreases x.Floor
  {
    hide Gain, Refill;
    RefillNow(cfg, x);
    RefillNow(cfg, y);
    if x < 1.0 <= y {
      asks := [t];
      assert t - t == 0.0;
      Distinguish(cfg, x, y, t, t);
    } else if x >= 1.0 {
      var rest := Diverge(cfg, x - 1.0, y - 1.0, t);
      asks := [t] + rest;
      assert asks[1..] == rest;
      AskNow(cfg, x, t, rest);
      AskNow(cfg, y, t, rest);
      SamePrefix([true], Ideal(cfg, x - 1.0, t, rest), Ideal(cfg, y - 1.0, t, rest));
    } else {
      var dt := WaitForOne(cfg, y);
      asks := [t + dt];
      assert t + dt - t == dt;
      CapBinds(cfg, x, y, dt);
      Distinguish(cfg, x, y, t, t + dt);
    }
  }

  lemma AskNow(cfg: Config, level: real, t: real, rest: seq<real>)
    requires 1.0 <= level <= cfg.burst
    ensures Ideal(cfg, level, t, [t] + rest) == [true] + Ideal(cfg, level - 1.0, t, rest)
  {
    RefillNow(cfg, level);
    assert t - t == 0.0 && ([t] + rest)[1..] == rest;
  }

  lemma CapBinds(cfg: Config, x: real, y: real, dt: real)
    requires Sane(cfg) && x < y && Gain(dt, cfg.rate) == 1.0 - y
    ensures Refill(cfg, x, dt) < 1.0 <= Refill(cfg, y, dt)
  {
  }

  lemma Distinguish(cfg: Config, x: real, y: real, t: real, at: real)
    requires t <= at && Refill(cfg, x, at - t) < 1.0 <= Refill(cfg, y, at - t)
    ensures NotBefore([at], t) && Ideal(cfg, x, t, [at]) != Ideal(cfg, y, t, [at])
  {
    assert Ideal(cfg, x, t, [at])[0] == false && Ideal(cfg, y, t, [at])[0] == true;
  }

  lemma FloorLess(x: real)
    requires x >= 1.0
    ensures (x - 1.0).Floor == x.Floor - 1
  {
  }

  /** Asking repeatedly at one instant takes the whole tokens and leaves the fraction. */
  lemma {:induction false} DrainNow(cfg: Config, level: real, t: real) returns (asks: seq<real>)
    requires Sane(cfg) && 1.0 <= level <= cfg.burst
    ensures asks != [] && NotBefore(asks, t)
    ensures var (l, s) := IdealEnd(cfg, level, t, asks);
            l == level - level.Floor as real && s == t == asks[|asks| - 1]
    ensures Count(Ideal(cfg, level, t, asks)) == level.Floor
    decreases level.Floor
  {
    hide Refill;
    RefillNow(cfg, level);
    FloorLess(level);
    assert t - t == 0.0;
    if level - 1.0 < 1.0 {
      asks := [t];
      assert [t] + [] == [t];
      AskNow(cfg, level, t, []);
      CountHead(true, Ideal(cfg, level - 1.0, t, []));
      assert IdealEnd(cfg, level - 1.0, t, []) == (level - 1.0, t);
      assert [t][1..] == [];
    } else {
      var rest := DrainNow(cfg, level - 1.0, t);
      asks := [t] + rest;
      assert asks[1..] == rest;
      AskNow(cfg, level, t, rest);
      CountHead(true, Ideal(cfg, level - 1.0, t, rest));
    }
  }

  lemma {:induction false} EndAppend(cfg: Config, level: real, t: real, a: seq<real>, at: real)
    ensures var (l, s) := IdealEnd(cfg, level, t, a);
            IdealEnd(cfg, level, t, a + [at]) == IdealEnd(cfg, l, s, [at])
    decreases |a|
  {
    hide Refill;
    if a == [] {
      assert a + [at] == [at];
    } else {
      var now := Refill(cfg, level, a[0] - t);
      EndAppend(cfg, if now >= 1.0 then now - 1.0 else now, a[0], a[1..], at);
      assert (a + [at])[1..] == a[1..] + [at];
    }
  }

  lemma {:induction false} NotBeforeSnoc(asks: seq<real>, t: real, at: real)
    requires NotBefore(asks, t) && asks != [] && asks[|asks| - 1] <= at
    ensures NotBefore(asks + [at], t)
    decreases |asks|
  {
    var tail := asks[1..];
    assert (asks + [at])[1..] == tail + [at];
    if tail == [] {
      assert tail + [at] == [at];
    } else {
      NotBeforeSnoc(tail, asks[0], at);
    }
  }

  /** What a drain leaves behind: the fraction of the burst, or nothing if that fraction would refill in time. */
  function Left(cfg: Config): real {
    var fraction := cfg.burst - cfg.burst.Floor as real;
    if fraction + Gain(Idle(cfg), cfg.rate) < cfg.burst then fraction else 0.0
  }

  /** Tokens that an erasure gives away. */
  function Surplus(cfg: Config): real {
    cfg.burst - Left(cfg) - Gain(Idle(cfg), cfg.rate)
  }

  lemma SurplusPositive(cfg: Config)
    requires Sane(cfg) && !RefillsFirst(cfg)
    ensures 0.0 <= Left(cfg) && Surplus(cfg) > 0.0 && (cfg.rate > 0.0 || Left(cfg) < 1.0)
  {
  }

  /** A run of asks after which idling until erasure does not refill the bucket; every token gained was taken. */
  lemma {:induction false} Drain(cfg: Config, t: real) returns (asks: seq<real>)
    requires Sane(cfg) && !RefillsFirst(cfg)
    ensures asks != [] && NotBefore(asks, t)
    ensures var (l, s) := IdealEnd(cfg, cfg.burst, t, asks);
            && l == Left(cfg) && s == asks[|asks| - 1] && t <= s
            && Count(Ideal(cfg, cfg.burst, t, asks)) as real == cfg.burst - l + Gain(s - t, cfg.rate)
  {
    hide IdealEnd, Refill, Ideal;
    asks := DrainNow(cfg, cfg.burst, t);
    assert Gain(t - t, cfg.rate) == 0.0 by { NoGain(cfg.rate); }
    var l := IdealEnd(cfg, cfg.burst, t, asks).0;
    if l + Gain(Idle(cfg), cfg.rate) >= cfg.burst {
      SomeRate(cfg, l);
      hide Gain;
      var dt := WaitForOne(cfg, l);
      EndAppend(cfg, cfg.burst, t, asks, t + dt);
      IdealAppend(cfg, cfg.burst, t, asks, [t + dt]);
      NotBeforeSnoc(asks, t, t + dt);
      Emptied(cfg, l, t, dt);
      CountAppend(Ideal(cfg, cfg.burst, t, asks), [true]);
      CountHead(true, []);
      assert [true] + [] == [true];
      asks := asks + [t + dt];
      assert t + dt - t == dt;
    }
  }

  /** Without a rate the fraction that is left never refills. */
  lemma SomeRate(cfg: Config, l: real)
    requires Sane(cfg) && l < 1.0 && l + Gain(Idle(cfg), cfg.rate) >= cfg.burst
    ensures cfg.rate > 0.0
  {
  }

  lemma {:induction false} CountAppend(a: seq<bool>, b: seq<bool>)
    ensures Count(a + b) == Count(a) + Count(b)
  {
    if a == [] {
      assert a + b == b;
    } else {
      CountAppend(a[1..], b);
      assert (a + b)[1..] == a[1..] + b;
    }
  }

  lemma Emptied(cfg: Config, l: real, t: real, dt: real)
    requires Sane(cfg) && Gain(dt, cfg.rate) == 1.0 - l
    ensures IdealEnd(cfg, l, t, [t + dt]) == (0.0, t + dt) && Ideal(cfg, l, t, [t + dt]) == [true]
  {
    assert t + dt - t == dt;
    assert Refill(cfg, l, dt) == 1.0;
    assert [t + dt][1..] == [];
    assert IdealEnd(cfg, 0.0, t + dt, []) == (0.0, t + dt);
    assert Ideal(cfg, 0.0, t + dt, []) == [];
  }

  // ----- The run with and without cleanup -----

  function Events(asks: seq<real>, key: Key): seq<Event> {
    if asks == [] then [] else [Event(Allow(key), asks[0])] + Events(asks[1..], key)
  }

  lemma {:induction false} EventsFacts(asks: seq<real>, key: Key, t: real)
    requires NotBefore(asks, t)
    ensures Asks(Events(asks, key), key) == asks && Ordered(Events(asks, key), t)
    ensures NoSetRate(Events(asks, key), key) && NoCleanup(Events(asks, key)) && |Events(asks, key)| == |asks|
    ensures WithoutCleanup(Events(asks, key)) == Events(asks, key)
    decreases |asks|
  {
    if asks != [] {
      EventsFacts(asks[1..], key, asks[0]);
      var es := Events(asks, key);
      assert es[1..] == Events(asks[1..], key) && es[0] == Event(Allow(key), asks[0]);
    }
  }

  lemma {:induction false} EventsAppend(a: seq<real>, b: seq<real>, key: Key)
    ensures Events(a + b, key) == Events(a, key) + Events(b, key)
    decreases |a|
  {
    if a == [] {
      assert a + b == b;
    } else {
      EventsAppend(a[1..], b, key);
      assert (a + b)[1..] == a[1..] + b && (a + b)[0] == a[0];
      var head := [Event(Allow(key), a[0])];
      assert head + (Events(a[1..], key) + Events(b, key)) == head + Events(a[1..], key) + Events(b, key);
    }
  }

  lemma {:induction false} StripAppend(a: seq<Event>, b: seq<Event>)
    ensures WithoutCleanup(a + b) == WithoutCleanup(a) + WithoutCleanup(b)
    decreases |a|
  {
    if a == [] {
      assert a + b == b;
    } else {
      StripAppend(a[1..], b);
      assert (a + b)[1..] == a[1..] + b && (a + b)[0] == a[0];
      var head := if a[0].op.Cleanup? then [] else [a[0]];
      assert head + (WithoutCleanup(a[1..]) + WithoutCleanup(b)) == (head + WithoutCleanup(a[1..])) + WithoutCleanup(b);
    }
  }

  lemma {:induction false} ResultsAppend(cfg: Config, m: Buckets, a: seq<Event>, b: seq<Event>, key: Key)
    ensures Results(cfg, m, a + b, key) == Results(cfg, m, a, key) + Results(cfg, Run(cfg, m, a), b, key)
    decreases |a|
  {
    hide Next, Allows;
    if a == [] {
      assert a + b == b;
    } else {
      ResultsAppend(cfg, Next(cfg, m, a[0]), a[1..], b, key);
      assert (a + b)[1..] == a[1..] + b;
    }
  }

  /** After its asks the key has a bucket last refilled at the last ask. */
  lemma {:induction false} RunLast(cfg: Config, m: Buckets, asks: seq<real>, key: Key)
    requires asks != []
    ensures var m' := Run(cfg, m, Events(asks, key));
            key in m' && m'[key].last == asks[|asks| - 1]
    decreases |asks|
  {
    var es := Events(asks, key);
    assert es[1..] == Events(asks[1..], key);
    var m' := Next(cfg, m, es[0]);
    if |asks| > 1 {
      RunLast(cfg, m', asks[1..], key);
    } else {
      assert Run(cfg, m', []) == m';
    }
  }

  lemma {:induction false} Erased(cfg: Config, m: Buckets, key: Key)
    requires key in m
    ensures key !in AfterCleanup(cfg, m, m[key].last + Idle(cfg))
  {
    var e := m[key].last + Idle(cfg) - m[key].last;
    assert e == Idle(cfg);
  }

  /** Idling from s until the bucket is erased at c, and then asking. */
  lemma {:induction false} CleanedResults(cfg: Config, first: seq<real>, after: seq<real>, key: Key)
    requires Sane(cfg) && first != [] && NotBefore(after, first[|first| - 1] + Idle(cfg))
    ensures var c := first[|first| - 1] + Idle(cfg);
            Results(cfg, map[], Events(first, key) + ([Event(Cleanup, c)] + Events(after, key)), key)
            == Results(cfg, map[], Events(first, key), key) + Ideal(cfg, cfg.burst, c, after)
  {
    hide Results, Ideal, Run, Good, Level, Quiet;
    var c := first[|first| - 1] + Idle(cfg);
    var m := Run(cfg, map[], Events(first, key));
    ResultsAppend(cfg, map[], Events(first, key), [Event(Cleanup, c)] + Events(after, key), key);
    RunLast(cfg, map[], first, key);
    Erased(cfg, m, key);
    var m' := AfterCleanup(cfg, m, c);
    CleanupStep(cfg, m, c, Events(after, key), key);
    EventsFacts(after, key, c);
    Absent(cfg, m', key, c, Events(after, key));
    RefinesIdeal(cfg, m', Events(after, key), key, c);
  }

  lemma Absent(cfg: Config, m: Buckets, key: Key, t: real, es: seq<Event>)
    requires key !in m && NoSetRate(es, key) && NoCleanup(es)
    ensures Good(cfg, m, key, t) && Level(cfg, m, key, t) == cfg.burst && Quiet(cfg, es, key)
  {
  }

  lemma CleanupStep(cfg: Config, m: Buckets, c: real, es: seq<Event>, key: Key)
    ensures Results(cfg, m, [Event(Cleanup, c)] + es, key) == Results(cfg, AfterCleanup(cfg, m, c), es, key)
  {
    assert ([Event(Cleanup, c)] + es)[1..] == es;
  }

  lemma {:induction false} NotBeforeAppend(a: seq<real>, b: seq<real>, t: real)
    requires NotBefore(a, t) && a != [] && NotBefore(b, a[|a| - 1])
    ensures NotBefore(a + b, t)
    decreases |a|
  {
    var tail := a[1..];
    assert (a + b)[1..] == tail + b;
    if tail == [] {
      assert tail + b == b;
    } else {
      NotBeforeAppend(tail, b, a[0]);
    }
  }

  lemma LaterStart(b: seq<real>, t: real, later: real)
    requires t <= later && NotBefore(b, later)
    ensures NotBefore(b, t)
  {
  }

  /** Without the cleanup the second part starts from the level reached by idling. */
  lemma {:induction false} UncleanedResults(cfg: Config, first: seq<real>, after: seq<real>, key: Key)
    requires Sane(cfg) && first != [] && NotBefore(first, 0.0)
    requires var (l, s) := IdealEnd(cfg, cfg.burst, 0.0, first);
             l <= cfg.burst && s == first[|first| - 1] && NotBefore(after, s + Idle(cfg))
    ensures var (l, s) := IdealEnd(cfg, cfg.burst, 0.0, first);
            Results(cfg, map[], Events(first, key) + Events(after, key), key)
            == Results(cfg, map[], Events(first, key), key) + Ideal(cfg, Refill(cfg, l, Idle(cfg)), s + Idle(cfg), after)
  {
    hide Results, Ideal, IdealEnd, Good, Level, Quiet, Refill;
    var (l, s) := IdealEnd(cfg, cfg.burst, 0.0, first);
    var c := s + Idle(cfg);
    LaterStart(after, s, c);
    NotBeforeAppend(first, after, 0.0);
    EventsAppend(first, after, key);
    EventsFacts(first + after, key, 0.0);
    EventsFacts(first, key, 0.0);
    Absent(cfg, map[], key, 0.0, Events(first + after, key));
    Absent(cfg, map[], key, 0.0, Events(first, key));
    RefinesIdeal(cfg, map[], Events(first + after, key), key, 0.0);
    RefinesIdeal(cfg, map[], Events(first, key), key, 0.0);
    IdealAppend(cfg, cfg.burst, 0.0, first, after);
    IdealLater(cfg, l, s, c, after);
    assert c - s == Idle(cfg);
  }

  lemma {:induction false} OrderedAppend(a: seq<Event>, b: seq<Event>, t: real)
    requires Ordered(a, t) && a != [] && Ordered(b, a[|a| - 1].at)
    ensures Ordered(a + b, t)
    decreases |a|
  {
    var tail := a[1..];
    assert (a + b)[1..] == tail + b;
    if tail == [] {
      assert tail + b == b;
    } else {
      OrderedAppend(tail, b, a[0].at);
    }
  }

  lemma {:induction false} LastEvent(asks: seq<real>, key: Key)
    requires asks != []
    ensures Events(asks, key) != [] && Events(asks, key)[|Events(asks, key)| - 1].at == asks[|asks| - 1]
  {
    if |asks| > 1 {
      LastEvent(asks[1..], key);
    }
  }

  lemma {:induction false} OrderedJoin(first: seq<real>, after: seq<real>, key: Key, c: real, t: real)
    requires first != [] && NotBefore(first, t) && first[|first| - 1] <= c && NotBefore(after, c)
    ensures var es := Events(first, key) + ([Event(Cleanup, c)] + Events(after, key));
            Ordered(es, t) && NoSetRate(es, key)
  {
    hide Events, Asks, WithoutCleanup;
    var rest := [Event(Cleanup, c)] + Events(after, key);
    EventsFacts(first, key, t);
    EventsFacts(after, key, c);
    assert rest[1..] == Events(after, key);
    LastEvent(first, key);
    OrderedAppend(Events(first, key), rest, t);
  }

  /** If an idle bucket can be erased before it is full again, a cleanup changes some answer. */
  lemma {:induction false} CleanupShows(cfg: Config, key: Key) returns (es: seq<Event>)
    requires Sane(cfg) && !RefillsFirst(cfg)
    ensures Ordered(es, 0.0) && NoSetRate(es, key)
    ensures Results(cfg, map[], es, key) != Results(cfg, map[], WithoutCleanup(es), key)
  {
    hide Results, Ideal, IdealEnd, WithoutCleanup, Gain, Events, NoSetRate;
    var first := Drain(cfg, 0.0);
    var (l, s) := IdealEnd(cfg, cfg.burst, 0.0, first);
    var c := s + Idle(cfg);
    SurplusPositive(cfg);
    Gains(cfg.rate, Idle(cfg));
    var x := Refill(cfg, l, Idle(cfg));
    assert x == l + Gain(Idle(cfg), cfg.rate);
    if cfg.rate == 0.0 {
      NoRate(Idle(cfg));
    }
    var after := Diverge(cfg, x, cfg.burst, c);
    es := Events(first, key) + ([Event(Cleanup, c)] + Events(after, key));
    CleanedResults(cfg, first, after, key);
    UncleanedResults(cfg, first, after, key);
    OrderedJoin(first, after, key, c, 0.0);
    Stripped(first, after, key, c);
    SamePrefix(Results(cfg, map[], Events(first, key), key), Ideal(cfg, cfg.burst, c, after), Ideal(cfg, x, c, after));
  }

  lemma NoRate(dt: real)
    ensures Gain(dt, 0.0) == 0.0
  {
  }

  lemma SamePrefix(a: seq<bool>, b: seq<bool>, c: seq<bool>)
    requires b != c
    ensures a + b != a + c
  {
    assert (a + b)[|a|..] == b && (a + c)[|a|..] == c;
  }

  lemma StripOne(c: real)
    ensures WithoutCleanup([Event(Cleanup, c)]) == []
  {
    assert [Event(Cleanup, c)][1..] == [];
  }

  lemma {:induction false} Stripped(first: seq<real>, after: seq<real>, key: Key, c: real)
    requires NotBefore(first, 0.0) && NotBefore(after, c)
    ensures WithoutCleanup(Events(first, key) + ([Event(Cleanup, c)] + Events(after, key))) == Events(first, key) + Events(after, key)
  {
    hide WithoutCleanup, Events, Asks, Ordered;
    EventsFacts(first, key, 0.0);
    EventsFacts(after, key, c);
    StripAppend(Events(first, key), [Event(Cleanup, c)] + Events(after, key));
    StripAppend([Event(Cleanup, c)], Events(after, key));
    StripOne(c);
    assert [] + Events(after, key) == Events(after, key);
  }

  /** Cleanup never changes an answer, in any run, exactly when idle buckets refill before they can be erased. */
  lemma {:induction false} CleanupTransparentIff(cfg: Config, key: Key)
    requires Sane(cfg)
    ensures RefillsFirst(cfg) <==>
            forall es | Ordered(es, 0.0) && NoSetRate(es, key) ::
              Results(cfg, map[], es, key) == Results(cfg, map[], WithoutCleanup(es), key)
  {
    if RefillsFirst(cfg) {
      forall es | Ordered(es, 0.0) && NoSetRate(es, key)
        ensures Results(cfg, map[], es, key) == Results(cfg, map[], WithoutCleanup(es), key)
      {
        CleanupTransparent(cfg, map[], es, key, 0.0);
      }
    } else {
      var es := CleanupShows(cfg, key);
    }
  }

  // ----- The rate bound with cleanup -----

  /** Drain, idle and be erased: the key has been allowed more than its rate by the surplus, and starts afresh. */
  lemma {:induction false} Round(cfg: Config, m: Buckets, key: Key, t: real) returns (es: seq<Event>, end: real)
    requires Sane(cfg) && !RefillsFirst(cfg) && key !in m
    ensures t <= end && es != [] && Ordered(es, t) && NoSetRate(es, key) && es[|es| - 1].at == end
    ensures key !in Run(cfg, m, es)
    ensures Count(Results(cfg, m, es, key)) as real == Surplus(cfg) + Gain(end - t, cfg.rate)
  {
    hide Results, Ideal, IdealEnd, Events, Gain, Run, Good, Level, Quiet, NoSetRate, Left;
    var asks := Drain(cfg, t);
    var s := asks[|asks| - 1];
    end := s + Idle(cfg);
    var asking := Events(asks, key);
    es := asking + [Event(Cleanup, end)];
    EventsFacts(asks, key, t);
    Absent(cfg, m, key, t, asking);
    RefinesIdeal(cfg, m, asking, key, t);
    ResultsAppend(cfg, m, asking, [Event(Cleanup, end)], key);
    RunAppend(cfg, m, asking, [Event(Cleanup, end)]);
    RunLast(cfg, m, asks, key);
    var m' := Run(cfg, m, asking);
    OnlyCleanup(cfg, m', end, key);
    assert Results(cfg, m, asking, key) + [] == Results(cfg, m, asking, key);
    Erased(cfg, m', key);
    LastEvent(asks, key);
    OrderedAppend(asking, [Event(Cleanup, end)], t);
    SetRateFree(asking, end, key);
    assert (s - t) + Idle(cfg) == end - t;
    GainsAdd(cfg.rate, s - t, Idle(cfg));
  }

  lemma SetRateFree(es: seq<Event>, end: real, key: Key)
    requires NoSetRate(es, key)
    ensures NoSetRate(es + [Event(Cleanup, end)], key)
  {
  }

  lemma OnlyCleanup(cfg: Config, m: Buckets, c: real, key: Key)
    ensures Results(cfg, m, [Event(Cleanup, c)], key) == []
    ensures Run(cfg, m, [Event(Cleanup, c)]) == AfterCleanup(cfg, m, c)
  {
    assert [Event(Cleanup, c)][1..] == [];
    assert Results(cfg, AfterCleanup(cfg, m, c), [], key) == [];
    assert Run(cfg, AfterCleanup(cfg, m, c), []) == AfterCleanup(cfg, m, c);
  }

  lemma {:induction false} RunAppend(cfg: Config, m: Buckets, a: seq<Event>, b: seq<Event>)
    ensures Run(cfg, m, a + b) == Run(cfg, Run(cfg, m, a), b)
    decreases |a|
  {
    hide Next;
    if a == [] {
      assert a + b == b;
    } else {
      RunAppend(cfg, Next(cfg, m, a[0]), a[1..], b);
      assert (a + b)[1..] == a[1..] + b && (a + b)[0] == a[0];
    }
  }

  /** Round after round the surplus adds up. */
  lemma {:induction false} Rounds(cfg: Config, m: Buckets, key: Key, t: real, n: nat) returns (es: seq<Event>, end: real)
    requires Sane(cfg) && !RefillsFirst(cfg) && key !in m
    ensures Between(es, t, end) && NoSetRate(es, key)
    ensures Count(Results(cfg, m, es, key)) as real == Times(n, Surplus(cfg)) + Gain(end - t, cfg.rate)
    decreases n
  {
    hide Results, Gain, Run, Surplus, RefillsFirst, Times, Between, NoSetRate;
    if n == 0 {
      es, end := [], t;
      NoGain(cfg.rate);
      assert t - t == 0.0;
      NoResults(cfg, m, key);
      NoRounds(Surplus(cfg), t, key);
    } else {
      var first, mid := Round(cfg, m, key, t);
      var rest;
      rest, end := Rounds(cfg, Run(cfg, m, first), key, mid, n - 1);
      es := first + rest;
      JoinBetween(first, rest, t, mid, end, key);
      ResultsAppend(cfg, m, first, rest, key);
      CountAppend(Results(cfg, m, first, key), Results(cfg, Run(cfg, m, first), rest, key));
      assert (mid - t) + (end - mid) == end - t;
      GainsAdd(cfg.rate, mid - t, end - mid);
      OneMore(n, Surplus(cfg));
    }
  }

  lemma NoResults(cfg: Config, m: Buckets, key: Key)
    ensures Results(cfg, m, [], key) == [] && Count([]) == 0
  {
  }

  function Times(n: nat, x: real): real {
    n as real * x
  }

  lemma NoRounds(x: real, t: real, key: Key)
    ensures Times(0, x) == 0.0 && Between([], t, t) && NoSetRate([], key)
  {
  }

  lemma OneMore(n: nat, x: real)
    requires n > 0
    ensures Times(n, x) == x + Times(n - 1, x)
  {
    assert n as real == (n - 1) as real + 1.0;
  }

  lemma {:induction false} LastIsLatest(es: seq<Event>, t: real)
    requires Ordered(es, t) && es != []
    ensures forall e | e in es :: e.at <= es[|es| - 1].at
    ensures t <= es[|es| - 1].at
    decreases |es|
  {
    if |es| > 1 {
      LastIsLatest(es[1..], es[0].at);
    }
  }

  lemma {:induction false} JoinBetween(a: seq<Event>, b: seq<Event>, t: real, mid: real, end: real, key: Key)
    requires a != [] && Ordered(a, t) && a[|a| - 1].at == mid && Between(b, mid, end)
    requires NoSetRate(a, key) && NoSetRate(b, key)
    ensures Between(a + b, t, end) && NoSetRate(a + b, key)
  {
    LastIsLatest(a, t);
    OrderedAppend(a, b, t);
  }

  lemma Archimedes(x: real, y: real) returns (n: nat)
    requires x > 0.0 && y > 0.0
    ensures n as real * x > y
  {
    n := (y / x).Floor + 1;
    assert n as real > y / x;
    assert n as real * x > y / x * x;
    assert y / x * x == y;
  }

  /** With cleanup anywhere, the bound holds in every run from empty exactly if it does without and buckets refill first. */
  lemma {:induction false} RateBoundCleanupIff(cfg: Config, key: Key)
    ensures Sane(cfg) && RefillsFirst(cfg) <==>
            forall es, to | Between(es, 0.0, to) && NoSetRate(es, key) ::
              Count(Results(cfg, map[], es, key)) as real <= Bound(cfg, to - 0.0)
  {
    hide Results, Bound, Between, Gain;
    if Sane(cfg) && RefillsFirst(cfg) {
      forall es, to | Between(es, 0.0, to) && NoSetRate(es, key)
        ensures Count(Results(cfg, map[], es, key)) as real <= Bound(cfg, to - 0.0)
      {
        RateBound(cfg, map[], es, key, 0.0, to);
      }
    } else if Sane(cfg) {
      SurplusPositive(cfg);
      var n := Archimedes(Surplus(cfg), cfg.burst);
      var es, end := Rounds(cfg, map[], key, 0.0, n);
      BoundIs(cfg, end - 0.0);
    } else {
      RateBoundIff(cfg, key);
    }
  }

  lemma BoundIs(cfg: Config, length: real)
    ensures Bound(cfg, length) == cfg.burst + Gain(length, cfg.rate)
  {
  }
}
