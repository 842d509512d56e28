/**
 * What every entry of the cache is, told by the operations of the run: which put it comes from, how long that put
 * makes it live, what the gets since have done to it, and where it stands in the order of use.
 */
module CacheAges {
  import opened Common
  import opened Cache
  import opened CacheInvariants

  // ----- How long a put makes an entry live -----

  /** A put that stores: the cache is on and the response does not forbid it. */
  predicate Storing(cfg: Config, op: Op) {
    op.Put? && cfg.enabled && (op.control.None? || !op.control.value.noStore)
  }

  /** No directive of the response gives an age. */
  predicate Ageless(op: Op)
    requires op.Put?
  {
    op.control.None? || (op.control.value.sMaxAge < 0 && op.control.value.maxAge < 0)
  }

  /** The shared age decides before the plain one, both before the caller's; zero means the default. */
  predicate LivesFor(cfg: Config, op: Op, life: int)
    requires op.Put?
  {
    && (op.control.Some? && op.control.value.sMaxAge > 0 ==> life == op.control.value.sMaxAge)
    && (op.control.Some? && op.control.value.sMaxAge == 0 ==> life == cfg.defaultTtl)
    && (op.control.Some? && op.control.value.sMaxAge < 0 && op.control.value.maxAge > 0 ==> life == op.control.value.maxAge)
    && (op.control.Some? && op.control.value.sMaxAge < 0 && op.control.value.maxAge == 0 ==> life == cfg.defaultTtl)
    && (Ageless(op) && op.ttl != 0 ==> life == op.ttl)
    && (Ageless(op) && op.ttl == 0 ==> life == cfg.defaultTtl)
  }

  /** Within its life or its stale window. */
  predicate InWindow(cfg: Config, op: Op, life: int, now: int)
    requires op.Put?
  {
    now < op.now + life || now < op.now + life + cfg.staleWindow
  }

  lemma EntryMade(cfg: Config, op: Op)
    requires op.Put?
    ensures Stores(cfg, op.control) <==> Storing(cfg, op)
    ensures var e := NewEntry(cfg, op);
            && e.key == op.key && e.response == op.response && e.created == op.now && e.size == op.size
            && LivesFor(cfg, op, e.expires - op.now) && e.staleExpires == e.expires + cfg.staleWindow
            && e.accessCount == 0 && !e.revalidating
  {
  }

  lemma OneLife(cfg: Config, op: Op, a: int, b: int)
    requires op.Put? && LivesFor(cfg, op, a) && LivesFor(cfg, op, b)
    ensures a == b
  {
  }

  /** A get right after a storing put of its key is a hit exactly within the life and the stale window that the put gives. */
  lemma PutThenGet(cfg: Config, l: List, op: Op, life: int, now: int)
    requires Storing(cfg, op) && LivesFor(cfg, op, life)
    ensures Answer(cfg, Step(cfg, l, op), op.key, now) == if InWindow(cfg, op, life, now) then Some(op.response) else None
  {
    hide Evict, Without, NewEntry, LivesFor;
    EntryMade(cfg, op);
    OneLife(cfg, op, life, NewEntry(cfg, op).expires - op.now);
    assert Step(cfg, l, op)[0] == NewEntry(cfg, op);
  }

  // ----- The put an entry comes from -----

  /** The last put of the key that stored, with the key neither invalidated nor the cache cleared since. */
  ghost predicate LastStored(cfg: Config, ops: seq<Op>, key: Key, i: nat) {
    && i < |ops| && Storing(cfg, ops[i]) && ops[i].key == key
    && forall j | i < j < |ops| :: !Replaces(cfg, ops[j], key)
  }

  predicate Replaces(cfg: Config, op: Op, key: Key) {
    (Storing(cfg, op) && op.key == key) || (op.Invalidate? && op.key == key) || op.Clear?
  }

  predicate Asks(op: Op, key: Key) {
    op.Get? && op.key == key
  }

  /** How often the key has been asked for from operation `i` on. */
  function Asked(ops: seq<Op>, key: Key, i: nat): nat
    requires i <= |ops|
    decreases |ops|
  {
    if i == |ops| then 0
    else Asked(ops[..|ops| - 1], key, i) + if Asks(ops[|ops| - 1], key) then 1 else 0
  }

  /** Since operation `i` the key has been asked for at or after this time. */
  ghost predicate AskedLate(ops: seq<Op>, key: Key, i: nat, time: int) {
    exists j :: i < j < |ops| && Asks(ops[j], key) && ops[j].now >= time
  }

  /** The entry is what that put and the gets since have made it. */
  ghost predicate MadeBy(cfg: Config, ops: seq<Op>, i: nat, e: Entry) {
    && LastStored(cfg, ops, e.key, i)
    && e.response == ops[i].response && e.created == ops[i].now && e.size == ops[i].size
    && LivesFor(cfg, ops[i], e.expires - ops[i].now) && e.staleExpires == e.expires + cfg.staleWindow
    && e.accessCount == Asked(ops, e.key, i)
    && (e.revalidating <==> cfg.hasCallback && AskedLate(ops, e.key, i, e.expires))
  }

  lemma StoredKept(cfg: Config, before: seq<Op>, op: Op, key: Key, i: nat)
    requires LastStored(cfg, before, key, i) && !Replaces(cfg, op, key)
    ensures LastStored(cfg, before + [op], key, i)
  {
    hide Replaces, Storing;
    var ops := before + [op];
    assert ops[i] == before[i];
    forall j | i < j < |ops|
      ensures !Replaces(cfg, ops[j], key)
    {
      if j < |before| {
        assert ops[j] == before[j];
      }
    }
  }

  lemma AskedMore(before: seq<Op>, op: Op, key: Key, i: nat, time: int)
    requires i < |before|
    ensures Asked(before + [op], key, i) == Asked(before, key, i) + if Asks(op, key) then 1 else 0
    ensures AskedLate(before + [op], key, i, time) <==> AskedLate(before, key, i, time) || (Asks(op, key) && op.now >= time)
  {
    var ops := before + [op];
    assert ops[..|ops| - 1] == before && ops[|before|] == op;
    if AskedLate(before, key, i, time) {
      var j :| i < j < |before| && Asks(before[j], key) && before[j].now >= time;
      assert ops[j] == before[j];
    }
    if AskedLate(ops, key, i, time) {
      var j :| i < j < |ops| && Asks(ops[j], key) && ops[j].now >= time;
      assert j < |before| ==> ops[j] == before[j];
    }
  }

  /** An operation that neither asks for nor replaces the key leaves its entry as it is. */
  lemma MadeStill(cfg: Config, before: seq<Op>, op: Op, i: nat, e: Entry)
    requires MadeBy(cfg, before, i, e) && !Replaces(cfg, op, e.key) && !Asks(op, e.key)
    ensures MadeBy(cfg, before + [op], i, e)
  {
    hide Replaces, LivesFor, Asked, AskedLate, LastStored;
    StoredIndex(cfg, before, e.key, i);
    StoredKept(cfg, before, op, e.key, i);
    AskedMore(before, op, e.key, i, e.expires);
    assert (before + [op])[i] == before[i];
  }

  lemma StoredIndex(cfg: Config, ops: seq<Op>, key: Key, i: nat)
    requires LastStored(cfg, ops, key, i)
    ensures i < |ops| && ops[i].Put?
  {
  }

  /** A hit counts, and the first late one marks the entry. */
  lemma MadeTouched(cfg: Config, before: seq<Op>, op: Op, i: nat, e: Entry)
    requires MadeBy(cfg, before, i, e) && Asks(op, e.key)
    ensures MadeBy(cfg, before + [op], i, Touched(cfg, e, op.now))
  {
    hide LivesFor, Asked, AskedLate, LastStored;
    StoredIndex(cfg, before, e.key, i);
    StoredKept(cfg, before, op, e.key, i);
    AskedMore(before, op, e.key, i, e.expires);
    assert (before + [op])[i] == before[i];
  }

  lemma MadeNew(cfg: Config, before: seq<Op>, op: Op)
    requires Storing(cfg, op)
    ensures MadeBy(cfg, before + [op], |before|, NewEntry(cfg, op))
  {
    hide LivesFor, NewEntry;
    EntryMade(cfg, op);
    var ops, n := before + [op], |before|;
    assert ops[n] == op && ops[..n] == before;
    assert Asked(ops, op.key, n) == Asked(before, op.key, n) + 0;
  }

  ghost predicate AllMade(cfg: Config, ops: seq<Op>, l: List) {
    forall e | e in l :: exists i: nat :: MadeBy(cfg, ops, i, e)
  }

  /** In every run each entry is what its put and the gets since have made it. */
  lemma {:induction false} RunMade(cfg: Config, ops: seq<Op>)
    ensures AllMade(cfg, ops, Run(cfg, ops))
    decreases |ops|
  {
    hide Step, MadeBy;
    if ops != [] {
      var before, op := ops[..|ops| - 1], ops[|ops| - 1];
      assert ops == before + [op];
      var l := Run(cfg, before);
      RunMade(cfg, before);
      RunWithin(cfg, before);
      if cfg.enabled {
        forall e | e in Step(cfg, l, op)
          ensures exists i: nat :: MadeBy(cfg, ops, i, e)
        {
          var i := StepMade(cfg, before, l, op, e);
        }
      } else {
        OffIsEmpty(cfg, ops);
      }
    }
  }

  lemma {:induction false} OffIsEmpty(cfg: Config, ops: seq<Op>)
    requires !cfg.enabled
    ensures Run(cfg, ops) == []
    decreases |ops|
  {
    if ops != [] {
      OffIsEmpty(cfg, ops[..|ops| - 1]);
    }
  }

  lemma StepMade(cfg: Config, before: seq<Op>, l: List, op: Op, e: Entry) returns (i: nat)
    requires cfg.enabled && Within(cfg, l) && AllMade(cfg, before, l) && e in Step(cfg, l, op)
    ensures MadeBy(cfg, before + [op], i, e)
  {
    hide Sum, Evict, Without, Touched, NewEntry, MadeBy, Distinct;
    if Storing(cfg, op) && e == NewEntry(cfg, op) {
      i := |before|;
      MadeNew(cfg, before, op);
    } else {
      var x := StepFrom(cfg, l, op, e);
      i :| MadeBy(cfg, before, i, x);
      if e == x && !Asks(op, e.key) {
        MadeStill(cfg, before, op, i, x);
      } else {
        MadeTouched(cfg, before, op, i, x);
      }
    }
  }

  /** Where an entry comes from that was not just put. */
  lemma StepFrom(cfg: Config, l: List, op: Op, e: Entry) returns (x: Entry)
    requires cfg.enabled && Within(cfg, l) && e in Step(cfg, l, op) && !(Storing(cfg, op) && e == NewEntry(cfg, op))
    ensures x in l && x.key == e.key && !Replaces(cfg, op, e.key)
    ensures if Asks(op, x.key) then e == Touched(cfg, x, op.now) else e == x
  {
    hide Sum, Evict, Touched, NewEntry, Distinct;
    match op {
      case Get(key, now) =>
        WithoutFacts(l, key);
        var k := Find(l, key);
        if k < |l| && e == Touched(cfg, l[k], now) {
          x := l[k];
          TouchedFacts(cfg, x, now);
        } else {
          x := e;
          GetOthers(cfg, l, key, now, e);
        }
      case Put(key, _, _, _, _, _) =>
        WithoutFacts(l, key);
        EntryMade(cfg, op);
        x := e;
      case Invalidate(key) =>
        WithoutFacts(l, key);
        x := e;
      case Clear =>
        x := e;
    }
  }

  lemma GetOthers(cfg: Config, l: List, key: Key, now: int, e: Entry)
    requires Within(cfg, l) && e in AfterGet(cfg, l, key, now)
    requires Find(l, key) < |l| ==> e != Touched(cfg, l[Find(l, key)], now)
    ensures e in l && (cfg.enabled ==> e.key != key)
  {
    hide Sum, Touched, Distinct;
    WithoutFacts(l, key);
  }

  predicate Held(l: List, key: Key) {
    exists k | 0 <= k < |l| :: l[k].key == key
  }

  /** A hit comes from a put that stored. */
  lemma {:induction false} AnswerStored(cfg: Config, ops: seq<Op>, key: Key, now: int) returns (i: nat)
    requires Answer(cfg, Run(cfg, ops), key, now).Some?
    ensures LastStored(cfg, ops, key, i)
  {
    hide Run, LastStored, LivesFor, Asked, AskedLate;
    RunMade(cfg, ops);
    var l := Run(cfg, ops);
    var k := Find(l, key);
    assert l[k] in l;
    i :| MadeBy(cfg, ops, i, l[k]);
  }

  /**
   * In every run a get is a hit exactly when the key's entry is still held and the time is within the life and the
   * stale window that its put gives, and the answer is that put's response.
   */
  lemma {:induction false} AnswerIff(cfg: Config, ops: seq<Op>, key: Key, now: int, i: nat, life: int)
    requires LastStored(cfg, ops, key, i) && LivesFor(cfg, ops[i], life)
    ensures var l := Run(cfg, ops);
            Answer(cfg, l, key, now) == if Held(l, key) && InWindow(cfg, ops[i], life, now) then Some(ops[i].response) else None
  {
    hide Run, LivesFor, Asked, AskedLate;
    RunMade(cfg, ops);
    var l := Run(cfg, ops);
    var k := Find(l, key);
    if k < |l| {
      assert l[k] in l;
      var j: nat :| MadeBy(cfg, ops, j, l[k]);
      OneStored(cfg, ops, key, i, j);
      OneLife(cfg, ops[i], life, l[k].expires - ops[i].now);
    }
  }

  /**
   * In every run a get starts a revalidation exactly when it is a hit past the life of its entry, there is someone to
   * tell, and no get since the put has come that late before.
   */
  lemma {:induction false} RevalidatesIff(cfg: Config, ops: seq<Op>, key: Key, now: int, i: nat, life: int)
    requires LastStored(cfg, ops, key, i) && LivesFor(cfg, ops[i], life)
    ensures var t := ops[i].now + life;
            Revalidates(cfg, Run(cfg, ops), key, now)
            <==> Held(Run(cfg, ops), key) && t <= now < t + cfg.staleWindow && cfg.hasCallback && !AskedLate(ops, key, i, t)
  {
    hide Run, LivesFor, Asked, AskedLate;
    RunMade(cfg, ops);
    var l := Run(cfg, ops);
    var k := Find(l, key);
    if k < |l| {
      assert l[k] in l;
      var j: nat :| MadeBy(cfg, ops, j, l[k]);
      OneStored(cfg, ops, key, i, j);
      OneLife(cfg, ops[i], life, l[k].expires - ops[i].now);
    }
  }

  lemma OneStored(cfg: Config, ops: seq<Op>, key: Key, i: nat, j: nat)
    requires LastStored(cfg, ops, key, i) && LastStored(cfg, ops, key, j)
    ensures i == j && cfg.enabled
  {
    assert Replaces(cfg, ops[i], key) && Replaces(cfg, ops[j], key);
  }

  // ----- Who is evicted -----

  lemma {:induction false} SumPrefix(l: List, a: nat, b: nat)
    requires a <= b <= |l|
    ensures Sum(l[..a]) <= Sum(l[..b])
  {
    hide Sum;
    SumAppend(l[..a], l[a..b]);
    assert l[..b] == l[..a] + l[a..b];
  }

  /** Eviction keeps an entry exactly when it and all more recent ones leave room for one more entry and its bytes. */
  lemma {:induction false} EvictKeepsIff(cfg: Config, l: List, size: nat, p: nat)
    requires p < |l|
    ensures p < |Evict(cfg, l, size)| <==> p + 1 < cfg.maxEntries && Sum(l[..p + 1]) + size <= cfg.maxBytes
    decreases |l|
  {
    hide Sum;
    var n := |l| - 1;
    if |l| >= cfg.maxEntries || Sum(l) + size > cfg.maxBytes {
      if p < n {
        EvictKeepsIff(cfg, l[..n], size, p);
        assert l[..n][..p + 1] == l[..p + 1];
      } else {
        assert l[..p + 1] == l;
      }
    } else {
      SumPrefix(l, p + 1, |l|);
      assert l[..|l|] == l;
    }
  }

  // ----- The order of use -----

  /** Using a key: asking for it, or storing it. */
  predicate Uses(cfg: Config, op: Op, key: Key) {
    Asks(op, key) || (Storing(cfg, op) && op.key == key)
  }

  ghost predicate LastUsed(cfg: Config, ops: seq<Op>, key: Key, u: nat) {
    u < |ops| && Uses(cfg, ops[u], key) && forall j | u < j < |ops| :: !Uses(cfg, ops[j], key)
  }

  ghost predicate Used(cfg: Config, ops: seq<Op>, key: Key) {
    exists u: nat :: LastUsed(cfg, ops, key, u)
  }

  /** One key was used after another. */
  ghost predicate UsedAfter(cfg: Config, ops: seq<Op>, a: Key, b: Key) {
    exists u: nat, v: nat :: LastUsed(cfg, ops, a, u) && LastUsed(cfg, ops, b, v) && v < u
  }

  ghost predicate ByUse(cfg: Config, ops: seq<Op>, l: List) {
    && (forall a | 0 <= a < |l| :: Used(cfg, ops, l[a].key))
    && (forall a, b | 0 <= a < b < |l| :: UsedAfter(cfg, ops, l[a].key, l[b].key))
  }

  lemma UsedStill(cfg: Config, before: seq<Op>, op: Op, key: Key, u: nat)
    requires LastUsed(cfg, before, key, u) && !Uses(cfg, op, key)
    ensures LastUsed(cfg, before + [op], key, u)
  {
    hide Uses;
    var ops := before + [op];
    assert ops[u] == before[u];
    forall j | u < j < |ops|
      ensures !Uses(cfg, ops[j], key)
    {
      if j < |before| {
        assert ops[j] == before[j];
      }
    }
  }

  lemma UsedNow(cfg: Config, before: seq<Op>, op: Op, key: Key)
    requires Uses(cfg, op, key)
    ensures LastUsed(cfg, before + [op], key, |before|)
  {
  }

  /** Entries kept in their order by an operation that uses none of them. */
  lemma KeptByUse(cfg: Config, before: seq<Op>, op: Op, l: List, r: List)
    requires ByUse(cfg, before, l) && SubOrder(r, l)
    requires forall a | 0 <= a < |r| :: !Uses(cfg, op, r[a].key)
    ensures ByUse(cfg, before + [op], r)
  {
    hide Uses, LastUsed;
    forall a | 0 <= a < |r|
      ensures Used(cfg, before + [op], r[a].key)
    {
      var i := Origin1(r, l, a);
      assert Used(cfg, before, l[i].key);
      var u: nat :| LastUsed(cfg, before, l[i].key, u);
      UsedStill(cfg, before, op, r[a].key, u);
    }
    forall a, b | 0 <= a < b < |r|
      ensures UsedAfter(cfg, before + [op], r[a].key, r[b].key)
    {
      var i, j := Origin2(r, l, a, b);
      assert UsedAfter(cfg, before, l[i].key, l[j].key);
      var u: nat, v: nat :| LastUsed(cfg, before, l[i].key, u) && LastUsed(cfg, before, l[j].key, v) && v < u;
      UsedStill(cfg, before, op, r[a].key, u);
      UsedStill(cfg, before, op, r[b].key, v);
    }
  }

  /** The keys of `r` are keys of `l`, in the same order. */
  ghost predicate SubOrder(r: List, l: List) {
    && (forall a | 0 <= a < |r| :: Held(l, r[a].key))
    && (forall a, b | 0 <= a < b < |r| :: InOrder(l, r[a].key, r[b].key))
  }

  ghost predicate InOrder(l: List, a: Key, b: Key) {
    exists i: nat, j: nat :: i < j < |l| && l[i].key == a && l[j].key == b
  }

  lemma Origin1(r: List, l: List, a: nat) returns (i: nat)
    requires SubOrder(r, l) && a < |r|
    ensures i < |l| && l[i].key == r[a].key
  {
    assert Held(l, r[a].key);
    i :| i < |l| && l[i].key == r[a].key;
  }

  lemma Origin2(r: List, l: List, a: nat, b: nat) returns (i: nat, j: nat)
    requires SubOrder(r, l) && a < b < |r|
    ensures i < j < |l| && l[i].key == r[a].key && l[j].key == r[b].key
  {
    assert InOrder(l, r[a].key, r[b].key);
    i, j :| i < j < |l| && l[i].key == r[a].key && l[j].key == r[b].key;
  }

  /** Where an entry was before one was taken out. */
  function Before(l: List, key: Key, a: nat): nat {
    if Find(l, key) < |l| && a >= Find(l, key) then a + 1 else a
  }

  lemma WithoutAt(l: List, key: Key, a: nat)
    requires Distinct(l) && a < |Without(l, key)|
    ensures Before(l, key, a) < |l| && Without(l, key)[a] == l[Before(l, key, a)] && Without(l, key)[a].key != key
  {
    hide Find;
    var k := Find(l, key);
    var i := Before(l, key, a);
    assert k < |l| && i > k ==> l[k].key != l[i].key;
  }

  lemma SubWithout(l: List, key: Key)
    requires Distinct(l)
    ensures SubOrder(Without(l, key), l) && forall a | 0 <= a < |Without(l, key)| :: Without(l, key)[a].key != key
  {
    hide Distinct, Without, Find;
    var r := Without(l, key);
    forall a | 0 <= a < |r|
      ensures Held(l, r[a].key) && r[a].key != key
    {
      WithoutAt(l, key, a);
    }
    forall a, b | 0 <= a < b < |r|
      ensures InOrder(l, r[a].key, r[b].key)
    {
      WithoutAt(l, key, a);
      WithoutAt(l, key, b);
      assert Before(l, key, a) < Before(l, key, b);
    }
  }

  lemma SubPrefix(l: List, r: List)
    requires r <= l
    ensures SubOrder(r, l)
  {
    forall a | 0 <= a < |r|
      ensures Held(l, r[a].key)
    {
      assert l[a] == r[a];
    }
    forall a, b | 0 <= a < b < |r|
      ensures InOrder(l, r[a].key, r[b].key)
    {
      assert l[a] == r[a] && l[b] == r[b];
    }
  }

  lemma SubTrans(a: List, b: List, c: List)
    requires SubOrder(a, b) && SubOrder(b, c)
    ensures SubOrder(a, c)
  {
    hide Held, InOrder;
    forall x | 0 <= x < |a|
      ensures Held(c, a[x].key)
    {
      var i := Origin1(a, b, x);
      assert Held(c, b[i].key);
    }
    forall x, y | 0 <= x < y < |a|
      ensures InOrder(c, a[x].key, a[y].key)
    {
      var i, j := Origin2(a, b, x, y);
      assert InOrder(c, b[i].key, b[j].key);
    }
  }

  /** A used key in front of entries that are not used. */
  lemma FrontByUse(cfg: Config, before: seq<Op>, op: Op, e: Entry, r: List)
    requires Uses(cfg, op, e.key) && ByUse(cfg, before + [op], r)
    requires forall a | 0 <= a < |r| :: !Uses(cfg, op, r[a].key)
    ensures ByUse(cfg, before + [op], [e] + r)
  {
    hide Uses;
    var ops, all := before + [op], [e] + r;
    UsedNow(cfg, before, op, e.key);
    forall a | 0 <= a < |all|
      ensures Used(cfg, ops, all[a].key)
    {
      assert a > 0 ==> all[a] == r[a - 1] && Used(cfg, ops, r[a - 1].key);
    }
    forall a, b | 0 <= a < b < |all|
      ensures UsedAfter(cfg, ops, all[a].key, all[b].key)
    {
      assert all[b] == r[b - 1];
      if a > 0 {
        assert all[a] == r[a - 1] && UsedAfter(cfg, ops, r[a - 1].key, r[b - 1].key);
      } else {
        assert Used(cfg, ops, r[b - 1].key);
        var v: nat :| LastUsed(cfg, ops, r[b - 1].key, v);
        assert ops[|before|] == op;
        assert v != |before|;
        assert UsedAfter(cfg, ops, e.key, r[b - 1].key);
      }
    }
  }

  /** In every run the list is in order of use, the last used first. */
  lemma {:induction false} RunByUse(cfg: Config, ops: seq<Op>)
    ensures ByUse(cfg, ops, Run(cfg, ops))
    decreases |ops|
  {
    hide Step, ByUse;
    if ops == [] {
      NothingByUse(cfg);
    } else {
      var before, op := ops[..|ops| - 1], ops[|ops| - 1];
      assert ops == before + [op];
      RunByUse(cfg, before);
      RunWithin(cfg, before);
      if cfg.enabled {
        StepByUse(cfg, before, Run(cfg, before), op);
      } else {
        OffIsEmpty(cfg, ops);
        EmptyByUse(cfg, ops);
      }
    }
  }

  lemma NothingByUse(cfg: Config)
    ensures ByUse(cfg, [], [])
  {
  }

  lemma EmptyByUse(cfg: Config, ops: seq<Op>)
    ensures ByUse(cfg, ops, [])
  {
  }

  lemma StepByUse(cfg: Config, before: seq<Op>, l: List, op: Op)
    requires cfg.enabled && Within(cfg, l) && ByUse(cfg, before, l)
    ensures ByUse(cfg, before + [op], Step(cfg, l, op))
  {
    hide Sum, Evict, Without, Touched, NewEntry, ByUse, SubOrder, Distinct, Storing;
    match op {
      case Get(key, now) =>
        SubWithout(l, key);
        KeptByUse(cfg, before, op, l, Without(l, key));
        var k := Find(l, key);
        if k == |l| {
          SubPrefix(l, l);
          KeptByUse(cfg, before, op, l, l);
        } else {
          TouchedFacts(cfg, l[k], now);
          FrontByUse(cfg, before, op, Touched(cfg, l[k], now), Without(l, key));
        }
      case Put(key, _, _, _, _, size) =>
        EntryMade(cfg, op);
        SubPrefix(l, l);
        SubWithout(l, key);
        if Storing(cfg, op) {
          var w := Without(l, key);
          var r := Evict(cfg, w, size);
          SubPrefix(w, r);
          SubTrans(r, w, l);
          KeptByUse(cfg, before, op, l, r);
          FrontByUse(cfg, before, op, NewEntry(cfg, op), r);
        } else {
          KeptByUse(cfg, before, op, l, l);
        }
      case Invalidate(key) =>
        SubWithout(l, key);
        KeptByUse(cfg, before, op, l, Without(l, key));
      case Clear =>
        EmptyByUse(cfg, before + [op]);
    }
  }
}
