/** A larger cache never misses where a smaller one, fed the same operations, hits. */
module CacheInclusion {
  import opened Cache
  import opened CacheInvariants

  /** `a` is a subsequence of `b`, entry for entry. */
  predicate Sub(a: List, b: List) {
    a == [] || (b != [] && (if a[0] == b[0] then Sub(a[1..], b[1..]) else Sub(a, b[1..])))
  }

  lemma {:induction false} SubMembers(a: List, b: List)
    requires Sub(a, b)
    ensures |a| <= |b| && forall e | e in a :: e in b
    decreases |b|
  {
    if a != [] {
      if a[0] == b[0] {
        SubMembers(a[1..], b[1..]);
        assert forall e | e in a :: e == a[0] || e in a[1..];
      } else {
        SubMembers(a, b[1..]);
      }
      assert forall e | e in b[1..] :: e in b;
    }
  }

  /** Dropping elements of `a` keeps it a subsequence. */
  lemma {:induction false} SubTail(a: List, b: List)
    requires a != [] && Sub(a, b)
    ensures Sub(a[1..], b)
    decreases |b|, 1
  {
    if a[0] == b[0] {
      SubSkip(a[1..], b);
    } else {
      SubTail(a, b[1..]);
      SubSkip(a[1..], b);
    }
  }

  /** An element in front of `b` can be passed over. */
  lemma {:induction false} SubSkip(a: List, b: List)
    requires b != [] && Sub(a, b[1..])
    ensures Sub(a, b)
    decreases |b|, 0
  {
    if a != [] && a[0] == b[0] {
      SubTail(a, b[1..]);
    }
  }

  lemma SubCons(e: Entry, a: List, b: List)
    requires Sub(a, b)
    ensures Sub([e] + a, [e] + b)
  {
    assert ([e] + a)[1..] == a && ([e] + b)[1..] == b;
  }

  lemma SubBehind(e: Entry, a: List, b: List)
    requires Sub(a, b)
    ensures Sub(a, [e] + b)
  {
    assert ([e] + b)[1..] == b;
    SubSkip(a, [e] + b);
  }

  lemma {:induction false} SubPrefix(a: List, b: List, n: nat)
    requires Sub(a, b) && n <= |a|
    ensures Sub(a[..n], b)
    decreases |b|
  {
    if n > 0 {
      if a[0] == b[0] {
        SubPrefix(a[1..], b[1..], n - 1);
        assert a[..n][1..] == a[1..][..n - 1];
      } else {
        SubPrefix(a, b[1..], n);
      }
    }
  }

  /** Dropping the last of each keeps the relation. */
  lemma {:induction false} SubInit(a: List, b: List)
    requires a != [] && Sub(a, b)
    ensures b != [] && Sub(a[..|a| - 1], b[..|b| - 1])
    decreases |b|
  {
    var a', b' := a[..|a| - 1], b[..|b| - 1];
    if a[0] == b[0] {
      if |a| > 1 {
        SubInit(a[1..], b[1..]);
        assert a'[1..] == a[1..][..|a| - 2] && b'[1..] == b[1..][..|b| - 2];
      }
    } else {
      SubInit(a, b[1..]);
      assert b'[1..] == b[1..][..|b| - 2];
      SubSkip(a', b');
    }
  }

  // ----- Removing a key from both -----

  lemma FindTail(l: List, key: Key)
    requires l != [] && l[0].key != key
    ensures Without(l, key) == [l[0]] + Without(l[1..], key)
  {
    var i := Find(l[1..], key);
    if i < |l[1..]| {
      assert l[..i + 1] == [l[0]] + l[1..][..i] && l[i + 2..] == l[1..][i + 1..];
    } else {
      assert l == [l[0]] + l[1..];
    }
  }

  lemma FindHead(l: List, key: Key)
    requires l != [] && l[0].key == key
    ensures Without(l, key) == l[1..]
  {
    assert l[..0] + l[1..] == l[1..];
  }

  lemma DistinctTail(l: List)
    requires l != [] && Distinct(l)
    ensures Distinct(l[1..]) && forall e | e in l[1..] :: e.key != l[0].key
  {
    forall e | e in l[1..]
      ensures e.key != l[0].key
    {
      var k :| 0 <= k < |l[1..]| && l[1..][k] == e;
      assert l[k + 1] == e;
    }
  }

  lemma WithoutAbsent(l: List, key: Key)
    requires forall e | e in l :: e.key != key
    ensures Without(l, key) == l && Find(l, key) == |l|
  {
  }

  lemma {:induction false} SubWithout(a: List, b: List, key: Key)
    requires Distinct(a) && Distinct(b) && Sub(a, b)
    ensures Sub(Without(a, key), Without(b, key))
    decreases |b|
  {
    hide Without, Distinct;
    if a == [] {
      WithoutAbsent(a, key);
    } else {
      DistinctTail(a);
      DistinctTail(b);
      if a[0] == b[0] {
        SubWithout(a[1..], b[1..], key);
        if a[0].key == key {
          FindHead(a, key);
          FindHead(b, key);
        } else {
          FindTail(a, key);
          FindTail(b, key);
          SubCons(a[0], Without(a[1..], key), Without(b[1..], key));
        }
      } else {
        SubWithout(a, b[1..], key);
        if b[0].key == key {
          FindHead(b, key);
          SubMembers(a, b[1..]);
          WithoutAbsent(b[1..], key);
        } else {
          FindTail(b, key);
          SubBehind(b[0], Without(a, key), Without(b[1..], key));
        }
      }
    }
  }

  /** The same key finds the same entry. */
  lemma SameEntry(a: List, b: List, key: Key)
    requires Distinct(a) && Distinct(b) && Sub(a, b) && Find(a, key) < |a|
    ensures Find(b, key) < |b| && b[Find(b, key)] == a[Find(a, key)]
  {
    var e := a[Find(a, key)];
    SubMembers(a, b);
    assert e in a;
    assert e in b;
    var k :| 0 <= k < |b| && b[k] == e;
    assert Find(b, key) == k;
  }

  // ----- Both caches, one step at a time -----

  /** Same behaviour, at most as many entries. */
  predicate Smaller(s: Config, l: Config) {
    && 1 <= s.maxEntries <= l.maxEntries
    && s.defaultTtl == l.defaultTtl && s.staleWindow == l.staleWindow
    && s.enabled == l.enabled && s.hasCallback == l.hasCallback
  }

  /** The memory limit plays no part in this step. */
  predicate MemoryFree(cfg: Config, l: List, op: Op) {
    op.Put? ==> Sum(Without(l, op.key)) + op.size <= cfg.maxBytes
  }

  /** Subsequence, and the larger cache has no more to spare than its extra capacity. */
  predicate Included(s: Config, a: List, l: Config, b: List) {
    && Sub(a, b) && Distinct(a) && Distinct(b)
    && |a| <= s.maxEntries && |b| <= l.maxEntries
    && |b| - |a| <= l.maxEntries - s.maxEntries
  }

  lemma {:induction false} EvictByCount(cfg: Config, l: List, size: nat)
    requires cfg.maxEntries >= 1 && Sum(l) + size <= cfg.maxBytes && |l| <= cfg.maxEntries
    ensures Evict(cfg, l, size) == if |l| == cfg.maxEntries then l[..|l| - 1] else l
  {
    if |l| == cfg.maxEntries {
      var n := |l| - 1;
      SumAppend(l[..n], l[n..]);
      assert l == l[..n] + l[n..];
      assert Evict(cfg, l, size) == Evict(cfg, l[..n], size);
    }
  }

  lemma PutIncluded(s: Config, a: List, l: Config, b: List, op: Op)
    requires Smaller(s, l) && Included(s, a, l, b) && op.Put?
    requires MemoryFree(s, a, op) && MemoryFree(l, b, op)
    ensures Included(s, AfterPut(s, a, op), l, AfterPut(l, b, op))
  {
    hide Sum, Evict, Without, Distinct;
    if Stores(s, op.control) {
      var a', b' := Without(a, op.key), Without(b, op.key);
      WithoutFacts(a, op.key);
      WithoutFacts(b, op.key);
      SubWithout(a, b, op.key);
      KeyCounts(a, b, op.key);
      EvictByCount(s, a', op.size);
      EvictByCount(l, b', op.size);
      var x, y := Evict(s, a', op.size), Evict(l, b', op.size);
      assert Sub(x, y) by {
        if |b'| == l.maxEntries {
          SubInit(a', b');
        } else {
          SubPrefix(a', b', |x|);
          assert a'[..|a'|] == a';
        }
      }
      PrefixDistinct(a', x);
      PrefixDistinct(b', y);
      var e := NewEntry(s, op);
      assert e == NewEntry(l, op);
      NewEntryFacts(s, op);
      FrontFacts(e, x);
      FrontFacts(e, y);
      SubCons(e, x, y);
    }
  }

  lemma PrefixDistinct(l: List, p: List)
    requires Distinct(l) && p <= l
    ensures Distinct(p) && forall e | e in p :: e in l
  {
  }

  /** Removing a key costs the larger cache an entry whenever it costs the smaller one. */
  lemma KeyCounts(a: List, b: List, key: Key)
    requires Distinct(a) && Distinct(b) && Sub(a, b)
    ensures |Without(b, key)| - |Without(a, key)| <= |b| - |a|
  {
    hide Sum, Without, Distinct;
    WithoutFacts(a, key);
    WithoutFacts(b, key);
    if Find(a, key) < |a| {
      SameEntry(a, b, key);
    }
  }

  predicate Nested(a: List, b: List) {
    Sub(a, b) && Distinct(a) && Distinct(b)
  }

  /** A lookup keeps one list inside the other, and what the inner one answers the outer one answers. */
  lemma GetNested(s: Config, a: List, l: Config, b: List, key: Key, now: int)
    requires Smaller(s, l) && Nested(a, b)
    ensures Nested(AfterGet(s, a, key, now), AfterGet(l, b, key, now))
    ensures Answer(s, a, key, now).Some? ==> Answer(l, b, key, now) == Answer(s, a, key, now)
  {
    hide Sum, Without, Distinct, Touched, Sub;
    if s.enabled && Find(b, key) < |b| {
      var a', b' := Without(a, key), Without(b, key);
      WithoutFacts(a, key);
      WithoutFacts(b, key);
      SubWithout(a, b, key);
      var e := b[Find(b, key)];
      var t := Touched(l, e, now);
      TouchedFacts(l, e, now);
      FrontFacts(t, b');
      if Find(a, key) < |a| {
        SameEntry(a, b, key);
        assert t == Touched(s, e, now) by { SameTouch(s, l, e, now); }
        FrontFacts(t, a');
        SubCons(t, a', b');
      } else {
        assert a' == a by { NotFound(a, key); }
        SubBehind(t, a, b');
      }
    } else if s.enabled && Find(a, key) < |a| {
      SameEntry(a, b, key);
    }
  }

  lemma GetIncluded(s: Config, a: List, l: Config, b: List, key: Key, now: int)
    requires Smaller(s, l) && Included(s, a, l, b)
    ensures Included(s, AfterGet(s, a, key, now), l, AfterGet(l, b, key, now))
    ensures Answer(s, a, key, now).Some? ==> Answer(l, b, key, now) == Answer(s, a, key, now)
  {
    hide Sum, Without, Distinct, Touched, Sub;
    GetNested(s, a, l, b, key, now);
    WithoutFacts(a, key);
    WithoutFacts(b, key);
    KeyCounts(a, b, key);
    if Find(a, key) < |a| {
      SameEntry(a, b, key);
    } else {
      NotFound(a, key);
    }
  }

  lemma NotFound(l: List, key: Key)
    requires Find(l, key) == |l|
    ensures Without(l, key) == l
  {
  }

  lemma SameTouch(s: Config, l: Config, e: Entry, now: int)
    requires Smaller(s, l)
    ensures Touched(s, e, now) == Touched(l, e, now)
  {
  }

  lemma StepIncluded(s: Config, a: List, l: Config, b: List, op: Op)
    requires Smaller(s, l) && Included(s, a, l, b) && MemoryFree(s, a, op) && MemoryFree(l, b, op)
    ensures Included(s, Step(s, a, op), l, Step(l, b, op))
  {
    hide AfterGet, AfterPut, Without, Distinct, Sum, MemoryFree;
    match op {
      case Get(key, now) => GetIncluded(s, a, l, b, key, now);
      case Put(_, _, _, _, _, _) => PutIncluded(s, a, l, b, op);
      case Invalidate(key) =>
        WithoutFacts(a, key);
        WithoutFacts(b, key);
        SubWithout(a, b, key);
        KeyCounts(a, b, key);
      case Clear => NothingDistinct();
    }
  }

  lemma NothingDistinct()
    ensures Distinct([])
  {
  }

  /** The memory limit plays no part anywhere in the run. */
  ghost predicate RunMemoryFree(cfg: Config, ops: seq<Op>) {
    forall k | 0 <= k < |ops| :: MemoryFree(cfg, Run(cfg, ops[..k]), ops[k])
  }

  lemma {:induction false} RunIncluded(s: Config, l: Config, ops: seq<Op>)
    requires Smaller(s, l) && RunMemoryFree(s, ops) && RunMemoryFree(l, ops)
    ensures Included(s, Run(s, ops), l, Run(l, ops))
    decreases |ops|
  {
    hide Step, MemoryFree, Distinct, Sub;
    if ops == [] {
      NothingDistinct();
      assert Sub([], []) by { EmptySub(); }
    } else {
      var n := |ops| - 1;
      assert forall k | 0 <= k < n :: ops[..n][..k] == ops[..k] && ops[..n][k] == ops[k];
      RunIncluded(s, l, ops[..n]);
      StepIncluded(s, Run(s, ops[..n]), l, Run(l, ops[..n]), ops[n]);
    }
  }

  lemma EmptySub()
    ensures Sub([], [])
  {
  }

  /** After the same operations the larger cache answers everything the smaller one answers, and the same way. */
  lemma LargerNeverWorse(s: Config, l: Config, ops: seq<Op>, key: Key, now: int)
    requires Smaller(s, l) && RunMemoryFree(s, ops) && RunMemoryFree(l, ops)
    ensures var hit := Answer(s, Run(s, ops), key, now);
            hit.Some? ==> Answer(l, Run(l, ops), key, now) == hit
  {
    hide Run, AfterGet, Answer, RunMemoryFree;
    RunIncluded(s, l, ops);
    GetIncluded(s, Run(s, ops), l, Run(l, ops), key, now);
  }
}
