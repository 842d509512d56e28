/**
 * What a memory limit does to inclusion. Entries have a least size, since every entry takes at least the space
 * of its record. Two caches that differ only in the number of entries they allow are compared over all traces.
 */
module CacheMemory {
  import opened Common
  import opened Cache
  import opened CacheInvariants
  import opened CacheInclusion

  function Allowing(cfg: Config, n: nat): Config {
    cfg.(maxEntries := n)
  }

  /** Every entry put has at least the least size. */
  predicate SizesAtLeast(ops: seq<Op>, least: nat) {
    forall op | op in ops && op.Put? :: least <= op.size
  }

  predicate AllLarge(l: List, least: nat) {
    forall e | e in l :: least <= e.size
  }

  // ----- A limit that binds first: both caches are the same -----

  lemma {:induction false} SumAtLeast(l: List, least: nat)
    requires AllLarge(l, least)
    ensures |l| * least <= Sum(l)
  {
    if l != [] {
      assert l[0] in l && forall e | e in l[1..] :: e in l;
      SumAtLeast(l[1..], least);
      OneMore(|l| - 1, least);
    }
  }

  lemma OneMore(k: nat, least: nat)
    ensures (k + 1) * least == k * least + least
  {
  }

  lemma Over(n: nat, k: nat, least: nat, sum: nat, size: nat, limit: nat)
    requires n <= k && k * least <= sum && least <= size && limit < (n + 1) * least
    ensures sum + size > limit
  {
    assert n * least <= k * least;
  }

  lemma {:induction false} EvictSame(cfg: Config, n: nat, m: nat, least: nat, l: List, size: nat)
    requires n <= m && least <= size && AllLarge(l, least) && cfg.maxBytes < (n + 1) * least
    ensures Evict(Allowing(cfg, n), l, size) == Evict(Allowing(cfg, m), l, size)
    decreases |l|
  {
    hide Sum;
    SumAtLeast(l, least);
    if |l| >= n {
      Over(n, |l|, least, Sum(l), size, cfg.maxBytes);
    }
    if l != [] {
      EvictSame(cfg, n, m, least, l[..|l| - 1], size);
    }
  }

  lemma {:induction false} PutSame(cfg: Config, n: nat, m: nat, least: nat, l: List, op: Op)
    requires n <= m && cfg.maxBytes < (n + 1) * least && AllLarge(l, least) && Distinct(l)
    requires op.Put? && least <= op.size
    ensures AfterPut(Allowing(cfg, n), l, op) == AfterPut(Allowing(cfg, m), l, op)
    ensures AllLarge(AfterPut(Allowing(cfg, n), l, op), least)
  {
    hide Sum, Evict, Without, Distinct;
    WithoutFacts(l, op.key);
    EvictSame(cfg, n, m, least, Without(l, op.key), op.size);
    NewEntryFacts(Allowing(cfg, n), op);
  }

  lemma {:induction false} StepSame(cfg: Config, n: nat, m: nat, least: nat, l: List, op: Op)
    requires n <= m && cfg.maxBytes < (n + 1) * least && AllLarge(l, least) && Distinct(l)
    requires op.Put? ==> least <= op.size
    ensures Step(Allowing(cfg, n), l, op) == Step(Allowing(cfg, m), l, op)
    ensures AllLarge(Step(Allowing(cfg, n), l, op), least)
  {
    hide Sum, Evict, Without, Distinct, AfterPut;
    match op {
      case Get(key, now) =>
        WithoutFacts(l, key);
      case Put(_, _, _, _, _, _) =>
        PutSame(cfg, n, m, least, l, op);
      case Invalidate(key) =>
        WithoutFacts(l, key);
      case Clear =>
    }
  }

  lemma {:induction false} RunSame(cfg: Config, n: nat, m: nat, least: nat, ops: seq<Op>)
    requires n <= m && cfg.maxBytes < (n + 1) * least && SizesAtLeast(ops, least)
    ensures Run(Allowing(cfg, n), ops) == Run(Allowing(cfg, m), ops)
    ensures AllLarge(Run(Allowing(cfg, n), ops), least)
    decreases |ops|
  {
    hide Step;
    if ops != [] {
      var k := |ops| - 1;
      assert ops[k] in ops && forall op | op in ops[..k] :: op in ops;
      RunSame(cfg, n, m, least, ops[..k]);
      RunWithin(Allowing(cfg, n), ops[..k]);
      StepSame(cfg, n, m, least, Run(Allowing(cfg, n), ops[..k]), ops[k]);
    }
  }

  // ----- Room for one entry only -----

  /** A cache of one entry holds nothing older than its last put. */
  lemma {:induction false} EvictAll(cfg: Config, l: List, size: nat)
    ensures Evict(Allowing(cfg, 1), l, size) == []
    decreases |l|
  {
    if l != [] {
      EvictAll(cfg, l[..|l| - 1], size);
    }
  }

  lemma {:induction false} SingleStep(cfg: Config, m: nat, a: List, b: List, op: Op)
    requires m >= 1 && Nested(a, b)
    ensures Nested(Step(Allowing(cfg, 1), a, op), Step(Allowing(cfg, m), b, op))
  {
    hide Sum, Evict, Without, Distinct, Sub, AfterGet;
    match op {
      case Get(key, now) => GetNested(Allowing(cfg, 1), a, Allowing(cfg, m), b, key, now);
      case Put(key, _, _, _, _, size) =>
        if Stores(cfg, op.control) {
          SinglePut(cfg, m, a, b, op);
        }
      case Invalidate(key) =>
        WithoutFacts(a, key);
        WithoutFacts(b, key);
        SubWithout(a, b, key);
      case Clear =>
        NothingDistinct();
        EmptySub();
    }
  }

  lemma {:induction false} SinglePut(cfg: Config, m: nat, a: List, b: List, op: Op)
    requires m >= 1 && Nested(a, b) && op.Put? && Stores(cfg, op.control)
    ensures Nested(AfterPut(Allowing(cfg, 1), a, op), AfterPut(Allowing(cfg, m), b, op))
  {
    hide Sum, Evict, Without, Distinct, Sub;
    var w := Without(b, op.key);
    WithoutFacts(b, op.key);
    EvictAll(cfg, Without(a, op.key), op.size);
    var y := Evict(Allowing(cfg, m), w, op.size);
    PrefixDistinct(w, y);
    var e := NewEntry(cfg, op);
    NewEntryFacts(cfg, op);
    NothingDistinct();
    FrontFacts(e, []);
    FrontFacts(e, y);
    assert Sub([], y) by { NothingSub(y); }
    SubCons(e, [], y);
  }

  lemma NothingSub(b: List)
    ensures Sub([], b)
  {
  }

  lemma {:induction false} RunSingle(cfg: Config, m: nat, ops: seq<Op>)
    requires m >= 1
    ensures Nested(Run(Allowing(cfg, 1), ops), Run(Allowing(cfg, m), ops))
    decreases |ops|
  {
    hide Step, Distinct, Sub;
    if ops == [] {
      NothingDistinct();
      EmptySub();
    } else {
      var k := |ops| - 1;
      RunSingle(cfg, m, ops[..k]);
      SingleStep(cfg, m, Run(Allowing(cfg, 1), ops[..k]), Run(Allowing(cfg, m), ops[..k]), ops[k]);
    }
  }

  // ----- Otherwise a trace tells them apart -----

  function Name(i: nat): (key: Key)
    ensures |key| == i
  {
    seq(i, _ => 'a')
  }

  function Store(i: nat, size: nat): Op {
    Put(Name(i), Response(200, "OK", ""), None, 1, 0, size)
  }

  function Item(cfg: Config, i: nat, size: nat): Entry {
    NewEntry(cfg, Store(i, size))
  }

  /** Items lo up to hi, the newest first. */
  function Items(cfg: Config, lo: nat, hi: nat, size: nat): (l: List)
    requires lo <= hi
    ensures |l| == hi - lo
    ensures forall e | e in l :: lo <= |e.key| < hi && e.size == size
    decreases hi
  {
    if lo == hi then [] else [Item(cfg, hi - 1, size)] + Items(cfg, lo, hi - 1, size)
  }

  lemma {:induction false} ItemsLast(cfg: Config, lo: nat, hi: nat, size: nat)
    requires lo < hi
    ensures Items(cfg, lo, hi, size) == Items(cfg, lo + 1, hi, size) + [Item(cfg, lo, size)]
    decreases hi
  {
    hide Item;
    if lo + 1 < hi {
      ItemsLast(cfg, lo, hi - 1, size);
    }
  }

  lemma {:induction false} ItemsSum(cfg: Config, lo: nat, hi: nat, size: nat)
    requires lo <= hi
    ensures Sum(Items(cfg, lo, hi, size)) == (hi - lo) * size
    decreases hi
  {
    if lo < hi {
      ItemsSum(cfg, lo, hi - 1, size);
      var rest := Items(cfg, lo, hi - 1, size);
      assert ([Item(cfg, hi - 1, size)] + rest)[1..] == rest;
      assert (hi - lo) * size == (hi - 1 - lo) * size + size;
    }
  }

  lemma WithoutFirst(e: Entry, l: List)
    ensures Without([e] + l, e.key) == l
  {
    assert ([e] + l)[1..] == l && Find([e] + l, e.key) == 0;
    assert ([e] + l)[..0] + ([e] + l)[1..] == l;
  }

  lemma {:induction false} WithoutLast(l: List, e: Entry)
    requires forall x | x in l :: x.key != e.key
    ensures Find(l + [e], e.key) == |l| && Without(l + [e], e.key) == l
  {
    hide Find;
    var i := Find(l + [e], e.key);
    FoundAt(l + [e], |l|, e.key);
    assert (l + [e])[..|l|] + (l + [e])[|l| + 1..] == l;
  }

  lemma FoundAt(l: List, i: nat, key: Key)
    requires i < |l| && l[i].key == key && forall j | 0 <= j < i :: l[j].key != key
    ensures Find(l, key) == i
  {
  }

  lemma Keeps(cfg: Config, l: List, size: nat)
    requires |l| < cfg.maxEntries && Sum(l) + size <= cfg.maxBytes
    ensures Evict(cfg, l, size) == l
  {
  }

  lemma {:induction false} DropsLast(cfg: Config, l: List, e: Entry, size: nat)
    requires |l| + 1 >= cfg.maxEntries || Sum(l) + e.size + size > cfg.maxBytes
    requires |l| < cfg.maxEntries && Sum(l) + size <= cfg.maxBytes
    ensures Evict(cfg, l + [e], size) == l
  {
    SumAppend(l, [e]);
    SumOne(e);
    assert (l + [e])[..|l|] == l;
    Keeps(cfg, l, size);
  }

  lemma {:induction false} StoreNew(cfg: Config, l: List, i: nat, size: nat)
    requires cfg.enabled && forall e | e in l :: |e.key| != i
    ensures Step(cfg, l, Store(i, size)) == [Item(cfg, i, size)] + Evict(cfg, l, size)
  {
    hide Evict, Without;
    WithoutAbsent(l, Name(i));
  }

  /** Storing items 0 up to k. */
  function Filling(k: nat, size: nat): seq<Op> {
    if k == 0 then [] else Filling(k - 1, size) + [Store(k - 1, size)]
  }

  lemma RunOne(cfg: Config, ops: seq<Op>, op: Op)
    ensures Run(cfg, ops + [op]) == Step(cfg, Run(cfg, ops), op)
  {
    hide Step;
    assert (ops + [op])[..|ops|] == ops;
  }

  lemma {:induction false} FillAll(cfg: Config, k: nat, size: nat)
    requires cfg.enabled && k <= cfg.maxEntries && k * size <= cfg.maxBytes
    ensures Run(cfg, Filling(k, size)) == Items(cfg, 0, k, size)
  {
    hide Run, Step, Item, Evict, Sum, Store;
    if k == 0 {
      assert Run(cfg, []) == [] by { RunNothing(cfg); }
    } else {
      assert k * size == (k - 1) * size + size;
      FillAll(cfg, k - 1, size);
      RunOne(cfg, Filling(k - 1, size), Store(k - 1, size));
      var l := Items(cfg, 0, k - 1, size);
      StoreNew(cfg, l, k - 1, size);
      ItemsSum(cfg, 0, k - 1, size);
      Keeps(cfg, l, size);
    }
  }

  lemma RunNothing(cfg: Config)
    ensures Run(cfg, []) == []
  {
  }

  /** One more than fits by count: the oldest goes. */
  lemma {:induction false} FillPast(cfg: Config, n: nat, size: nat)
    requires cfg.enabled && 1 <= n == cfg.maxEntries && (n + 1) * size <= cfg.maxBytes
    ensures Run(cfg, Filling(n + 1, size)) == Items(cfg, 1, n + 1, size)
  {
    hide Run, Step, Item, Evict, Sum, Store;
    assert (n + 1) * size == n * size + size && n * size == (n - 1) * size + size;
    FillAll(cfg, n, size);
    RunOne(cfg, Filling(n, size), Store(n, size));
    StoreNew(cfg, Items(cfg, 0, n, size), n, size);
    ItemsLast(cfg, 0, n, size);
    ItemsSum(cfg, 1, n, size);
    DropsLast(cfg, Items(cfg, 1, n, size), Item(cfg, 0, size), size);
  }

  /** Fill one past the smaller cache, forget the newest, use the oldest, then store a large one. */
  function Story(n: nat, least: nat, large: nat): seq<Op> {
    Filling(n + 1, least) + [Invalidate(Name(n))] + [Get(Name(0), 0)] + [Store(n + 1, large)]
  }

  lemma {:induction false} StorySteps(cfg: Config, n: nat, least: nat, large: nat)
    ensures Run(cfg, Story(n, least, large))
         == Step(cfg, AfterGet(cfg, Without(Run(cfg, Filling(n + 1, least)), Name(n)), Name(0), 0), Store(n + 1, large))
  {
    hide Run, AfterGet, AfterPut, Without, Filling;
    var fill := Filling(n + 1, least);
    RunOne(cfg, fill, Invalidate(Name(n)));
    RunOne(cfg, fill + [Invalidate(Name(n))], Get(Name(0), 0));
    RunOne(cfg, fill + [Invalidate(Name(n))] + [Get(Name(0), 0)], Store(n + 1, large));
  }

  /** The smaller cache misses the oldest and has room for the large one. */
  lemma {:induction false} SmallStory(cfg: Config, n: nat, least: nat, large: nat)
    requires cfg.enabled && 2 <= n == cfg.maxEntries && (n + 1) * least <= cfg.maxBytes
    requires large + (n - 1) * least == cfg.maxBytes
    ensures Run(cfg, Story(n, least, large)) == [Item(cfg, n + 1, large)] + Items(cfg, 1, n, least)
  {
    hide Run, Evict, Sum, Store, Filling, Without, Items, AfterGet, Step;
    StorySteps(cfg, n, least, large);
    FillPast(cfg, n, least);
    FirstItem(cfg, 1, n + 1, least);
    var l := Items(cfg, 1, n, least);
    WithoutFirst(Item(cfg, n, least), l);
    assert Item(cfg, n, least).key == Name(n) by { ItemKey(cfg, n, least); }
    MissChangesNothing(cfg, l, Name(0));
    StoreNew(cfg, l, n + 1, large);
    ItemsSum(cfg, 1, n, least);
    Keeps(cfg, l, large);
  }

  lemma ItemKey(cfg: Config, i: nat, size: nat)
    ensures Item(cfg, i, size).key == Name(i) && Item(cfg, i, size).size == size
  {
  }

  lemma MissChangesNothing(cfg: Config, l: List, key: Key)
    requires forall e | e in l :: e.key != key
    ensures AfterGet(cfg, l, key, 0) == l
  {
    hide Find;
    Absent(l, key);
  }

  /** The larger cache brings the oldest to the front and has to give up the next oldest for the large one. */
  lemma {:induction false} LargeStory(cfg: Config, n: nat, least: nat, large: nat) returns (z: Entry)
    requires cfg.enabled && 2 <= n < cfg.maxEntries && (n + 1) * least <= cfg.maxBytes && 1 <= least
    requires large + (n - 1) * least == cfg.maxBytes
    ensures Run(cfg, Story(n, least, large)) == [Item(cfg, n + 1, large)] + ([z] + Items(cfg, 2, n, least))
    ensures z.key == Name(0)
  {
    hide Run, Evict, Sum, Store, Filling, Without, Items, AfterGet, Step, Item;
    StorySteps(cfg, n, least, large);
    FillAll(cfg, n + 1, least);
    FirstItem(cfg, 0, n + 1, least);
    ItemKey(cfg, n, least);
    ItemKey(cfg, 1, least);
    WithoutFirst(Item(cfg, n, least), Items(cfg, 0, n, least));
    z := AfterUse(cfg, n, least);
    ItemsLast(cfg, 1, n, least);
    var rest := [z] + Items(cfg, 2, n, least);
    assert [z] + Items(cfg, 1, n, least) == rest + [Item(cfg, 1, least)];
    StoreNew(cfg, rest + [Item(cfg, 1, least)], n + 1, large);
    ItemsSum(cfg, 2, n, least);
    FrontSum(z, Items(cfg, 2, n, least));
    OneMore(n - 2, least);
    DropsLast(cfg, rest, Item(cfg, 1, least), large);
  }

  lemma FirstItem(cfg: Config, lo: nat, hi: nat, size: nat)
    requires lo < hi
    ensures Items(cfg, lo, hi, size) == [Item(cfg, hi - 1, size)] + Items(cfg, lo, hi - 1, size)
  {
  }

  lemma FrontSum(e: Entry, l: List)
    ensures Sum([e] + l) == e.size + Sum(l)
  {
    assert ([e] + l)[1..] == l;
  }

  lemma {:induction false} AfterUse(cfg: Config, n: nat, least: nat) returns (z: Entry)
    requires cfg.enabled && 1 <= n
    ensures AfterGet(cfg, Items(cfg, 0, n, least), Name(0), 0) == [z] + Items(cfg, 1, n, least)
    ensures z.key == Name(0) && z.size == least
  {
    hide Without, Find, Items;
    var oldest := Item(cfg, 0, least);
    z := Touched(cfg, oldest, 0);
    ItemsLast(cfg, 0, n, least);
    WithoutLast(Items(cfg, 1, n, least), oldest);
  }

  lemma {:induction false} FillingSizes(k: nat, size: nat)
    ensures SizesAtLeast(Filling(k, size), size)
  {
    if k > 0 {
      FillingSizes(k - 1, size);
    }
  }

  lemma Gap(n: nat, least: nat, limit: nat)
    requires 2 <= n && (n + 1) * least <= limit
    ensures least <= limit - (n - 1) * least
  {
    assert (n + 1) * least == (n - 1) * least + 2 * least;
  }

  /** A trace, with no entry below the least size, after which the smaller cache hits and the larger one misses. */
  lemma {:induction false} MemoryBreaksInclusion(cfg: Config, n: nat, m: nat, least: nat) returns (ops: seq<Op>, key: Key)
    requires cfg.enabled && 2 <= n < m && 1 <= least && (n + 1) * least <= cfg.maxBytes
    ensures SizesAtLeast(ops, least)
    ensures Answer(Allowing(cfg, n), Run(Allowing(cfg, n), ops), key, 0).Some?
    ensures Answer(Allowing(cfg, m), Run(Allowing(cfg, m), ops), key, 0).None?
  {
    hide Run, Items, Filling;
    Gap(n, least, cfg.maxBytes);
    var large: nat := cfg.maxBytes - (n - 1) * least;
    ops, key := Story(n, least, large), Name(1);
    FillingSizes(n + 1, least);
    SmallStory(Allowing(cfg, n), n, least, large);
    var z := LargeStory(Allowing(cfg, m), n, least, large);
    SmallHits(Allowing(cfg, n), n, least, large);
    Absent([Item(Allowing(cfg, m), n + 1, large)] + ([z] + Items(Allowing(cfg, m), 2, n, least)), key);
  }

  lemma Absent(l: List, key: Key)
    requires forall e | e in l :: e.key != key
    ensures Find(l, key) == |l|
  {
    assert forall i | 0 <= i < |l| :: l[i] in l;
  }

  lemma {:induction false} SmallHits(cfg: Config, n: nat, least: nat, large: nat)
    requires cfg.enabled && 2 <= n
    ensures Answer(cfg, [Item(cfg, n + 1, large)] + Items(cfg, 1, n, least), Name(1), 0).Some?
  {
    hide Items, Find;
    ItemsLast(cfg, 1, n, least);
    var front := [Item(cfg, n + 1, large)] + Items(cfg, 2, n, least);
    assert [Item(cfg, n + 1, large)] + Items(cfg, 1, n, least) == front + [Item(cfg, 1, least)];
    WithoutLast(front, Item(cfg, 1, least));
  }

  // ----- The exact condition -----

  /** The larger cache answers, in every trace, whatever the smaller one answers. */
  ghost predicate NeverWorse(s: Config, l: Config, least: nat) {
    forall ops, key, now | SizesAtLeast(ops, least) ::
      Answer(s, Run(s, ops), key, now).Some? ==> Answer(l, Run(l, ops), key, now) == Answer(s, Run(s, ops), key, now)
  }

  /** The smaller cache's list is, in every trace, a subsequence of the larger one's. */
  ghost predicate AlwaysIncluded(s: Config, l: Config, least: nat) {
    forall ops | SizesAtLeast(ops, least) :: Sub(Run(s, ops), Run(l, ops))
  }

  /** Same capacity, room for one entry, or memory for no more than the smaller cache allows. */
  predicate Comparable(cfg: Config, n: nat, m: nat, least: nat) {
    n == 1 || n == m || cfg.maxBytes < (n + 1) * least
  }

  lemma {:induction false} SubSelf(a: List)
    ensures Sub(a, a)
  {
    if a != [] {
      SubSelf(a[1..]);
    }
  }

  lemma {:induction false} ComparableNested(cfg: Config, n: nat, m: nat, least: nat, ops: seq<Op>)
    requires 1 <= n <= m && Comparable(cfg, n, m, least) && SizesAtLeast(ops, least)
    ensures Nested(Run(Allowing(cfg, n), ops), Run(Allowing(cfg, m), ops))
  {
    hide Run, SizesAtLeast, Sub, Distinct;
    if n == 1 {
      RunSingle(cfg, m, ops);
    } else {
      if n < m {
        RunSame(cfg, n, m, least, ops);
      }
      RunWithin(Allowing(cfg, n), ops);
      SubSelf(Run(Allowing(cfg, n), ops));
    }
  }

  /**
   * For entries of at least the least size, two caches that differ only in how many entries they allow are
   * included in each other in every trace, and the larger never misses where the smaller hits, exactly when they
   * are comparable.
   */
  lemma {:induction false} InclusionIff(cfg: Config, n: nat, m: nat, least: nat)
    requires cfg.enabled && 1 <= n <= m && 1 <= least
    ensures AlwaysIncluded(Allowing(cfg, n), Allowing(cfg, m), least) <==> Comparable(cfg, n, m, least)
    ensures NeverWorse(Allowing(cfg, n), Allowing(cfg, m), least) <==> Comparable(cfg, n, m, least)
  {
    hide Run, SizesAtLeast, Answer, Sub;
    var s, l := Allowing(cfg, n), Allowing(cfg, m);
    if Comparable(cfg, n, m, least) {
      forall ops | SizesAtLeast(ops, least)
        ensures Sub(Run(s, ops), Run(l, ops))
      {
        ComparableNested(cfg, n, m, least, ops);
      }
      forall ops, key, now | SizesAtLeast(ops, least)
        ensures Answer(s, Run(s, ops), key, now).Some? ==> Answer(l, Run(l, ops), key, now) == Answer(s, Run(s, ops), key, now)
      {
        ComparableNested(cfg, n, m, least, ops);
        GetNested(s, Run(s, ops), l, Run(l, ops), key, now);
      }
    } else {
      var ops, key := MemoryBreaksInclusion(cfg, n, m, least);
      if Sub(Run(s, ops), Run(l, ops)) {
        RunWithin(s, ops);
        RunWithin(l, ops);
        GetNested(s, Run(s, ops), l, Run(l, ops), key, 0);
      }
    }
  }
}
