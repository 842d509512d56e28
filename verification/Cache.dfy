/** The response cache of src/cache.cpp: the recency list as a value, most recently used first. */
module Cache {
  import opened Common

  type Key = string

  datatype Response = Response(status: int, statusText: string, body: string)

  /** What parse_cache_control found; a negative age means the directive is absent. */
  datatype CacheControl = CacheControl(noStore: bool, sMaxAge: int, maxAge: int)

  datatype Config = Config(maxEntries: nat, maxBytes: nat, defaultTtl: int, staleWindow: int, enabled: bool, hasCallback: bool)

  /** `size` is the memory estimate taken when the entry was made. */
  datatype Entry = Entry(
    key: Key, response: Response, created: int, expires: int, staleExpires: int,
    accessCount: nat, revalidating: bool, size: nat)

  type List = seq<Entry>

  function Sum(l: List): nat {
    if l == [] then 0 else l[0].size + Sum(l[1..])
  }

  predicate Distinct(l: List) {
    forall i, j | 0 <= i < j < |l| :: l[i].key != l[j].key
  }

  /** Position of the entry with this key, or the length of the list. */
  function Find(l: List, key: Key): (i: nat)
    ensures i <= |l| && (i < |l| ==> l[i].key == key)
    ensures forall j | 0 <= j < i :: l[j].key != key
  {
    if l == [] || l[0].key == key then 0 else 1 + Find(l[1..], key)
  }

  function Without(l: List, key: Key): (r: List) {
    var i := Find(l, key);
    if i < |l| then l[..i] + l[i + 1..] else l
  }

  // ----- Operations -----

  datatype Op =
    | Get(key: Key, now: int)
    | Put(key: Key, response: Response, control: Option<CacheControl>, ttl: int, now: int, size: nat)
    | Invalidate(key: Key)
    | Clear

  /** The answer of get: nothing, or a response that may be stale but is inside its stale window. */
  function Answer(cfg: Config, l: List, key: Key, now: int): Option<Response> {
    var i := Find(l, key);
    if cfg.enabled && i < |l| && (now < l[i].expires || now < l[i].staleExpires) then Some(l[i].response) else None
  }

  /** Whether get starts a revalidation. */
  predicate Revalidates(cfg: Config, l: List, key: Key, now: int) {
    var i := Find(l, key);
    cfg.enabled && i < |l| && l[i].expires <= now < l[i].staleExpires && !l[i].revalidating && cfg.hasCallback
  }

  /** A hit counts, and a stale hit starts at most one revalidation. */
  function Touched(cfg: Config, e: Entry, now: int): Entry {
    if now < e.expires then e.(accessCount := e.accessCount + 1)
    else e.(accessCount := e.accessCount + 1, revalidating := e.revalidating || cfg.hasCallback)
  }

  function AfterGet(cfg: Config, l: List, key: Key, now: int): List {
    var i := Find(l, key);
    if !cfg.enabled || i == |l| then l
    else if now < l[i].expires || now < l[i].staleExpires then [Touched(cfg, l[i], now)] + Without(l, key)
    else Without(l, key)
  }

  /** Whether put stores at all, and for how long. */
  predicate Stores(cfg: Config, control: Option<CacheControl>) {
    cfg.enabled && !(control.Some? && control.value.noStore)
  }

  function Lifetime(cfg: Config, control: Option<CacheControl>, ttl: int): int {
    var t := if control.None? then ttl
             else if control.value.sMaxAge >= 0 then control.value.sMaxAge
             else if control.value.maxAge >= 0 then control.value.maxAge
             else ttl;
    if t == 0 then cfg.defaultTtl else t
  }

  function NewEntry(cfg: Config, op: Op): Entry
    requires op.Put?
  {
    var expires := op.now + Lifetime(cfg, op.control, op.ttl);
    Entry(op.key, op.response, op.now, expires, expires + cfg.staleWindow, 0, false, op.size)
  }

  /** Drop the least recently used until there is room for `size` more bytes and one more entry. */
  function Evict(cfg: Config, l: List, size: nat): (r: List)
    ensures r <= l
  {
    if (|l| >= cfg.maxEntries || Sum(l) + size > cfg.maxBytes) && l != []
    then Evict(cfg, l[..|l| - 1], size)
    else l
  }

  function AfterPut(cfg: Config, l: List, op: Op): List
    requires op.Put?
  {
    if !Stores(cfg, op.control) then l
    else [NewEntry(cfg, op)] + Evict(cfg, Without(l, op.key), op.size)
  }

  function Step(cfg: Config, l: List, op: Op): List {
    match op
    case Get(key, now) => AfterGet(cfg, l, key, now)
    case Put(_, _, _, _, _, _) => AfterPut(cfg, l, op)
    case Invalidate(key) => Without(l, key)
    case Clear => []
  }

  function Run(cfg: Config, ops: seq<Op>): List {
    if ops == [] then [] else Step(cfg, Run(cfg, ops[..|ops| - 1]), ops[|ops| - 1])
  }
}

/** Invariants of every run of the cache. */
module CacheInvariants {
  import opened Common
  import opened Cache

  lemma {:induction false} SumAppend(a: List, b: List)
    ensures Sum(a + b) == Sum(a) + Sum(b)
  {
    if a == [] {
      assert a + b == b;
    } else {
      SumAppend(a[1..], b);
      assert (a + b)[1..] == a[1..] + b;
    }
  }

  lemma SumWithout(l: List, i: nat)
    requires i < |l|
    ensures Sum(l[..i] + l[i + 1..]) + l[i].size == Sum(l)
  {
    hide Sum;
    assert l == l[..i] + ([l[i]] + l[i + 1..]);
    SumAppend(l[..i], [l[i]] + l[i + 1..]);
    SumAppend([l[i]], l[i + 1..]);
    SumAppend(l[..i], l[i + 1..]);
    SumOne(l[i]);
  }

  lemma SumOne(e: Entry)
    ensures Sum([e]) == e.size
  {
  }

  lemma DistinctWithout(l: List, i: nat)
    requires Distinct(l) && i < |l|
    ensures Distinct(l[..i] + l[i + 1..])
  {
    var r := l[..i] + l[i + 1..];
    forall a, b | 0 <= a < b < |r|
      ensures r[a].key != r[b].key
    {
      assert r[a] == l[if a < i then a else a + 1] && r[b] == l[if b < i then b else b + 1];
    }
  }

  /** What removing a key does. */
  lemma {:induction false} WithoutFacts(l: List, key: Key)
    requires Distinct(l)
    ensures var r := Without(l, key);
            && Distinct(r) && (forall e :: e in r <==> e in l && e.key != key)
            && Sum(r) + (if Find(l, key) < |l| then l[Find(l, key)].size else 0) == Sum(l)
            && |r| + (if Find(l, key) < |l| then 1 else 0) == |l|
  {
    hide Sum, Distinct;
    var i := Find(l, key);
    if i < |l| {
      SumWithout(l, i);
      DistinctWithout(l, i);
      var r := l[..i] + l[i + 1..];
      forall e
        ensures e in r <==> e in l && e.key != key
      {
        MemberWithout(l, i, e);
      }
    }
  }

  lemma MemberWithout(l: List, i: nat, e: Entry)
    requires Distinct(l) && i < |l|
    ensures e in l[..i] + l[i + 1..] <==> e in l && e.key != l[i].key
  {
    var r := l[..i] + l[i + 1..];
    if e in r {
      var k :| 0 <= k < |r| && r[k] == e;
      assert e == l[if k < i then k else k + 1];
    }
    if e in l && e.key != l[i].key {
      var k :| 0 <= k < |l| && l[k] == e;
      assert k != i && e == r[if k < i then k else k - 1];
    }
  }

  lemma {:induction false} EvictFacts(cfg: Config, l: List, size: nat)
    ensures var r := Evict(cfg, l, size);
            && (r == [] || (|r| < cfg.maxEntries && Sum(r) + size <= cfg.maxBytes))
            && Sum(r) <= Sum(l)
    decreases |l|
  {
    if (|l| >= cfg.maxEntries || Sum(l) + size > cfg.maxBytes) && l != [] {
      var n := |l| - 1;
      SumAppend(l[..n], l[n..]);
      assert l == l[..n] + l[n..];
      EvictFacts(cfg, l[..n], size);
    }
  }

  /** Keys once each; within both limits, except that a single entry may exceed the memory limit. */
  predicate Within(cfg: Config, l: List) {
    && Distinct(l)
    && |l| <= (if cfg.maxEntries == 0 then 1 else cfg.maxEntries)
    && (Sum(l) <= cfg.maxBytes || |l| == 1)
  }

  lemma StepWithin(cfg: Config, l: List, op: Op)
    requires Within(cfg, l)
    ensures Within(cfg, Step(cfg, l, op))
  {
    hide Sum, Evict, Without, Touched, NewEntry;
    match op {
      case Get(key, now) =>
        WithoutFacts(l, key);
        if Step(cfg, l, op) != l && Answer(cfg, l, key, now).Some? {
          var e := Touched(cfg, l[Find(l, key)], now);
          TouchedFacts(cfg, l[Find(l, key)], now);
          FrontFacts(e, Without(l, key));
        }
        SingleOrNone(l, Without(l, key));
      case Put(key, _, _, _, _, size) =>
        if Stores(cfg, op.control) {
          var w := Without(l, key);
          WithoutFacts(l, key);
          var r := Evict(cfg, w, size);
          EvictFacts(cfg, w, size);
          NewEntryFacts(cfg, op);
          FrontFacts(NewEntry(cfg, op), r);
          EmptySum();
        }
      case Invalidate(key) =>
        WithoutFacts(l, key);
        SingleOrNone(l, Without(l, key));
      case Clear =>
        EmptySum();
    }
  }

  lemma EmptySum()
    ensures Sum([]) == 0
  {
  }

  lemma SingleOrNone(l: List, r: List)
    requires |r| <= |l| && Sum(r) <= Sum(l)
    ensures |r| == 0 ==> Sum(r) == 0
  {
  }

  lemma TouchedFacts(cfg: Config, e: Entry, now: int)
    ensures var t := Touched(cfg, e, now);
            && t.key == e.key && t.response == e.response && t.size == e.size
            && t.created == e.created && t.expires == e.expires && t.staleExpires == e.staleExpires
  {
  }

  lemma NewEntryFacts(cfg: Config, op: Op)
    requires op.Put?
    ensures NewEntry(cfg, op).key == op.key && NewEntry(cfg, op).size == op.size && NewEntry(cfg, op).response == op.response
  {
  }

  lemma FrontFacts(e: Entry, l: List)
    requires Distinct(l) && forall x | x in l :: x.key != e.key
    ensures Distinct([e] + l) && Sum([e] + l) == e.size + Sum(l)
  {
    assert ([e] + l)[1..] == l;
  }

  /** In every run the limits hold. */
  lemma {:induction false} RunWithin(cfg: Config, ops: seq<Op>)
    ensures Within(cfg, Run(cfg, ops))
    decreases |ops|
  {
    hide Step;
    if ops != [] {
      RunWithin(cfg, ops[..|ops| - 1]);
      StepWithin(cfg, Run(cfg, ops[..|ops| - 1]), ops[|ops| - 1]);
    }
  }

  // ----- Where an answer comes from -----

  /** The entry made by the last put of the key that stored, unless the key was invalidated since. */
  function Origin(cfg: Config, ops: seq<Op>, key: Key): Option<Entry> {
    if ops == [] then None
    else
      var op, before := ops[|ops| - 1], ops[..|ops| - 1];
      if op.Put? && op.key == key && Stores(cfg, op.control) then Some(NewEntry(cfg, op))
      else if op.Clear? || (op.Invalidate? && op.key == key) then None
      else Origin(cfg, before, key)
  }

  /** Everything but the access bookkeeping is as the put made it. */
  predicate SameContent(e: Entry, o: Entry) {
    && e.key == o.key && e.response == o.response && e.size == o.size
    && e.created == o.created && e.expires == o.expires && e.staleExpires == o.staleExpires
  }

  ghost predicate Genuine(cfg: Config, ops: seq<Op>, l: List) {
    forall e | e in l :: Origin(cfg, ops, e.key).Some? && SameContent(e, Origin(cfg, ops, e.key).value)
  }

  lemma {:induction false} RunGenuine(cfg: Config, ops: seq<Op>)
    ensures Genuine(cfg, ops, Run(cfg, ops))
    decreases |ops|
  {
    hide Step, SameContent, Stores, NewEntry;
    if ops != [] {
      var before, op := ops[..|ops| - 1], ops[|ops| - 1];
      var l := Run(cfg, before);
      RunGenuine(cfg, before);
      RunWithin(cfg, before);
      forall e | e in Step(cfg, l, op)
        ensures Origin(cfg, ops, e.key).Some? && SameContent(e, Origin(cfg, ops, e.key).value)
      {
        StepSource(cfg, l, op, e);
      }
    }
  }

  /** An entry after a step is the one just put, or was there before with the same content and was not removed. */
  lemma StepSource(cfg: Config, l: List, op: Op, e: Entry)
    requires Within(cfg, l) && e in Step(cfg, l, op)
    ensures if op.Put? && op.key == e.key && Stores(cfg, op.control) then SameContent(e, NewEntry(cfg, op))
            else !op.Clear? && !(op.Invalidate? && op.key == e.key)
                 && exists x :: x in l && x.key == e.key && SameContent(e, x)
    ensures forall x, o :: SameContent(e, x) && SameContent(x, o) ==> SameContent(e, o)
  {
    hide Sum, Evict, Without, Touched, NewEntry, Stores;
    match op {
      case Get(key, now) =>
        WithoutFacts(l, key);
        if Find(l, key) < |l| {
          TouchedFacts(cfg, l[Find(l, key)], now);
          assert l[Find(l, key)] in l;
        }
        assert e in l ==> SameContent(e, e);
      case Put(key, _, _, _, _, size) =>
        WithoutFacts(l, key);
        NewEntryFacts(cfg, op);
        assert SameContent(e, e);
      case Invalidate(key) =>
        WithoutFacts(l, key);
        assert SameContent(e, e);
      case Clear =>
    }
  }

  /** Any response that get returns is the one last stored for that key, within its stale window. */
  lemma AnswerGenuine(cfg: Config, ops: seq<Op>, key: Key, now: int)
    ensures var r := Answer(cfg, Run(cfg, ops), key, now);
            r.Some? ==>
              && Origin(cfg, ops, key).Some?
              && r.value == Origin(cfg, ops, key).value.response
              && (now < Origin(cfg, ops, key).value.expires || now < Origin(cfg, ops, key).value.staleExpires)
  {
    hide Run, Origin;
    RunGenuine(cfg, ops);
    var l := Run(cfg, ops);
    var i := Find(l, key);
    if i < |l| {
      assert l[i] in l;
    }
  }
}
