/**
 * The cache object: a list of nodes in recency order and an index from key to node. Moving a hit to the
 * front moves the node, so the index keeps pointing at it. Each operation is proved to change the list as
 * the corresponding step of module Cache does.
 */
module CacheStore {
  import opened Common
  import opened Cache
  import opened CacheInvariants

  class Node {
    var e: Entry

    constructor (e: Entry)
      ensures this.e == e
    {
      this.e := e;
    }
  }

  ghost function Entries(s: seq<Node>): (l: List)
    reads s
    ensures |l| == |s| && forall i | 0 <= i < |s| :: l[i] == s[i].e
  {
    seq(|s|, i requires 0 <= i < |s| reads s => s[i].e)
  }

  /** The position an iterator to this node stands for. */
  function IndexOf(s: seq<Node>, n: Node): (i: nat)
    requires n in s
    ensures i < |s| && s[i] == n && n !in s[..i]
  {
    if s[0] == n then 0 else 1 + IndexOf(s[1..], n)
  }

  function Detached(s: seq<Node>, n: Node): seq<Node>
    requires n in s
  {
    var i := IndexOf(s, n);
    s[..i] + s[i + 1..]
  }

  lemma {:induction false} FindAt(l: List, i: nat)
    requires Distinct(l) && i < |l|
    ensures Find(l, l[i].key) == i
  {
    assert Find(l, l[i].key) <= i;
  }

  lemma {:induction false} NotFoundIff(l: List, key: Key)
    ensures Find(l, key) == |l| <==> forall e | e in l :: e.key != key
  {
    if Find(l, key) < |l| {
      assert l[Find(l, key)] in l;
    }
  }

  predicate Once(s: seq<Node>) {
    forall i, j | 0 <= i < j < |s| :: s[i] != s[j]
  }

  lemma {:induction false} DistinctOnce(s: seq<Node>)
    requires Distinct(Entries(s))
    ensures Once(s)
  {
    forall i, j | 0 <= i < j < |s|
      ensures s[i] != s[j]
    {
      assert Entries(s)[i].key != Entries(s)[j].key;
    }
  }

  lemma {:induction false} DetachedMember(s: seq<Node>, n: Node, m: Node)
    requires n in s && Once(s)
    ensures m in Detached(s, n) <==> m in s && m != n
  {
    hide IndexOf;
    var i := IndexOf(s, n);
    var d := Detached(s, n);
    if m in s && m != n {
      var k :| 0 <= k < |s| && s[k] == m;
      assert m == d[if k < i then k else k - 1];
    }
    if m in d {
      var k :| 0 <= k < |d| && d[k] == m;
      assert m == s[if k < i then k else k + 1];
    }
  }

  lemma {:induction false} DetachedMembers(s: seq<Node>, n: Node)
    requires n in s && Distinct(Entries(s))
    ensures forall m :: m in Detached(s, n) <==> m in s && m != n
    ensures |Detached(s, n)| == |s| - 1
  {
    hide Distinct, Once;
    DistinctOnce(s);
    forall m
      ensures m in Detached(s, n) <==> m in s && m != n
    {
      DetachedMember(s, n, m);
    }
  }

  /** Taking a node out of the list removes its key from the contents. */
  lemma {:induction false} DetachedEntries(s: seq<Node>, n: Node)
    requires n in s && Distinct(Entries(s))
    ensures Find(Entries(s), n.e.key) == IndexOf(s, n)
    ensures Entries(Detached(s, n)) == Without(Entries(s), n.e.key)
  {
    hide IndexOf, Distinct, Find;
    var i := IndexOf(s, n);
    var l := Entries(s);
    FindAt(l, i);
    assert Entries(Detached(s, n)) == l[..i] + l[i + 1..];
  }

  /** The index points at the list's nodes and every node is indexed. */
  ghost predicate Agree(s: seq<Node>, index: map<Key, Node>)
    reads s
  {
    && (forall n | n in s :: n.e.key in index && index[n.e.key] == n)
    && (forall k | k in index :: index[k] in s && index[k].e.key == k)
    && |index| == |s|
  }

  lemma {:induction false} AgreeDetached(s: seq<Node>, index: map<Key, Node>, n: Node)
    requires n in s && Agree(s, index) && Distinct(Entries(s))
    ensures Agree(Detached(s, n), index - {n.e.key})
  {
    hide Distinct, IndexOf;
    DetachedMembers(s, n);
    var rest := index - {n.e.key};
    assert index.Keys == rest.Keys + {n.e.key};
    assert |rest.Keys| == |rest| && |index.Keys| == |index|;
    forall m | m in Detached(s, n)
      ensures m.e.key in rest && rest[m.e.key] == m
    {
      assert m in s && m != n;
    }
  }

  lemma {:induction false} AgreeFront(s: seq<Node>, index: map<Key, Node>, n: Node)
    requires n.e.key !in index && Agree(s, index)
    ensures Agree([n] + s, index[n.e.key := n])
  {
    assert index[n.e.key := n].Keys == index.Keys + {n.e.key};
  }

  lemma Reindexed(s: seq<Node>, index: map<Key, Node>, n: Node)
    requires n in s && Agree(s, index)
    ensures (index - {n.e.key})[n.e.key := n] == index
  {
  }

  lemma {:induction false} EntriesFront(n: Node, s: seq<Node>)
    ensures Entries([n] + s) == [n.e] + Entries(s)
  {
  }

  class HttpCache {
    const cfg: Config
    var lru: seq<Node>
    var index: map<Key, Node>
    var memory: nat

    ghost function Contents(): List
      reads this, lru
    {
      Entries(lru)
    }

    /** Index and list agree both ways, keys occur once, and the memory counter is exact. */
    ghost predicate Valid()
      reads this, lru
    {
      && Distinct(Contents())
      && Agree(lru, index)
      && memory == Sum(Contents())
    }

    constructor (cfg: Config)
      ensures Valid() && this.cfg == cfg && Contents() == []
    {
      this.cfg := cfg;
      lru, index, memory := [], map[], 0;
    }

    lemma Indexed(key: Key)
      requires Valid()
      ensures key in index <==> Find(Contents(), key) < |lru|
      ensures key in index ==> Contents()[Find(Contents(), key)] == index[key].e
    {
      hide Sum;
      NotFoundIff(Contents(), key);
      if key in index {
        DetachedEntries(lru, index[key]);
      } else {
        forall e | e in Contents()
          ensures e.key != key
        {
          var i :| 0 <= i < |lru| && Contents()[i] == e;
          assert lru[i] in lru;
        }
      }
    }

    lemma NotIndexed(key: Key)
      requires Valid() && key !in index
      ensures forall e | e in Contents() :: e.key != key
    {
      Indexed(key);
      NotFoundIff(Contents(), key);
    }

    /** Unlink a node from list, index and counter. */
    method Erase(n: Node)
      requires Valid() && n in lru
      modifies this
      ensures Valid() && Contents() == Without(old(Contents()), n.e.key)
      ensures lru == Detached(old(lru), n) && n.e.key !in index
      ensures forall k | k != n.e.key :: k in index <==> k in old(index)
    {
      hide Sum, Without, Find, Distinct, Detached, Agree;
      DetachedEntries(lru, n);
      AgreeDetached(lru, index, n);
      WithoutFacts(Contents(), n.e.key);
      memory := memory - n.e.size;
      lru := Detached(lru, n);
      index := index - {n.e.key};
    }

    method EvictLru()
      requires Valid()
      modifies this
      ensures Valid()
      ensures Contents() == (if old(Contents()) == [] then [] else old(Contents())[..|old(Contents())| - 1])
      ensures forall n | n in lru :: n in old(lru)
      ensures forall k | k in index :: k in old(index)
    {
      hide Sum, Find, Distinct, Agree, IndexOf;
      if |lru| == 0 {
        return;
      }
      var n := |lru| - 1;
      FindAt(Contents(), n);
      DetachedMembers(lru, lru[n]);
      Erase(lru[n]);
    }

    method Get(key: Key, now: int) returns (r: Option<Response>, revalidate: bool)
      requires Valid()
      modifies this, lru
      ensures Valid()
      ensures r == Answer(cfg, old(Contents()), key, now)
      ensures Contents() == AfterGet(cfg, old(Contents()), key, now)
      ensures forall n | n in lru :: n in old(lru)
      ensures revalidate == Revalidates(cfg, old(Contents()), key, now)
    {
      hide Sum, Find, Without, Distinct, Detached, Touched, Agree, Entries;
      Indexed(key);
      if !cfg.enabled || key !in index {
        return None, false;
      }
      var n := Lookup(key);
      if now < n.e.expires || now < n.e.staleExpires {
        revalidate := now >= n.e.expires && !n.e.revalidating && cfg.hasCallback;
        r := Some(n.e.response);
        var touched := Touched(cfg, n.e, now);
        TouchedFacts(cfg, n.e, now);
        MoveToFront(n, touched);
      } else {
        Invalidate(key);
        r, revalidate := None, false;
      }
    }

    function Lookup(key: Key): (n: Node)
      requires Valid() && key in index
      reads this, lru
      ensures n in lru && n == index[key] && n.e.key == key
    {
      index[key]
    }

    /** The splice of a hit, with the entry's bookkeeping brought up to date. */
    method MoveToFront(n: Node, e: Entry)
      requires Valid() && n in lru
      requires e.key == n.e.key && e.size == n.e.size
      modifies this, n
      ensures Valid() && Contents() == [e] + Without(old(Contents()), e.key)
      ensures n.e == e
      ensures forall m | m in lru :: m in old(lru)
    {
      hide Sum, Without, Find, Distinct, Detached, Agree;
      DetachedEntries(lru, n);
      DetachedMembers(lru, n);
      AgreeDetached(lru, index, n);
      WithoutFacts(Contents(), n.e.key);
      Reindexed(lru, index, n);
      ghost var d, rest := Detached(lru, n), Without(Contents(), n.e.key);
      lru := [n] + Detached(lru, n);
      n.e := e;
      FrontFacts(e, rest);
      assert Entries(d) == rest;
      EntriesFront(n, d);
      AgreeFront(d, index - {e.key}, n);
    }

    method Put(key: Key, response: Response, control: Option<CacheControl>, ttl: int, now: int, size: nat)
      requires Valid()
      modifies this
      ensures Valid()
      ensures Contents() == AfterPut(cfg, old(Contents()), Cache.Put(key, response, control, ttl, now, size))
      ensures forall n | n in lru :: n in old(lru) || fresh(n)
    {
      hide Sum, Without, Find, NewEntry, Evict, Distinct, Agree;
      ghost var op := Cache.Put(key, response, control, ttl, now, size);
      if !cfg.enabled || (control.Some? && control.value.noStore) {
        return;
      }
      var entry := NewEntry(cfg, Cache.Put(key, response, control, ttl, now, size));
      NewEntryFacts(cfg, op);
      Invalidate(key);
      ghost var rest := Contents();
      MakeRoom(size);
      assert Contents() == Evict(cfg, rest, size);
      var n := new Node(entry);
      PushFront(n);
    }

    method MakeRoom(size: nat)
      requires Valid()
      modifies this
      ensures Valid() && Contents() == Evict(cfg, old(Contents()), size)
      ensures forall n | n in lru :: n in old(lru)
      ensures forall k | k in index :: k in old(index)
    {
      hide Sum, Distinct, Find, Entries;
      while (|index| >= cfg.maxEntries || memory + size > cfg.maxBytes) && |lru| > 0
        invariant Valid() && Evict(cfg, Contents(), size) == Evict(cfg, old(Contents()), size)
        invariant forall n | n in lru :: n in old(lru)
        invariant forall k | k in index :: k in old(index)
        decreases |lru|
      {
        EvictLru();
      }
    }

    method PushFront(n: Node)
      requires Valid() && n !in lru && n.e.key !in index
      modifies this
      ensures Valid() && lru == [n] + old(lru) && Contents() == [n.e] + old(Contents())
    {
      hide Sum, Find, Distinct, Agree;
      AgreeFront(lru, index, n);
      EntriesFront(n, lru);
      NotIndexed(n.e.key);
      FrontFacts(n.e, Contents());
      lru := [n] + lru;
      index := index[n.e.key := n];
      memory := memory + n.e.size;
    }

    method Invalidate(key: Key)
      requires Valid()
      modifies this
      ensures Valid() && Contents() == Without(old(Contents()), key)
      ensures key !in index
      ensures forall n | n in lru :: n in old(lru)
    {
      hide Sum, Find, Distinct, Agree, IndexOf;
      Indexed(key);
      if key in index {
        DetachedMembers(lru, Lookup(key));
        Erase(Lookup(key));
      }
    }

    method Clear()
      modifies this
      ensures Valid() && Contents() == []
    {
      lru, index, memory := [], map[], 0;
    }
  }
}
