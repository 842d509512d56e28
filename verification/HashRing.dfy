/**
 * Consistent hashing of src/load_balancer.cpp on values. A ring is a sequence of nodes sorted by hash; `up` is
 * the set of healthy backends. Backends are of any type.
 */
module HashRing {
  import opened Common

  const RING: nat := 0x1_0000_0000_0000_0000

  datatype Node<B> = Node(hash: nat, backend: B)

  predicate OnRing<B>(ring: seq<Node<B>>) {
    forall i | 0 <= i < |ring| :: ring[i].hash < RING
  }

  predicate Sorted<B>(ring: seq<Node<B>>) {
    forall i, j | 0 <= i < j < |ring| :: ring[i].hash <= ring[j].hash
  }

  // ----- What select computes -----

  /** First position whose hash is not below h, or the length. */
  function LowerBound<B>(ring: seq<Node<B>>, h: nat): (i: nat)
    ensures i <= |ring| && (i < |ring| ==> h <= ring[i].hash)
    ensures forall j | 0 <= j < i :: ring[j].hash < h
  {
    if ring == [] || h <= ring[0].hash then 0 else 1 + LowerBound(ring[1..], h)
  }

  /** The ring read clockwise from a position. */
  function From<B>(ring: seq<Node<B>>, start: nat): seq<Node<B>>
    requires start <= |ring|
  {
    ring[start..] + ring[..start]
  }

  function First<B(==)>(nodes: seq<Node<B>>, up: set<B>): Option<B> {
    if nodes == [] then None
    else if nodes[0].backend in up then Some(nodes[0].backend)
    else First(nodes[1..], up)
  }

  function Select<B(==)>(ring: seq<Node<B>>, up: set<B>, h: nat): Option<B> {
    First(From(ring, LowerBound(ring, h)), up)
  }

  // ----- What it means: the nearest healthy node clockwise -----

  /** Steps clockwise from the key to the node. */
  function Clockwise(hash: nat, h: nat): int {
    if hash >= h then hash - h else hash - h + RING
  }

  ghost predicate Nearest<B>(ring: seq<Node<B>>, up: set<B>, h: nat, n: Node<B>) {
    && n in ring && n.backend in up
    && forall m | m in ring && m.backend in up :: Clockwise(n.hash, h) <= Clockwise(m.hash, h)
  }

  lemma {:induction false} FirstFacts<B>(nodes: seq<Node<B>>, up: set<B>) returns (i: nat)
    ensures i <= |nodes|
    ensures forall j | 0 <= j < i :: nodes[j].backend !in up
    ensures First(nodes, up) == if i == |nodes| then None else Some(nodes[i].backend)
    ensures i < |nodes| ==> nodes[i].backend in up
  {
    if nodes == [] || nodes[0].backend in up {
      i := 0;
    } else {
      i := FirstFacts(nodes[1..], up);
      i := i + 1;
    }
  }

  /** Reading clockwise from the lower bound meets nodes in order of distance. */
  lemma {:induction false} ClockwiseOrder<B>(ring: seq<Node<B>>, h: nat, i: nat, j: nat)
    requires Sorted(ring) && OnRing(ring) && h < RING && i <= j < |ring|
    ensures var r := From(ring, LowerBound(ring, h));
            Clockwise(r[i].hash, h) <= Clockwise(r[j].hash, h)
  {
    var s := LowerBound(ring, h);
    var r := From(ring, s);
    var n := |ring| - s;
    Placed(ring, h, i);
    Placed(ring, h, j);
  }

  lemma {:induction false} Placed<B>(ring: seq<Node<B>>, h: nat, i: nat)
    requires Sorted(ring) && OnRing(ring) && h < RING && i < |ring|
    ensures var s := LowerBound(ring, h);
            var k := if i < |ring| - s then s + i else i - (|ring| - s);
            && From(ring, s)[i] == ring[k] && ring[k].hash < RING
            && (i < |ring| - s <==> h <= ring[k].hash)
  {
    var s := LowerBound(ring, h);
    var k := if i < |ring| - s then s + i else i - (|ring| - s);
    assert ring[k] in ring;
  }

  /** The binary search with wrap-around scan finds a nearest healthy node, and nothing exactly when none is healthy. */
  lemma {:induction false} SelectNearest<B>(ring: seq<Node<B>>, up: set<B>, h: nat)
    requires Sorted(ring) && OnRing(ring) && h < RING
    ensures Select(ring, up, h).None? <==> forall n | n in ring :: n.backend !in up
    ensures Select(ring, up, h).Some? ==> exists n :: Nearest(ring, up, h, n) && Select(ring, up, h) == Some(n.backend)
  {
    hide Sorted, OnRing, LowerBound, First, Clockwise;
    var r := From(ring, LowerBound(ring, h));
    SameMembers(ring, LowerBound(ring, h));
    var i := FirstFacts(r, up);
    if i < |r| {
      var n := r[i];
      assert n in r;
      forall m | m in ring && m.backend in up
        ensures Clockwise(n.hash, h) <= Clockwise(m.hash, h)
      {
        assert m in r;
        var j :| 0 <= j < |r| && r[j] == m;
        ClockwiseOrder(ring, h, i, j);
      }
      assert Nearest(ring, up, h, n);
    } else {
      forall n | n in ring
        ensures n.backend !in up
      {
        assert n in r;
      }
    }
  }

  lemma {:induction false} SameMembers<B>(ring: seq<Node<B>>, s: nat)
    requires s <= |ring|
    ensures forall n :: n in ring <==> n in From(ring, s)
  {
    assert ring == ring[..s] + ring[s..];
  }

  /** No two different healthy nodes share a hash. */
  ghost predicate Apart<B>(ring: seq<Node<B>>, up: set<B>) {
    forall n, m | n in ring && m in ring && n.backend in up && m.backend in up && n.hash == m.hash :: n == m
  }

  /** Healthy nodes with distinct hashes are at distinct distances. */
  lemma {:induction false} NearestUnique<B>(ring: seq<Node<B>>, up: set<B>, h: nat, n: Node<B>, m: Node<B>)
    requires Apart(ring, up) && OnRing(ring) && h < RING
    requires Nearest(ring, up, h, n) && Nearest(ring, up, h, m)
    ensures n == m
  {
    assert Clockwise(n.hash, h) == Clockwise(m.hash, h);
    var i :| 0 <= i < |ring| && ring[i] == n;
    var j :| 0 <= j < |ring| && ring[j] == m;
    assert ring[i].hash < RING && ring[j].hash < RING;
  }

  // ----- Minimal disruption -----

  /** A backend going down moves only the keys it served; a backend coming back takes keys only for itself. */
  lemma {:induction false} OnlyOwnKeysMove<B>(ring: seq<Node<B>>, up: set<B>, h: nat, b: B)
    ensures Select(ring, up, h) != Some(b) ==> Select(ring, up - {b}, h) == Select(ring, up, h)
    ensures Select(ring, up + {b}, h) != Some(b) ==> Select(ring, up + {b}, h) == Select(ring, up, h)
  {
    hide LowerBound;
    var r := From(ring, LowerBound(ring, h));
    FirstWithout(r, up, b);
    FirstWithout(r, up + {b}, b);
    if b in up {
      assert up + {b} == up;
    } else {
      assert up + {b} - {b} == up;
    }
  }

  lemma {:induction false} FirstWithout<B>(nodes: seq<Node<B>>, up: set<B>, b: B)
    ensures First(nodes, up) != Some(b) ==> First(nodes, up - {b}) == First(nodes, up)
    decreases |nodes|
  {
    if nodes != [] {
      FirstWithout(nodes[1..], up, b);
    }
  }

  /** Where healthy nodes have distinct hashes the choice depends only on which healthy nodes exist. */
  lemma {:induction false} SelectBySet<B>(a: seq<Node<B>>, b: seq<Node<B>>, upA: set<B>, upB: set<B>, h: nat)
    requires Sorted(a) && Sorted(b) && OnRing(a) && OnRing(b) && h < RING && Apart(a, upA)
    requires forall n | n in a && n.backend in upA :: n in b && n.backend in upB
    requires forall n | n in b && n.backend in upB :: n in a && n.backend in upA
    ensures Select(a, upA, h) == Select(b, upB, h)
  {
    hide Sorted, OnRing, Select, Apart, Clockwise;
    SelectNearest(a, upA, h);
    SelectNearest(b, upB, h);
    if Select(a, upA, h).Some? && Select(b, upB, h).Some? {
      var n :| Nearest(a, upA, h, n) && Select(a, upA, h) == Some(n.backend);
      var m :| Nearest(b, upB, h, m) && Select(b, upB, h) == Some(m.backend);
      assert Nearest(a, upA, h, m);
      NearestUnique(a, upA, h, n, m);
    }
  }

  // ----- Building the ring -----

  function Insert<B>(node: Node<B>, ring: seq<Node<B>>): (r: seq<Node<B>>)
    requires Sorted(ring)
    ensures Sorted(r) && multiset(r) == multiset(ring) + multiset{node}
    ensures forall n | n in r :: n == node || n in ring
  {
    if ring == [] || node.hash <= ring[0].hash then
      assert multiset([node] + ring) == multiset{node} + multiset(ring);
      [node] + ring
    else
      var rest := Insert(node, ring[1..]);
      assert ring == [ring[0]] + ring[1..];
      assert multiset([ring[0]] + rest) == multiset{ring[0]} + multiset(rest);
      InsertHead(ring, rest, node);
      [ring[0]] + rest
  }

  lemma InsertHead<B>(ring: seq<Node<B>>, rest: seq<Node<B>>, node: Node<B>)
    requires ring != [] && Sorted(ring) && Sorted(rest) && ring[0].hash < node.hash
    requires forall n | n in rest :: n == node || n in ring[1..]
    ensures Sorted([ring[0]] + rest)
  {
    forall n | n in rest
      ensures ring[0].hash <= n.hash
    {
      if n != node {
        var k :| 0 <= k < |ring[1..]| && ring[1..][k] == n;
        assert n == ring[k + 1];
      }
    }
  }

  /** The nodes in hash order; where hashes are equal the order is not specified by the source. */
  function SortRing<B>(nodes: seq<Node<B>>): (r: seq<Node<B>>)
    ensures Sorted(r) && multiset(r) == multiset(nodes)
  {
    if nodes == [] then []
    else
      assert nodes == [nodes[0]] + nodes[1..];
      Insert(nodes[0], SortRing(nodes[1..]))
  }

  /** The virtual nodes of one backend, then of the next. */
  function VirtualNodes<B>(backends: seq<B>, vnodes: nat, hash: (B, nat) -> nat): seq<Node<B>> {
    if backends == [] then []
    else NodesOf(backends[0], vnodes, hash) + VirtualNodes(backends[1..], vnodes, hash)
  }

  function NodesOf<B>(b: B, vnodes: nat, hash: (B, nat) -> nat): (r: seq<Node<B>>)
    ensures |r| == vnodes && forall i | 0 <= i < vnodes :: r[i] == Node(hash(b, i), b)
  {
    seq(vnodes, i requires 0 <= i => Node(hash(b, i), b))
  }

  /** Any arrangement that the unstable sort may leave. */
  ghost predicate RingOf<B>(ring: seq<Node<B>>, backends: seq<B>, vnodes: nat, hash: (B, nat) -> nat) {
    Sorted(ring) && multiset(ring) == multiset(VirtualNodes(backends, vnodes, hash))
  }

  ghost predicate IsNode<B>(n: Node<B>, backends: seq<B>, vnodes: nat, hash: (B, nat) -> nat) {
    n.backend in backends && exists i: nat :: i < vnodes && n.hash == hash(n.backend, i)
  }

  lemma {:induction false} VirtualNodeIff<B>(n: Node<B>, backends: seq<B>, vnodes: nat, hash: (B, nat) -> nat)
    ensures n in VirtualNodes(backends, vnodes, hash) <==> IsNode(n, backends, vnodes, hash)
    decreases |backends|
  {
    if backends != [] {
      VirtualNodeIff(n, backends[1..], vnodes, hash);
      var own := NodesOf(backends[0], vnodes, hash);
      if n in own {
        var i: nat :| i < |own| && own[i] == n;
        assert n.hash == hash(n.backend, i);
      }
      if n.backend == backends[0] && IsNode(n, backends, vnodes, hash) {
        var i: nat :| i < vnodes && n.hash == hash(n.backend, i);
        assert own[i] == n;
      }
    }
  }

  lemma {:induction false} RingNodeIff<B>(n: Node<B>, ring: seq<Node<B>>, backends: seq<B>, vnodes: nat, hash: (B, nat) -> nat)
    requires RingOf(ring, backends, vnodes, hash)
    ensures n in ring <==> IsNode(n, backends, vnodes, hash)
  {
    VirtualNodeIff(n, backends, vnodes, hash);
    assert n in ring <==> n in multiset(ring);
    assert n in VirtualNodes(backends, vnodes, hash) <==> n in multiset(VirtualNodes(backends, vnodes, hash));
  }

  // ----- Rebuilding the ring without a backend -----

  /** Hashes are 64-bit. */
  ghost predicate Hashes64<B>(backends: seq<B>, vnodes: nat, hash: (B, nat) -> nat) {
    forall b, i: nat | b in backends && i < vnodes :: hash(b, i) < RING
  }

  /** Two different backends share no virtual node hash. */
  ghost predicate NoCollision<B>(backends: seq<B>, vnodes: nat, hash: (B, nat) -> nat) {
    forall b, c, i: nat, j: nat | b in backends && c in backends && i < vnodes && j < vnodes && hash(b, i) == hash(c, j) :: b == c
  }

  predicate Without<B(==)>(backends: seq<B>, rest: seq<B>, gone: B) {
    && (forall b | b in backends && b != gone :: b in rest)
    && (forall b | b in rest :: b in backends && b != gone)
  }

  lemma {:induction false} RingPlaced<B>(ring: seq<Node<B>>, backends: seq<B>, vnodes: nat, hash: (B, nat) -> nat)
    requires RingOf(ring, backends, vnodes, hash) && Hashes64(backends, vnodes, hash)
    ensures OnRing(ring) && Sorted(ring)
  {
    forall i | 0 <= i < |ring|
      ensures ring[i].hash < RING
    {
      RingNodeIff(ring[i], ring, backends, vnodes, hash);
    }
  }

  lemma {:induction false} RingApart<B>(ring: seq<Node<B>>, backends: seq<B>, vnodes: nat, hash: (B, nat) -> nat, up: set<B>)
    requires RingOf(ring, backends, vnodes, hash) && NoCollision(backends, vnodes, hash)
    ensures Apart(ring, up)
  {
    hide RingOf;
    forall n, m | n in ring && m in ring && n.hash == m.hash
      ensures n == m
    {
      RingNodeIff(n, ring, backends, vnodes, hash);
      RingNodeIff(m, ring, backends, vnodes, hash);
    }
  }

  /** Rebuilding the ring without a backend maps every key as marking that backend unhealthy does. */
  lemma {:induction false} RebuildIsMarking<B>(ring: seq<Node<B>>, rebuilt: seq<Node<B>>, backends: seq<B>, rest: seq<B>, gone: B,
                                               vnodes: nat, hash: (B, nat) -> nat, up: set<B>, h: nat)
    requires RingOf(ring, backends, vnodes, hash) && RingOf(rebuilt, rest, vnodes, hash) && Without(backends, rest, gone)
    requires Hashes64(backends, vnodes, hash) && NoCollision(rest, vnodes, hash) && h < RING
    ensures Select(rebuilt, up, h) == Select(ring, up - {gone}, h)
  {
    hide Select;
    RingPlaced(ring, backends, vnodes, hash);
    RingPlaced(rebuilt, rest, vnodes, hash);
    RingApart(rebuilt, rest, vnodes, hash, up);
    hide OnRing, Sorted, Apart, NoCollision, Hashes64;
    forall n | n in ring && n.backend in up - {gone}
      ensures n in rebuilt && n.backend in up
    {
      RingNodeIff(n, ring, backends, vnodes, hash);
      RingNodeIff(n, rebuilt, rest, vnodes, hash);
    }
    forall n | n in rebuilt && n.backend in up
      ensures n in ring && n.backend in up - {gone}
    {
      RingNodeIff(n, ring, backends, vnodes, hash);
      RingNodeIff(n, rebuilt, rest, vnodes, hash);
    }
    SelectBySet(rebuilt, ring, up, up - {gone}, h);
  }

  /** A node put in front of those of its hash leaves the ring sorted and serves the key of that hash. */
  lemma {:induction false} FirstOfHash<B>(node: Node<B>, others: seq<Node<B>>, ring: seq<Node<B>>, up: set<B>)
    requires Sorted(others) && node.backend in up
    requires var k := LowerBound(others, node.hash); ring == others[..k] + [node] + others[k..]
    ensures Sorted(ring) && Select(ring, up, node.hash) == Some(node.backend)
  {
    hide LowerBound;
    var k := LowerBound(others, node.hash);
    assert ring[k] == node;
    assert LowerBound(ring, node.hash) == k;
    assert From(ring, k)[0] == node;
  }

  lemma {:induction false} OneMore<T>(s: seq<T>, k: nat, x: T)
    requires k <= |s|
    ensures multiset(s[..k] + [x] + s[k..]) == multiset(s) + multiset{x}
  {
    assert s == s[..k] + s[k..];
  }

  /** The sort may leave any node first among those of its hash, and it then serves the key of that hash. */
  lemma {:induction false} MayServe<B>(backends: seq<B>, vnodes: nat, hash: (B, nat) -> nat, b: B, i: nat, up: set<B>)
    returns (ring: seq<Node<B>>)
    requires b in backends && i < vnodes && b in up
    ensures RingOf(ring, backends, vnodes, hash) && Select(ring, up, hash(b, i)) == Some(b)
  {
    hide LowerBound, VirtualNodes, SortRing, Select, Sorted;
    var n := Node(hash(b, i), b);
    var all := VirtualNodes(backends, vnodes, hash);
    VirtualNodeIff(n, backends, vnodes, hash);
    var j :| 0 <= j < |all| && all[j] == n;
    var left := all[..j] + all[j + 1..];
    assert all == left[..j] + [n] + left[j..];
    OneMore(left, j, n);
    var others := SortRing(left);
    var k := LowerBound(others, n.hash);
    OneMore(others, k, n);
    ring := others[..k] + [n] + others[k..];
    FirstOfHash(n, others, ring, up);
  }

  /** Every outcome of the two sorts maps every key alike, whichever backends are healthy. */
  ghost predicate RebuildAgrees<B(!new)>(backends: seq<B>, rest: seq<B>, gone: B, vnodes: nat, hash: (B, nat) -> nat) {
    forall ring: seq<Node<B>>, rebuilt: seq<Node<B>>, up: set<B>, h: nat
      | RingOf(ring, backends, vnodes, hash) && RingOf(rebuilt, rest, vnodes, hash) && h < RING ::
      Select(rebuilt, up, h) == Select(ring, up - {gone}, h)
  }

  /** Where two remaining backends share a hash, a rebuild can hand the key of that hash to the other one. */
  lemma {:induction false} TiesMatter<B(!new)>(backends: seq<B>, rest: seq<B>, gone: B, vnodes: nat, hash: (B, nat) -> nat,
                                               b: B, i: nat, c: B, j: nat)
    returns (ring: seq<Node<B>>, rebuilt: seq<Node<B>>)
    requires Without(backends, rest, gone)
    requires b in rest && c in rest && b != c && i < vnodes && j < vnodes && hash(b, i) == hash(c, j)
    ensures RingOf(ring, backends, vnodes, hash) && RingOf(rebuilt, rest, vnodes, hash)
    ensures Select(ring, {b, c} - {gone}, hash(b, i)) == Some(c) && Select(rebuilt, {b, c}, hash(b, i)) == Some(b)
  {
    hide Select, RingOf;
    ring := MayServe(backends, vnodes, hash, c, j, {b, c} - {gone});
    rebuilt := MayServe(rest, vnodes, hash, b, i, {b, c});
  }

  /** A rebuild maps keys as marking does exactly when no two remaining backends share a virtual node hash. */
  lemma {:induction false} RebuildIsMarkingIff<B(!new)>(backends: seq<B>, rest: seq<B>, gone: B, vnodes: nat, hash: (B, nat) -> nat)
    requires Without(backends, rest, gone) && Hashes64(backends, vnodes, hash)
    ensures RebuildAgrees(backends, rest, gone, vnodes, hash) <==> NoCollision(rest, vnodes, hash)
  {
    hide Select, RingOf;
    if NoCollision(rest, vnodes, hash) {
      forall ring: seq<Node<B>>, rebuilt: seq<Node<B>>, up: set<B>, h: nat
        | RingOf(ring, backends, vnodes, hash) && RingOf(rebuilt, rest, vnodes, hash) && h < RING
        ensures Select(rebuilt, up, h) == Select(ring, up - {gone}, h)
      {
        RebuildIsMarking(ring, rebuilt, backends, rest, gone, vnodes, hash, up, h);
      }
    } else {
      var b, c, i: nat, j: nat :| b in rest && c in rest && i < vnodes && j < vnodes && hash(b, i) == hash(c, j) && b != c;
      var ring, rebuilt := TiesMatter(backends, rest, gone, vnodes, hash, b, i, c, j);
      assert Select(rebuilt, {b, c}, hash(b, i)) != Select(ring, {b, c} - {gone}, hash(b, i));
    }
  }
}
