/** The balancer objects of src/load_balancer.cpp over shared backend objects. */
module LoadBalancers {
  import opened Common
  import opened HashRing
  import opened Balancing
  import HttpText

  class Backend {
    const address: bytes
    var healthy: bool
    var active: int

    constructor (address: bytes)
      ensures this.address == address && healthy && active == 0
    {
      this.address := address;
      healthy, active := true, 0;
    }
  }

  ghost function Up(backends: seq<Backend>): set<Backend>
    reads backends
  {
    set b | b in backends && b.healthy
  }

  // ----- FNV-1a -----

  const FNV_OFFSET: nat := 14695981039346656037
  const FNV_PRIME: nat := 1099511628211

  function Fnv(h: nat, data: bytes): nat {
    if data == [] then h else (Xor(Fnv(h, data[..|data| - 1]), data[|data| - 1]) * FNV_PRIME) % RING
  }

  function Hash(data: bytes): (h: nat)
    ensures h < RING
  {
    Fnv(FNV_OFFSET, data)
  }

  /** Published test values of the 64-bit FNV-1a hash: the empty string and "a". */
  lemma {:induction false} HashVectors()
    ensures Hash([]) == 0xcbf2_9ce4_8422_2325 && Hash([97]) == 0xaf63_dc4c_8601_ec8c
  {
    hide Xor;
    assert [97][..0] == [];
    assert Fnv(FNV_OFFSET, []) == FNV_OFFSET;
    FirstMix();
  }

  lemma {:induction false} FirstMix()
    ensures Xor(0xcbf2_9ce4_8422_2325, 97) == 0xcbf2_9ce4_8422_2344
  {
    assert Pow2(7) == 128;
    XorLow(0xcbf2_9ce4_8422_2325 / 128, 0x25, 97, 7);
    assert Xor(0x25, 97) == 0x44;
  }

  /** Only the low bits change where the other operand is small. */
  lemma {:induction false} XorLow(high: nat, low: nat, b: nat, k: nat)
    requires low < Pow2(k) && b < Pow2(k)
    ensures Xor(Pow2(k) * high + low, b) == Pow2(k) * high + Xor(low, b)
  {
    hide Xor;
    if k == 0 {
      XorNothing(high);
      XorZero();
    } else {
      var h := Pow2(k - 1) * high;
      XorLow(high, low / 2, b / 2, k - 1);
      assert Pow2(k) * high == 2 * h;
      Halved(h, low, b);
      XorSplit(2 * h + low, b);
      XorSplit(low, b);
    }
  }

  lemma Halved(h: nat, low: nat, b: nat)
    ensures (2 * h + low) / 2 == h + low / 2 && (2 * h + low + b) % 2 == (low + b) % 2
  {
  }

  lemma {:induction false} XorSplit(a: nat, b: nat)
    ensures Xor(a, b) == (a + b) % 2 + 2 * Xor(a / 2, b / 2)
  {
    if a == 0 && b == 0 {
      XorZero();
    }
  }

  lemma {:induction false} XorNothing(a: nat)
    ensures Xor(a, 0) == a
  {
    if a > 0 {
      XorNothing(a / 2);
    }
  }

  method HashLoop(data: bytes) returns (h: nat)
    ensures h == Hash(data) && h < RING
  {
    h := FNV_OFFSET;
    for i := 0 to |data|
      invariant h == Fnv(FNV_OFFSET, data[..i])
    {
      assert data[..i + 1][..i] == data[..i];
      h := Xor(h, data[i]) * FNV_PRIME % RING;
    }
    assert data[..|data|] == data;
  }

  /** What is hashed to place a virtual node. */
  function Label(address: bytes, i: nat): bytes {
    address + Raw("#") + Digits(i)
  }

  function VnodeHash(b: Backend, i: nat): (h: nat)
    ensures h < RING
  {
    Hash(Label(b.address, i))
  }

  /** No two virtual nodes are placed by the same label, whatever the addresses contain. */
  lemma {:induction false} LabelsDiffer(a: bytes, i: nat, b: bytes, j: nat)
    requires Label(a, i) == Label(b, j)
    ensures a == b && i == j
  {
    HttpText.DigitsRead(i);
    HttpText.DigitsRead(j);
    SameSplit(a, Digits(i), b, Digits(j));
  }

  /** A last number sign splits in one way. */
  lemma SameSplit(a: bytes, x: bytes, b: bytes, y: bytes)
    requires a + Raw("#") + x == b + Raw("#") + y && 35 !in x && 35 !in y
    ensures a == b && x == y
  {
    var s := a + Raw("#") + x;
    assert s[|a|] == 35 && s[|b|] == 35;
    assert forall k | |a| < k < |s| :: s[k] == x[k - |a| - 1];
    assert forall k | |b| < k < |s| :: s[k] == y[k - |b| - 1];
    assert a == s[..|a|] && x == s[|a| + 1..] && y == s[|b| + 1..];
  }

  // ----- Consistent hashing -----

  /** Halve the range until the first node not below h is found. */
  method BinarySearch<B>(ring: seq<Node<B>>, h: nat) returns (i: nat)
    requires Sorted(ring)
    ensures i == LowerBound(ring, h)
  {
    var lo, hi := 0, |ring|;
    while lo < hi
      invariant 0 <= lo <= hi <= |ring|
      invariant forall j | 0 <= j < lo :: ring[j].hash < h
      invariant forall j | hi <= j < |ring| :: h <= ring[j].hash
    {
      var mid := (lo + hi) / 2;
      if ring[mid].hash < h {
        lo := mid + 1;
      } else {
        hi := mid;
      }
    }
    i := lo;
    LowerBoundUnique(ring, h, lo);
  }

  lemma LowerBoundUnique<B>(ring: seq<Node<B>>, h: nat, i: nat)
    requires i <= |ring| && (i < |ring| ==> h <= ring[i].hash)
    requires forall j | 0 <= j < i :: ring[j].hash < h
    ensures i == LowerBound(ring, h)
  {
  }

  class ConsistentHashLB {
    const backends: seq<Backend>
    const vnodes: nat
    var ring: seq<Node<Backend>>

    ghost predicate Valid()
      reads this
    {
      RingOf(ring, backends, vnodes, VnodeHash) && forall n | n in ring :: n.backend in backends
    }

    constructor (backends: seq<Backend>, vnodes: nat)
      ensures Valid() && this.backends == backends && this.vnodes == vnodes
    {
      this.backends := backends;
      this.vnodes := vnodes;
      var nodes: seq<Node<Backend>> := [];
      for k := 0 to |backends|
        invariant nodes == VirtualNodes(backends[..k], vnodes, VnodeHash)
      {
        var own: seq<Node<Backend>> := [];
        for i := 0 to vnodes
          invariant own == NodesOf(backends[k], i, VnodeHash)
        {
          var h := HashLoop(Label(backends[k].address, i));
          own := own + [Node(h, backends[k])];
        }
        assert backends[..k + 1] == backends[..k] + [backends[k]];
        VirtualNodesSnoc(backends[..k], backends[k], vnodes, VnodeHash);
        nodes := nodes + own;
      }
      assert backends[..|backends|] == backends;
      ring := SortRing(nodes);
      new;
      forall n | n in ring
        ensures n.backend in backends
      {
        RingNodeIff(n, ring, backends, vnodes, VnodeHash);
      }
    }

    method Select(key: bytes) returns (b: Backend?)
      requires Valid()
      modifies backends
      ensures match HashRing.Select(ring, old(Up(backends)), Hash(key))
              case None => b == null
              case Some(x) => b == x && x in backends && x.active == old(x.active) + 1
      ensures forall x | x in backends && x != b :: x.active == old(x.active)
      ensures forall x | x in backends :: x.healthy == old(x.healthy)
    {
      if |ring| == 0 {
        return null;
      }
      var h := HashLoop(key);
      var it := BinarySearch(ring, h);
      WrapStart(ring, it, Up(backends));
      if it == |ring| {
        it := 0;
      }
      b := Scan(it);
    }

    /** One turn round the ring from `start`, taking the first healthy backend met. */
    method Scan(start: nat) returns (b: Backend?)
      requires Valid() && start < |ring|
      modifies backends
      ensures match First(From(ring, start), old(Up(backends)))
              case None => b == null
              case Some(x) => b == x && x in backends && x.active == old(x.active) + 1
      ensures forall x | x in backends && x != b :: x.active == old(x.active)
      ensures forall x | x in backends :: x.healthy == old(x.healthy)
    {
      var it, first := start, true;
      ghost var k, turn, up := 0, From(ring, start), Up(backends);
      while first || it != start
        invariant 0 <= k <= |ring| && it == (if start + k < |ring| then start + k else start + k - |ring|)
        invariant first ==> k == 0
        invariant !first ==> k > 0
        invariant First(turn, up) == First(turn[k..], up)
        invariant forall x | x in backends :: x.active == old(x.active) && x.healthy == old(x.healthy)
        decreases |ring| - k
      {
        var node := ring[it];
        assert turn[k] == node && node in ring;
        if node.backend.healthy {
          node.backend.active := node.backend.active + 1;
          return node.backend;
        }
        assert turn[k..][1..] == turn[k + 1..];
        it := it + 1;
        if it == |ring| {
          it := 0;
        }
        k, first := k + 1, false;
      }
      return null;
    }
  }

  lemma {:induction false} VirtualNodesSnoc<B>(backends: seq<B>, b: B, vnodes: nat, hash: (B, nat) -> nat)
    ensures VirtualNodes(backends + [b], vnodes, hash) == VirtualNodes(backends, vnodes, hash) + NodesOf(b, vnodes, hash)
    decreases |backends|
  {
    if backends == [] {
      assert backends + [b] == [b] && [b][1..] == [];
      assert VirtualNodes<B>([], vnodes, hash) == [];
    } else {
      assert (backends + [b])[1..] == backends[1..] + [b];
      VirtualNodesSnoc(backends[1..], b, vnodes, hash);
    }
  }

  lemma WrapStart<B>(ring: seq<Node<B>>, it: nat, up: set<B>)
    requires it <= |ring|
    ensures it == |ring| ==> From(ring, it) == From(ring, 0)
  {
  }

  // ----- Round robin -----

  ghost function Health(backends: seq<Backend>): (h: seq<bool>)
    reads backends
    ensures |h| == |backends| && forall i | 0 <= i < |h| :: h[i] == backends[i].healthy
  {
    seq(|backends|, i requires 0 <= i < |backends| reads backends => backends[i].healthy)
  }

  class RoundRobinLB {
    const backends: seq<Backend>
    var counter: nat

    constructor (backends: seq<Backend>)
      ensures this.backends == backends && counter == 0
    {
      this.backends := backends;
      counter := 0;
    }

    method Select() returns (b: Backend?)
      modifies this, backends
      ensures backends == [] ==> b == null && counter == old(counter)
      ensures backends != [] ==>
                var (pick, next) := Spin(old(Health(backends)), old(counter), |backends|);
                && counter == next
                && (if pick.None? then b == null
                    else pick.value < |backends| && b == backends[pick.value] && b.active == old(backends[pick.value].active) + 1)
      ensures forall x | x in backends && x != b :: x.active == old(x.active)
      ensures forall x | x in backends :: x.healthy == old(x.healthy)
    {
      if |backends| == 0 {
        return null;
      }
      ghost var health := Health(backends);
      for i := 0 to |backends|
        invariant Spin(health, counter, |backends| - i) == Spin(health, old(counter), |backends|)
        invariant forall x | x in backends :: x.active == old(x.active) && x.healthy == old(x.healthy)
      {
        var index := counter % |backends|;
        counter := counter + 1;
        assert health[index] == backends[index].healthy;
        if backends[index].healthy {
          backends[index].active := backends[index].active + 1;
          return backends[index];
        }
      }
      return null;
    }
  }

  // ----- Least connections -----

  ghost function Loads(backends: seq<Backend>): (l: seq<Load>)
    reads backends
    ensures |l| == |backends| && forall i | 0 <= i < |l| :: l[i] == Load(backends[i].healthy, backends[i].active)
  {
    seq(|backends|, i requires 0 <= i < |backends| reads backends => Load(backends[i].healthy, backends[i].active))
  }

  class LeastConnectionsLB {
    const backends: seq<Backend>

    constructor (backends: seq<Backend>)
      ensures this.backends == backends
    {
      this.backends := backends;
    }

    method Select() returns (b: Backend?, ghost p: nat)
      modifies backends
      ensures b == null <==> forall x | x in backends && old(x.healthy) :: INT_MAX <= old(x.active)
      ensures b != null ==> IsLeast(old(Loads(backends)), p) && b == backends[p] && b.active == old(backends[p].active) + 1
      ensures forall x | x in backends && x != b :: x.active == old(x.active)
      ensures forall x | x in backends :: x.healthy == old(x.healthy)
    {
      b, p := null, 0;
      var least := INT_MAX;
      for i := 0 to |backends|
        invariant least <= INT_MAX && (b == null <==> least == INT_MAX)
        invariant forall k | 0 <= k < i && backends[k].healthy :: least <= backends[k].active
        invariant b != null ==> p < i && b == backends[p] && b.healthy && b.active == least
        invariant b != null ==> forall k | 0 <= k < p && backends[k].healthy :: least < backends[k].active
      {
        if backends[i].healthy && backends[i].active < least {
          least := backends[i].active;
          b, p := backends[i], i;
        }
      }
      if b != null {
        assert IsLeast(Loads(backends), p);
        b.active := b.active + 1;
      }
    }
  }
}
