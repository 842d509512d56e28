/**
 * The slab allocator of include/arena_allocator.hpp: an intrusive free list threaded through the nodes of
 * every slab. A node's link is meaningful only while the node is free; a live node's bytes belong to the caller.
 */
module Slab {

  class FreeNode {
    var next: FreeNode?

    constructor ()
    {
      next := null;
    }
  }

  function Head(chain: seq<FreeNode>): FreeNode? {
    if chain == [] then null else chain[0]
  }

  /** Following links from the first node visits exactly these nodes in this order. */
  ghost predicate Linked(chain: seq<FreeNode>, tail: FreeNode?)
    reads chain
  {
    forall i | 0 <= i < |chain| :: chain[i].next == Successor(chain, tail, i)
  }

  function Successor(chain: seq<FreeNode>, tail: FreeNode?, i: nat): FreeNode?
    requires i < |chain|
  {
    if i + 1 < |chain| then chain[i + 1] else tail
  }

  ghost predicate Once(chain: seq<FreeNode>) {
    forall i, j | 0 <= i < j < |chain| :: chain[i] != chain[j]
  }

  lemma {:induction false} LinkedAppend(a: seq<FreeNode>, b: seq<FreeNode>)
    requires Linked(a, Head(b)) && Linked(b, null)
    ensures Linked(a + b, null)
  {
    var c := a + b;
    forall i | 0 <= i < |c|
      ensures c[i].next == Successor(c, null, i)
    {
      if i < |a| {
        assert c[i] == a[i];
      } else {
        assert c[i] == b[i - |a|];
      }
    }
  }

  /** The links determine the chain: no other list of nodes ends in null and starts at the same head. */
  lemma {:induction false} ChainUnique(a: seq<FreeNode>, b: seq<FreeNode>)
    requires Linked(a, null) && Linked(b, null) && Head(a) == Head(b)
    ensures a == b
  {
    if a != [] {
      LinkedTail(a);
      LinkedTail(b);
      assert Head(a[1..]) == Head(b[1..]);
      ChainUnique(a[1..], b[1..]);
      assert a == [a[0]] + a[1..] && b == [b[0]] + b[1..];
    }
  }

  lemma {:induction false} LinkedTail(a: seq<FreeNode>)
    requires Linked(a, null) && a != []
    ensures Linked(a[1..], null) && a[0].next == Head(a[1..])
  {
    var t := a[1..];
    forall i | 0 <= i < |t|
      ensures t[i].next == Successor(t, null, i)
    {
      assert t[i] == a[i + 1];
    }
  }

  ghost function Nodes(slabs: seq<seq<FreeNode>>): set<FreeNode> {
    set s, n | s in slabs && n in s :: n
  }

  /** Free and live nodes partition the slabs. */
  ghost predicate Partition(free: seq<FreeNode>, live: set<FreeNode>, slabs: seq<seq<FreeNode>>, capacity: nat) {
    && Once(free)
    && (forall n | n in free :: n !in live)
    && (forall n | n in free :: n in Nodes(slabs))
    && (forall n | n in Nodes(slabs) :: n in free || n in live)
    && live <= Nodes(slabs)
    && |free| + |live| == |slabs| * capacity
  }

  lemma OnceAppend(a: seq<FreeNode>, b: seq<FreeNode>)
    requires Once(a) && Once(b) && forall n | n in a :: n !in b
    ensures Once(a + b)
  {
    forall i, j | 0 <= i < j < |a + b|
      ensures (a + b)[i] != (a + b)[j]
    {
      if i < |a| {
        assert a[i] in a;
      }
    }
  }

  lemma NodesSnoc(slabs: seq<seq<FreeNode>>, slab: seq<FreeNode>)
    ensures forall n :: n in Nodes(slabs + [slab]) <==> n in Nodes(slabs) || n in slab
  {
  }

  lemma PartitionGrow(free: seq<FreeNode>, live: set<FreeNode>, slabs: seq<seq<FreeNode>>, capacity: nat, slab: seq<FreeNode>)
    requires Partition(free, live, slabs, capacity)
    requires Once(slab) && |slab| == capacity && forall n | n in slab :: n !in free && n !in live
    ensures Partition(slab + free, live, slabs + [slab], capacity)
  {
    OnceAppend(slab, free);
    NodesSnoc(slabs, slab);
    hide Nodes, Once;
    assert (|slabs| + 1) * capacity == |slabs| * capacity + capacity;
  }

  lemma PartitionPop(free: seq<FreeNode>, live: set<FreeNode>, slabs: seq<seq<FreeNode>>, capacity: nat)
    requires Partition(free, live, slabs, capacity) && free != []
    ensures Partition(free[1..], live + {free[0]}, slabs, capacity) && |live + {free[0]}| == |live| + 1
  {
    assert free == [free[0]] + free[1..];
  }

  lemma PartitionPush(free: seq<FreeNode>, live: set<FreeNode>, slabs: seq<seq<FreeNode>>, capacity: nat, node: FreeNode)
    requires Partition(free, live, slabs, capacity) && node in live
    ensures Partition([node] + free, live - {node}, slabs, capacity) && |live - {node}| + 1 == |live|
  {
  }

  class SlabAllocator {
    const slabCapacity: nat
    var slabs: seq<seq<FreeNode>>
    var freeHead: FreeNode?
    var allocatedCount: nat
    ghost var free: seq<FreeNode>
    ghost var live: set<FreeNode>

    /** Free and live nodes partition the slabs, and the counter is exact. */
    ghost predicate Valid()
      reads this, free
    {
      && 1 <= slabCapacity
      && freeHead == Head(free) && Linked(free, null)
      && Partition(free, live, slabs, slabCapacity)
      && allocatedCount == |live|
    }

    function Capacity(): (c: nat)
      requires Valid()
      reads this, free
      ensures c == |free| + allocatedCount
    {
      |slabs| * slabCapacity
    }

    constructor (slabCapacity: nat)
      requires 1 <= slabCapacity
      ensures Valid() && live == {} && fresh(free) && |free| == slabCapacity && this.slabCapacity == slabCapacity
    {
      this.slabCapacity := slabCapacity;
      slabs, freeHead, allocatedCount := [], null, 0;
      free, live := [], {};
      new;
      Grow();
    }

    /** Chain a new slab in front of the free list. */
    method Grow()
      requires Valid()
      modifies this
      ensures Valid() && live == old(live) && allocatedCount == old(allocatedCount)
      ensures |slabs| == |old(slabs)| + 1 && slabs[..|old(slabs)|] == old(slabs)
      ensures free == slabs[|old(slabs)|] + old(free)
      ensures fresh(slabs[|old(slabs)|]) && |slabs[|old(slabs)|]| == slabCapacity
    {
      var slab := NewSlab(slabCapacity);
      PartitionGrow(free, live, slabs, slabCapacity, slab);
      hide Partition;
      Chain(slab, freeHead);
      LinkedAppend(slab, free);
      slabs := slabs + [slab];
      freeHead := slab[0];
      free := slab + free;
    }

    /** Chain the nodes of a slab and end the chain at the old head. */
    static method Chain(slab: seq<FreeNode>, head: FreeNode?)
      requires slab != [] && Once(slab)
      modifies slab
      ensures Linked(slab, head)
    {
      var i := 0;
      while i < |slab| - 1
        invariant 0 <= i <= |slab| - 1
        invariant forall k | 0 <= k < i :: slab[k].next == Successor(slab, head, k)
      {
        slab[i].next := slab[i + 1];
        i := i + 1;
      }
      slab[|slab| - 1].next := head;
    }

    /** The malloc of one slab. */
    static method NewSlab(n: nat) returns (slab: seq<FreeNode>)
      ensures |slab| == n && fresh(slab) && Once(slab)
    {
      slab := [];
      while |slab| < n
        invariant |slab| <= n && fresh(slab) && Once(slab)
      {
        var node := new FreeNode();
        slab := slab + [node];
      }
    }

    lemma Unfree(node: FreeNode)
      requires Valid() && node in live
      ensures node !in free
    {
    }

    method Allocate() returns (node: FreeNode)
      requires Valid()
      modifies this
      ensures Valid() && node !in old(live) && live == old(live) + {node}
      ensures old(free) != [] ==> node == old(free)[0] && free == old(free)[1..] && slabs == old(slabs)
      ensures old(free) == [] ==> fresh(node) && |slabs| == |old(slabs)| + 1
    {
      hide Partition;
      if freeHead == null {
        Grow();
      }
      PartitionPop(free, live, slabs, slabCapacity);
      node := freeHead;
      freeHead := node.next;
      allocatedCount := allocatedCount + 1;
      live := live + {node};
      free := free[1..];
    }

    /** Freeing a live slot; the next allocation returns it again. */
    method Deallocate(node: FreeNode?)
      requires Valid() && (node != null ==> node in live)
      modifies this, node
      ensures Valid() && slabs == old(slabs)
      ensures node == null ==> live == old(live) && free == old(free)
      ensures node != null ==> live == old(live) - {node} && free == [node] + old(free)
    {
      if node == null {
        return;
      }
      PartitionPush(free, live, slabs, slabCapacity, node);
      Unfree(node);
      hide Partition;
      node.next := freeHead;
      freeHead := node;
      allocatedCount := allocatedCount - 1;
      live := live - {node};
      free := [node] + free;
    }

    /** Whatever a caller writes into a slot it holds, the free list is untouched. */
    method Store(node: FreeNode, bytes: FreeNode?)
      requires Valid() && node in live
      modifies node
      ensures Valid() && free == old(free) && live == old(live)
    {
      node.next := bytes;
    }
  }
}
