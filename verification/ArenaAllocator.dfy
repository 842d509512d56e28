/** The arena object: a vector of block pointers and two bump pointers, refining module Arena. */
module ArenaAllocator {
  import opened Arena

  class Allocator {
    const blockSize: nat
    var blocks: seq<nat>
    var current: nat
    var end: nat
    var total: nat
    ghost var sizes: seq<nat>
    ghost var live: seq<Span>

    ghost function Abs(): State
      requires |sizes| == |blocks|
      reads this
    {
      State(seq(|blocks|, i requires 0 <= i < |blocks| && |sizes| == |blocks| reads this => Span(blocks[i], sizes[i])),
            current, end, total)
    }

    /** The blocks are sound, and what was handed out since the last reset is held without overlap. */
    ghost predicate Sound()
      reads this
    {
      |sizes| == |blocks| && Valid(blockSize, Abs()) && AllHeld(Abs(), live)
    }

    constructor (blockSize: nat, at: nat)
      requires at + blockSize <= ADDRESSES
      ensures Sound() && this.blockSize == blockSize && Abs() == Initial(blockSize, at) && live == []
    {
      this.blockSize := blockSize;
      blocks, current, end, total := [], 0, 0, 0;
      sizes, live := [], [];
      new;
      AllocateBlock(at, blockSize);
      InitialValid(blockSize, at);
    }

    method AllocateBlock(at: nat, size: nat)
      requires |sizes| == |blocks|
      modifies this
      ensures |sizes| == |blocks| && live == old(live)
      ensures Abs() == WithBlock(old(Abs()), at, size)
    {
      blocks := blocks + [at];
      sizes := sizes + [size];
      current := at;
      end := at + size;
      total := total + size;
    }

    method Allocate(size: nat, alignment: nat, block: nat) returns (p: nat)
      requires Sound() && Allowed(blockSize, Abs(), Op.Allocate(size, alignment, block))
      modifies this
      ensures Sound() && alignment > 0 && p % alignment == 0
      ensures live == old(live) + [Span(p, size)]
      ensures forall x | x in old(live) :: Apart(x, Span(p, size))
      ensures Abs() == Step(blockSize, old(Abs()), Op.Allocate(size, alignment, block))
    {
      hide AlignUp, Valid, AllHeld;
      ghost var op := Op.Allocate(size, alignment, block);
      AllocateSafe(blockSize, Abs(), op, live);
      p := AlignUp(current, alignment);
      if p + size > end {
        var blockBytes := if size + alignment > blockSize then size + alignment else blockSize;
        AllocateBlock(block, blockBytes);
        p := AlignUp(current, alignment);
      }
      current := p + size;
      live := live + [Span(p, size)];
      assert Abs().blocks == Step(blockSize, old(Abs()), op).blocks;
    }

    method Reset()
      requires Sound()
      modifies this
      ensures Sound() && live == [] && Abs() == Initial(blockSize, old(blocks[0]))
    {
      ResetHeld(blockSize, Abs());
      ResetSafe(blockSize, Abs());
      if |blocks| == 0 {
        return;
      }
      var first := blocks[0];
      blocks := blocks[..1];
      sizes := sizes[..1];
      current := first;
      end := first + blockSize;
      total := blockSize;
      live := [];
      assert Abs().blocks == Initial(blockSize, first).blocks;
    }

    /** The sum over full blocks, as the source's loop adds it up. */
    method Used() returns (used: nat)
      requires Sound()
      ensures used == BytesUsed(blockSize, Abs()) && used <= total
    {
      UsedWithinTotal(blockSize, Abs());
      used := 0;
      if |blocks| == 0 {
        return;
      }
      var i := 0;
      while i + 1 < |blocks|
        invariant 0 <= i < |blocks| && used == i * blockSize
      {
        used := used + blockSize;
        i := i + 1;
      }
      used := used + (current - blocks[|blocks| - 1]);
    }
  }
}
