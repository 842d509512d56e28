/**
 * The arena of include/arena_allocator.hpp as a state machine over byte addresses. What malloc returns is an
 * input of the step; all that is assumed of it is that it gives memory inside the 64-bit address space that
 * does not overlap a block the arena still holds.
 */
module Arena {
  import opened Common
  import Bits

  const ADDRESSES: nat := 0x1_0000_0000_0000_0000

  datatype Span = Span(at: nat, size: nat)

  predicate Apart(a: Span, b: Span) {
    a.at + a.size <= b.at || b.at + b.size <= a.at
  }

  predicate Inside(a: Span, b: Span) {
    b.at <= a.at && a.at + a.size <= b.at + b.size
  }

  ghost predicate PowerOfTwo(a: nat) {
    exists k: nat :: a == Pow2(k)
  }

  // ----- Rounding up with a mask -----

  function And(x: nat, y: nat): nat {
    if x == 0 || y == 0 then 0 else 2 * And(x / 2, y / 2) + (x % 2) * (y % 2)
  }

  /** (x + a - 1) & ~(a - 1) on 64-bit words. */
  function AlignUp(x: nat, a: nat): nat
    requires 0 < a <= ADDRESSES
  {
    And((x + a - 1) % ADDRESSES, ADDRESSES - a)
  }

  lemma {:induction false} AndOnes(x: nat, w: nat)
    requires x < Pow2(w)
    ensures And(x, Pow2(w) - 1) == x
  {
    if x > 0 {
      assert (Pow2(w) - 1) / 2 == Pow2(w - 1) - 1;
      AndOnes(x / 2, w - 1);
    }
  }

  lemma HalveMod(x: nat, p: nat)
    requires p > 0
    ensures 2 * (x / 2 - (x / 2) % p) == x - x % (2 * p)
  {
    var q, r := (x / 2) / p, (x / 2) % p;
    assert x == 2 * (q * p + r) + x % 2;
    assert x == q * (2 * p) + (2 * r + x % 2);
    Bits.DivMod(q, 2 * p, 2 * r + x % 2);
  }

  /** Masking with 2^w - 2^k clears the low k bits. */
  lemma {:induction false} AndMask(x: nat, w: nat, k: nat)
    requires x < Pow2(w) && k <= w
    ensures Pow2(k) <= Pow2(w) && And(x, Pow2(w) - Pow2(k)) == x - x % Pow2(k)
    decreases k
  {
    if k == 0 {
      AndOnes(x, w);
    } else {
      AndMask(x / 2, w - 1, k - 1);
      HalveMod(x, Pow2(k - 1));
    }
  }

  lemma {:induction false} Width()
    ensures ADDRESSES == Pow2(64)
  {
    assert Pow2(8) == 256;
    assert Pow2(16) == 65536;
    assert Pow2(24) == 0x100_0000;
    assert Pow2(32) == 0x1_0000_0000;
    assert Pow2(40) == 0x100_0000_0000;
    assert Pow2(48) == 0x1_0000_0000_0000;
    assert Pow2(56) == 0x100_0000_0000_0000;
  }

  lemma {:induction false} ExponentBound(k: nat)
    requires Pow2(k) <= Pow2(64)
    ensures k <= 64
  {
    if k > 64 {
      Grows(64, k);
    }
  }

  lemma {:induction false} Grows(j: nat, k: nat)
    requires j < k
    ensures Pow2(j) < Pow2(k)
  {
    if j + 1 < k {
      Grows(j, k - 1);
    }
  }

  lemma {:induction false} AlignUpMasks(x: nat, a: nat, k: nat)
    requires a == Pow2(k) && x + a <= ADDRESSES
    ensures 0 < a && AlignUp(x, a) == ClearLow(x + a - 1, a)
  {
    hide And, Pow2;
    Width();
    ExponentBound(k);
    AndMask(x + a - 1, 64, k);
  }

  function ClearLow(y: nat, a: nat): (r: nat)
    requires a > 0
    ensures r % a == 0 && r <= y < r + a
  {
    assert y - y % a == y / a * a + 0;
    Bits.DivMod(y / a, a, 0);
    y - y % a
  }

  /** The mask rounds up to the next multiple. */
  lemma {:induction false} AlignUpCorrect(x: nat, a: nat)
    requires PowerOfTwo(a) && x + a <= ADDRESSES
    ensures 0 < a && AlignUp(x, a) % a == 0 && x <= AlignUp(x, a) < x + a
  {
    hide AlignUp, Pow2;
    var k: nat :| a == Pow2(k);
    AlignUpMasks(x, a, k);
  }

  // ----- The allocator -----

  datatype State = State(blocks: seq<Span>, current: nat, end: nat, total: nat)

  datatype Op =
    | Allocate(size: nat, alignment: nat, block: nat)
    | Reset

  function WithBlock(s: State, at: nat, size: nat): State {
    State(s.blocks + [Span(at, size)], at, at + size, s.total + size)
  }

  function Initial(blockSize: nat, at: nat): State {
    WithBlock(State([], 0, 0, 0), at, blockSize)
  }

  predicate Fits(s: State, size: nat, alignment: nat)
    requires 0 < alignment <= ADDRESSES
  {
    AlignUp(s.current, alignment) + size <= s.end
  }

  function NewSize(blockSize: nat, size: nat, alignment: nat): nat {
    if size + alignment > blockSize then size + alignment else blockSize
  }

  function Ready(blockSize: nat, s: State, op: Op): State
    requires op.Allocate? && 0 < op.alignment <= ADDRESSES
  {
    if Fits(s, op.size, op.alignment) then s
    else WithBlock(s, op.block, NewSize(blockSize, op.size, op.alignment))
  }

  function Place(blockSize: nat, s: State, op: Op): Span
    requires op.Allocate? && 0 < op.alignment <= ADDRESSES
  {
    Span(AlignUp(Ready(blockSize, s, op).current, op.alignment), op.size)
  }

  function Step(blockSize: nat, s: State, op: Op): State
    requires op.Allocate? ==> 0 < op.alignment <= ADDRESSES
  {
    match op
    case Allocate(size, alignment, _) =>
      Ready(blockSize, s, op).(current := Place(blockSize, s, op).at + size)
    case Reset =>
      if s.blocks == [] then s
      else State(s.blocks[..1], s.blocks[0].at, s.blocks[0].at + blockSize, blockSize)
  }

  /** The caller asks for a power-of-two alignment and stays inside the address space; malloc keeps its promise. */
  ghost predicate Allowed(blockSize: nat, s: State, op: Op) {
    op.Allocate? ==>
      && PowerOfTwo(op.alignment)
      && s.current + op.size + op.alignment <= ADDRESSES
      && 0 < op.alignment <= ADDRESSES
      && (!Fits(s, op.size, op.alignment) ==>
            var block := Span(op.block, NewSize(blockSize, op.size, op.alignment));
            block.at + block.size <= ADDRESSES && forall b | b in s.blocks :: Apart(block, b))
  }

  function SumSizes(blocks: seq<Span>): nat {
    if blocks == [] then 0 else SumSizes(blocks[..|blocks| - 1]) + blocks[|blocks| - 1].size
  }

  ghost predicate BlocksApart(blocks: seq<Span>) {
    forall i, j | 0 <= i < j < |blocks| :: Apart(blocks[i], blocks[j])
  }

  function Last(s: State): Span
    requires s.blocks != []
  {
    s.blocks[|s.blocks| - 1]
  }

  ghost predicate Valid(blockSize: nat, s: State) {
    && s.blocks != []
    && BlocksApart(s.blocks)
    && s.blocks[0].size == blockSize
    && (forall b | b in s.blocks :: blockSize <= b.size && b.at + b.size <= ADDRESSES)
    && Last(s).at <= s.current <= s.end == Last(s).at + Last(s).size
    && s.total == SumSizes(s.blocks)
  }

  /** A live span lies in an earlier block, or in the last one below the bump pointer. */
  ghost predicate Held(s: State, x: Span) {
    exists i :: 0 <= i < |s.blocks| && Inside(x, s.blocks[i])
                && (i == |s.blocks| - 1 ==> x.at + x.size <= s.current)
  }

  ghost predicate AllHeld(s: State, live: seq<Span>) {
    && (forall x | x in live :: Held(s, x))
    && BlocksApart(live)
  }

  lemma {:induction false} InitialValid(blockSize: nat, at: nat)
    requires at + blockSize <= ADDRESSES
    ensures Valid(blockSize, Initial(blockSize, at)) && AllHeld(Initial(blockSize, at), [])
  {
  }

  lemma {:induction false} WithBlockValid(blockSize: nat, s: State, block: Span)
    requires Valid(blockSize, s) && block.at + block.size <= ADDRESSES && blockSize <= block.size
    requires forall b | b in s.blocks :: Apart(block, b)
    ensures Valid(blockSize, WithBlock(s, block.at, block.size))
  {
    var t := WithBlock(s, block.at, block.size);
    assert t.blocks[..|t.blocks| - 1] == s.blocks;
    forall i, j | 0 <= i < j < |t.blocks|
      ensures Apart(t.blocks[i], t.blocks[j])
    {
      assert t.blocks[i] in s.blocks;
    }
  }

  lemma {:induction false} WithBlockHeld(s: State, block: Span, x: Span)
    requires Held(s, x) && s.blocks != []
    ensures Held(WithBlock(s, block.at, block.size), x)
  {
    var i :| 0 <= i < |s.blocks| && Inside(x, s.blocks[i]) && (i == |s.blocks| - 1 ==> x.at + x.size <= s.current);
    assert Inside(x, WithBlock(s, block.at, block.size).blocks[i]);
  }

  lemma {:induction false} ReadyFacts(blockSize: nat, s: State, op: Op, live: seq<Span>)
    requires Valid(blockSize, s) && op.Allocate? && Allowed(blockSize, s, op) && AllHeld(s, live)
    ensures var t := Ready(blockSize, s, op);
            && Valid(blockSize, t) && AllHeld(t, live)
            && t.current + op.alignment <= ADDRESSES
            && AlignUp(t.current, op.alignment) + op.size <= t.end
  {
    hide AlignUp, BlocksApart, Held;
    if !Fits(s, op.size, op.alignment) {
      var block := Span(op.block, NewSize(blockSize, op.size, op.alignment));
      WithBlockValid(blockSize, s, block);
      forall x | x in live
        ensures Held(WithBlock(s, block.at, block.size), x)
      {
        WithBlockHeld(s, block, x);
      }
      AlignUpCorrect(block.at, op.alignment);
    }
  }

  /** A span placed at or above the bump pointer overlaps nothing that is held. */
  lemma {:induction false} AboveIsApart(blockSize: nat, s: State, x: Span, y: Span)
    requires Valid(blockSize, s) && Held(s, x) && s.current <= y.at && y.at + y.size <= s.end
    ensures Apart(x, y)
  {
    var n := |s.blocks| - 1;
    var i :| 0 <= i < |s.blocks| && Inside(x, s.blocks[i]) && (i == n ==> x.at + x.size <= s.current);
    if i < n {
      assert Apart(s.blocks[i], s.blocks[n]);
    }
  }

  /** One allocation: aligned, inside the last block, apart from everything live. */
  lemma {:induction false} AllocateSafe(blockSize: nat, s: State, op: Op, live: seq<Span>)
    requires Valid(blockSize, s) && op.Allocate? && Allowed(blockSize, s, op) && AllHeld(s, live)
    ensures var t, p := Step(blockSize, s, op), Place(blockSize, s, op);
            && Valid(blockSize, t) && AllHeld(t, live + [p])
            && p.at % op.alignment == 0
            && Inside(p, Last(t))
            && forall x | x in live :: Apart(x, p)
  {
    hide AlignUp, And, Held, BlocksApart;
    ReadyFacts(blockSize, s, op, live);
    var r, t, p := Ready(blockSize, s, op), Step(blockSize, s, op), Place(blockSize, s, op);
    AlignUpCorrect(r.current, op.alignment);
    forall x | x in live
      ensures Held(t, x) && Apart(x, p)
    {
      AboveIsApart(blockSize, r, x, p);
      BumpHeld(r, t.current, x);
    }
    PlacedHeld(t, p);
    ApartSnoc(live, p);
  }

  lemma BumpHeld(s: State, current: nat, x: Span)
    requires Held(s, x) && s.current <= current
    ensures Held(s.(current := current), x)
  {
    var i :| 0 <= i < |s.blocks| && Inside(x, s.blocks[i]) && (i == |s.blocks| - 1 ==> x.at + x.size <= s.current);
    assert Inside(x, s.(current := current).blocks[i]);
  }

  lemma PlacedHeld(s: State, p: Span)
    requires s.blocks != [] && Inside(p, Last(s)) && p.at + p.size <= s.current
    ensures Held(s, p)
  {
  }

  lemma ApartSnoc(live: seq<Span>, p: Span)
    requires BlocksApart(live) && forall x | x in live :: Apart(x, p)
    ensures BlocksApart(live + [p])
  {
    var l := live + [p];
    forall i, j | 0 <= i < j < |l|
      ensures Apart(l[i], l[j])
    {
      assert l[i] in live;
    }
  }

  lemma {:induction false} ResetSafe(blockSize: nat, s: State)
    requires Valid(blockSize, s)
    ensures Valid(blockSize, Step(blockSize, s, Reset))
    ensures Step(blockSize, s, Reset) == Initial(blockSize, s.blocks[0].at)
  {
    assert SumSizes(s.blocks[..1]) == SumSizes([]) + blockSize;
    assert s.blocks[..1] == [s.blocks[0]];
    assert s.blocks[0] == Span(s.blocks[0].at, blockSize);
  }

  /** The least multiple of a at or above x. */
  ghost predicate NextMultiple(x: nat, a: nat, r: nat) {
    0 < a && r % a == 0 && x <= r < x + a
  }

  /** The aligned address in a state's last block, if the request fits there. */
  ghost predicate HasRoom(s: State, size: nat, alignment: nat) {
    exists r: nat :: NextMultiple(s.current, alignment, r) && r + size <= s.end
  }

  lemma {:induction false} MultipleUnique(x: nat, a: nat, r: nat, t: nat)
    requires NextMultiple(x, a, r) && NextMultiple(x, a, t)
    ensures r == t
  {
    if r < t {
      Spaced(a, r, t);
    } else if t < r {
      Spaced(a, t, r);
    }
  }

  /** Different multiples of a are at least a apart. */
  lemma Spaced(a: nat, r: nat, t: nat)
    requires 0 < a && r % a == 0 && t % a == 0 && r < t
    ensures r + a <= t
  {
    Times(a, t / a - r / a);
  }

  lemma Times(a: nat, k: int)
    ensures k >= 1 ==> k * a >= a
    ensures k <= 0 ==> k * a <= 0
  {
  }

  /** A request is placed at the next aligned address, and a block is taken exactly when it does not fit there. */
  lemma {:induction false} PlaceTight(blockSize: nat, s: State, op: Op)
    requires Valid(blockSize, s) && op.Allocate? && Allowed(blockSize, s, op)
    ensures var t, p := Step(blockSize, s, op), Place(blockSize, s, op);
            && t.current == p.at + op.size
            && (HasRoom(s, op.size, op.alignment) ==>
                  NextMultiple(s.current, op.alignment, p.at) && t.blocks == s.blocks && t.total == s.total)
            && (!HasRoom(s, op.size, op.alignment) ==>
                  var size := if blockSize < op.size + op.alignment then op.size + op.alignment else blockSize;
                  && t.blocks == s.blocks + [Span(op.block, size)] && t.total == s.total + size
                  && NextMultiple(op.block, op.alignment, p.at))
  {
    hide AlignUp;
    AlignUpCorrect(s.current, op.alignment);
    var r := AlignUp(s.current, op.alignment);
    if HasRoom(s, op.size, op.alignment) {
      var x: nat :| NextMultiple(s.current, op.alignment, x) && x + op.size <= s.end;
      MultipleUnique(s.current, op.alignment, r, x);
    } else {
      assert NextMultiple(s.current, op.alignment, r);
      AlignUpCorrect(op.block, op.alignment);
    }
  }

  // ----- Runs -----

  function Run(blockSize: nat, at: nat, ops: seq<Op>): State
    requires forall op | op in ops && op.Allocate? :: 0 < op.alignment <= ADDRESSES
  {
    if ops == [] then Initial(blockSize, at)
    else Step(blockSize, Run(blockSize, at, ops[..|ops| - 1]), ops[|ops| - 1])
  }

  /** What the caller has been given since the last reset. */
  function Live(blockSize: nat, at: nat, ops: seq<Op>): seq<Span>
    requires forall op | op in ops && op.Allocate? :: 0 < op.alignment <= ADDRESSES
  {
    if ops == [] then []
    else
      var before, op := ops[..|ops| - 1], ops[|ops| - 1];
      if op.Reset? then [] else Live(blockSize, at, before) + [Place(blockSize, Run(blockSize, at, before), op)]
  }

  /** The requests since the last reset. */
  function Requests(ops: seq<Op>): seq<Op> {
    if ops == [] || ops[|ops| - 1].Reset? then [] else Requests(ops[..|ops| - 1]) + [ops[|ops| - 1]]
  }

  predicate Serves(x: Span, op: Op) {
    op.Allocate? && op.alignment > 0 && x.at % op.alignment == 0 && x.size == op.size
  }

  /** Every request since the last reset was answered with memory of its size and alignment. */
  lemma {:induction false} RequestsServed(blockSize: nat, at: nat, ops: seq<Op>)
    requires RunAllowed(blockSize, at, ops)
    ensures |Live(blockSize, at, ops)| == |Requests(ops)|
    ensures forall i | 0 <= i < |Requests(ops)| :: Serves(Live(blockSize, at, ops)[i], Requests(ops)[i])
    decreases |ops|
  {
    hide Allowed, Valid, AllHeld, Run, Step;
    if ops != [] && ops[|ops| - 1].Allocate? {
      var before, op := ops[..|ops| - 1], ops[|ops| - 1];
      RequestsServed(blockSize, at, before);
      LiveNeverOverlap(blockSize, at, before);
      PlaceServes(blockSize, Run(blockSize, at, before), op, Live(blockSize, at, before));
    }
  }

  lemma {:induction false} PlaceServes(blockSize: nat, s: State, op: Op, live: seq<Span>)
    requires Valid(blockSize, s) && op.Allocate? && Allowed(blockSize, s, op) && AllHeld(s, live)
    ensures Serves(Place(blockSize, s, op), op)
  {
    AllocateSafe(blockSize, s, op, live);
  }

  ghost predicate RunAllowed(blockSize: nat, at: nat, ops: seq<Op>) {
    && (forall op | op in ops && op.Allocate? :: 0 < op.alignment <= ADDRESSES)
    && at + blockSize <= ADDRESSES
    && (ops != [] ==>
          && RunAllowed(blockSize, at, ops[..|ops| - 1])
          && Allowed(blockSize, Run(blockSize, at, ops[..|ops| - 1]), ops[|ops| - 1]))
  }

  /** In every run the live allocations lie inside the arena's blocks and no two of them overlap. */
  lemma {:induction false} LiveNeverOverlap(blockSize: nat, at: nat, ops: seq<Op>)
    requires RunAllowed(blockSize, at, ops)
    ensures Valid(blockSize, Run(blockSize, at, ops))
    ensures AllHeld(Run(blockSize, at, ops), Live(blockSize, at, ops))
    decreases |ops|
  {
    hide Step, Place, Allowed, Valid, AllHeld, Initial;
    if ops == [] {
      InitialValid(blockSize, at);
    } else {
      var before, op := ops[..|ops| - 1], ops[|ops| - 1];
      var s := Run(blockSize, at, before);
      LiveNeverOverlap(blockSize, at, before);
      if op.Reset? {
        ResetHeld(blockSize, s);
      } else {
        AllocateSafe(blockSize, s, op, Live(blockSize, at, before));
      }
    }
  }

  lemma {:induction false} ResetHeld(blockSize: nat, s: State)
    requires Valid(blockSize, s)
    ensures Valid(blockSize, Step(blockSize, s, Reset)) && AllHeld(Step(blockSize, s, Reset), [])
  {
    ResetSafe(blockSize, s);
  }

  // ----- Statistics -----

  /** The estimate of bytes in use: whole blocks at the default size plus the used part of the last one. */
  function BytesUsed(blockSize: nat, s: State): int {
    if s.blocks == [] then 0
    else (|s.blocks| - 1) * blockSize + (s.current - Last(s).at)
  }

  lemma {:induction false} ManyBlocks(blockSize: nat, blocks: seq<Span>)
    requires forall b | b in blocks :: blockSize <= b.size
    ensures |blocks| * blockSize <= SumSizes(blocks)
  {
    if blocks != [] {
      var n := |blocks| - 1;
      ManyBlocks(blockSize, blocks[..n]);
      assert blocks[n] in blocks;
      assert |blocks| * blockSize == n * blockSize + blockSize;
    }
  }

  lemma {:induction false} EqualBlocks(blockSize: nat, blocks: seq<Span>)
    requires forall b | b in blocks :: b.size == blockSize
    ensures SumSizes(blocks) == |blocks| * blockSize
  {
    if blocks != [] {
      var n := |blocks| - 1;
      EqualBlocks(blockSize, blocks[..n]);
      assert blocks[n] in blocks;
      assert |blocks| * blockSize == n * blockSize + blockSize;
    }
  }

  /** While every block has the default size the estimate is exact: all that was taken, less what is free at the end. */
  lemma {:induction false} UsedExact(blockSize: nat, s: State)
    requires Valid(blockSize, s) && forall b | b in s.blocks :: b.size == blockSize
    ensures BytesUsed(blockSize, s) == s.total - (s.end - s.current)
  {
    EqualBlocks(blockSize, s.blocks);
    var n := |s.blocks| - 1;
    assert |s.blocks| * blockSize == n * blockSize + blockSize;
    assert Last(s) in s.blocks;
  }

  /** The estimate never exceeds what was taken from malloc. */
  lemma {:induction false} UsedWithinTotal(blockSize: nat, s: State)
    requires Valid(blockSize, s)
    ensures 0 <= BytesUsed(blockSize, s) <= s.total
  {
    var n := |s.blocks| - 1;
    ManyBlocks(blockSize, s.blocks[..n]);
    assert n * blockSize >= 0;
  }
}
