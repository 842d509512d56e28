/** The code table that src/http2.cpp contains, and what holds of it. */
module HuffmanTable {
  import opened Common
  import opened Bits
  import opened Huffman
  import opened HuffmanCorrect
  import opened HuffmanRuns

  type Row = r: seq<Code> | |r| == 16 witness seq(16, _ => Code(0, 0))

  const ROW0: Row := [
    Code(0x1ff8, 13), Code(0x7fffd8, 23), Code(0xfffffe2, 28), Code(0xfffffe3, 28),
    Code(0xfffffe4, 28), Code(0xfffffe5, 28), Code(0xfffffe6, 28), Code(0xfffffe7, 28),
    Code(0xfffffe8, 28), Code(0xffffea, 24), Code(0x3ffffffc, 30), Code(0xfffffe9, 28),
    Code(0xfffffea, 28), Code(0x3ffffffd, 30), Code(0xfffffeb, 28), Code(0xfffffec, 28)]

  const ROW1: Row := [
    Code(0xfffffed, 28), Code(0xfffffee, 28), Code(0xfffffef, 28), Code(0xffffff0, 28),
    Code(0xffffff1, 28), Code(0xffffff2, 28), Code(0x3ffffffe, 30), Code(0xffffff3, 28),
    Code(0xffffff4, 28), Code(0xffffff5, 28), Code(0xffffff6, 28), Code(0xffffff7, 28),
    Code(0xffffff8, 28), Code(0xffffff9, 28), Code(0xffffffa, 28), Code(0xffffffb, 28)]

  const ROW2: Row := [
    Code(0x14, 6), Code(0x3f8, 10), Code(0x3f9, 10), Code(0xffa, 12),
    Code(0x1ff9, 13), Code(0x15, 6), Code(0xf8, 8), Code(0x7fa, 11),
    Code(0x3fa, 10), Code(0x3fb, 10), Code(0xf9, 8), Code(0x7fb, 11),
    Code(0xfa, 8), Code(0x16, 6), Code(0x17, 6), Code(0x18, 6)]

  const ROW3: Row := [
    Code(0x0, 5), Code(0x1, 5), Code(0x2, 5), Code(0x19, 6),
    Code(0x1a, 6), Code(0x1b, 6), Code(0x1c, 6), Code(0x1d, 6),
    Code(0x1e, 6), Code(0x1f, 6), Code(0x5c, 7), Code(0xfb, 8),
    Code(0x7ffc, 15), Code(0x20, 6), Code(0xffb, 12), Code(0x3fc, 10)]

  const ROW4: Row := [
    Code(0x1ffa, 13), Code(0x21, 6), Code(0x5d, 7), Code(0x5e, 7),
    Code(0x5f, 7), Code(0x60, 7), Code(0x61, 7), Code(0x62, 7),
    Code(0x63, 7), Code(0x64, 7), Code(0x65, 7), Code(0x66, 7),
    Code(0x67, 7), Code(0x68, 7), Code(0x69, 7), Code(0x6a, 7)]

  const ROW5: Row := [
    Code(0x6b, 7), Code(0x6c, 7), Code(0x6d, 7), Code(0x6e, 7),
    Code(0x6f, 7), Code(0x70, 7), Code(0x71, 7), Code(0x72, 7),
    Code(0xfc, 8), Code(0x73, 7), Code(0xfd, 8), Code(0x1ffb, 13),
    Code(0x7fff0, 19), Code(0x1ffc, 13), Code(0x3ffc, 14), Code(0x22, 6)]

  const ROW6: Row := [
    Code(0x7ffd, 15), Code(0x3, 5), Code(0x23, 6), Code(0x4, 5),
    Code(0x24, 6), Code(0x5, 5), Code(0x25, 6), Code(0x26, 6),
    Code(0x27, 6), Code(0x6, 5), Code(0x74, 7), Code(0x75, 7),
    Code(0x28, 6), Code(0x29, 6), Code(0x2a, 6), Code(0x7, 5)]

  const ROW7: Row := [
    Code(0x2b, 6), Code(0x76, 7), Code(0x2c, 6), Code(0x8, 5),
    Code(0x9, 5), Code(0x2d, 6), Code(0x77, 7), Code(0x78, 7),
    Code(0x79, 7), Code(0x7a, 7), Code(0x7b, 7), Code(0x7fffe, 19),
    Code(0x7fc, 11), Code(0x3ffd, 14), Code(0x1ffd, 13), Code(0xffffffc, 28)]

  const ROW8: Row := [
    Code(0xfffe6, 20), Code(0x3fffd2, 22), Code(0xfffe7, 20), Code(0xfffe8, 20),
    Code(0x3fffd3, 22), Code(0x3fffd4, 22), Code(0x3fffd5, 22), Code(0x7fffd9, 23),
    Code(0x3fffd6, 22), Code(0x7fffda, 23), Code(0x7fffdb, 23), Code(0x7fffdc, 23),
    Code(0x7fffdd, 23), Code(0x7fffde, 23), Code(0xffffeb, 24), Code(0x7fffdf, 23)]

  const ROW9: Row := [
    Code(0xffffec, 24), Code(0xffffed, 24), Code(0x3fffd7, 22), Code(0x7fffe0, 23),
    Code(0xffffee, 24), Code(0x7fffe1, 23), Code(0x7fffe2, 23), Code(0x7fffe3, 23),
    Code(0x7fffe4, 23), Code(0x1fffdc, 21), Code(0x3fffd8, 22), Code(0x7fffe5, 23),
    Code(0x3fffd9, 22), Code(0x7fffe6, 23), Code(0x7fffe7, 23), Code(0xffffef, 24)]

  const ROW10: Row := [
    Code(0x3fffda, 22), Code(0x1fffdd, 21), Code(0xfffe9, 20), Code(0x3fffdb, 22),
    Code(0x3fffdc, 22), Code(0x7fffe8, 23), Code(0x7fffe9, 23), Code(0x1fffde, 21),
    Code(0x7fffea, 23), Code(0x3fffdd, 22), Code(0x3fffde, 22), Code(0xfffff0, 24),
    Code(0x1fffdf, 21), Code(0x3fffdf, 22), Code(0x7fffeb, 23), Code(0x7fffec, 23)]

  const ROW11: Row := [
    Code(0x1fffe0, 21), Code(0x1fffe1, 21), Code(0x3fffe0, 22), Code(0x1fffe2, 21),
    Code(0x7fffed, 23), Code(0x3fffe1, 22), Code(0x7fffee, 23), Code(0x7fffef, 23),
    Code(0xfffea, 20), Code(0x3fffe2, 22), Code(0x3fffe3, 22), Code(0x3fffe4, 22),
    Code(0x7ffff0, 23), Code(0x3fffe5, 22), Code(0x3fffe6, 22), Code(0x7ffff1, 23)]

  const ROW12: Row := [
    Code(0x3ffffe0, 26), Code(0x3ffffe1, 26), Code(0xfffeb, 20), Code(0x7fff1, 19),
    Code(0x3fffe7, 22), Code(0x7ffff2, 23), Code(0x3fffe8, 22), Code(0x1ffffec, 25),
    Code(0x3ffffe2, 26), Code(0x3ffffe3, 26), Code(0x3ffffe4, 26), Code(0x7ffffde, 27),
    Code(0x7ffffdf, 27), Code(0x3ffffe5, 26), Code(0xfffff1, 24), Code(0x1ffffed, 25)]

  const ROW13: Row := [
    Code(0x7fff2, 19), Code(0x1fffe3, 21), Code(0x3ffffe6, 26), Code(0x7ffffe0, 27),
    Code(0x7ffffe1, 27), Code(0x3ffffe7, 26), Code(0x7ffffe2, 27), Code(0xfffff2, 24),
    Code(0x1fffe4, 21), Code(0x1fffe5, 21), Code(0x3ffffe8, 26), Code(0x3ffffe9, 26),
    Code(0xffffffd, 28), Code(0x7ffffe3, 27), Code(0x7ffffe4, 27), Code(0x7ffffe5, 27)]

  const ROW14: Row := [
    Code(0xfffec, 20), Code(0xfffff3, 24), Code(0xfffed, 20), Code(0x1fffe6, 21),
    Code(0x3fffe9, 22), Code(0x1fffe7, 21), Code(0x1fffe8, 21), Code(0x7ffff3, 23),
    Code(0x3fffea, 22), Code(0x3fffeb, 22), Code(0x1ffffee, 25), Code(0x1ffffef, 25),
    Code(0xfffff4, 24), Code(0xfffff5, 24), Code(0x3ffffea, 26), Code(0x7ffff4, 23)]

  const ROW15: Row := [
    Code(0x3ffffeb, 26), Code(0x7ffffe6, 27), Code(0x3ffffec, 26), Code(0x3ffffed, 26),
    Code(0x7ffffe7, 27), Code(0x7ffffe8, 27), Code(0x7ffffe9, 27), Code(0x7ffffea, 27),
    Code(0x7ffffeb, 27), Code(0xffffffe, 28), Code(0x7ffffec, 27), Code(0x7ffffed, 27),
    Code(0x7ffffee, 27), Code(0x7ffffef, 27), Code(0x7fffff0, 27), Code(0x3ffffee, 26)]

  const EOS_CODE := Code(0x3fffffff, 30)

  function RowAt(r: nat): Row
    requires r < 16
  {
    match r
    case 0 => ROW0
    case 1 => ROW1
    case 2 => ROW2
    case 3 => ROW3
    case 4 => ROW4
    case 5 => ROW5
    case 6 => ROW6
    case 7 => ROW7
    case 8 => ROW8
    case 9 => ROW9
    case 10 => ROW10
    case 11 => ROW11
    case 12 => ROW12
    case 13 => ROW13
    case 14 => ROW14
    case _ => ROW15
  }

  /** Sixteen symbols to a row; the end-of-string symbol comes last. */
  function HuffmanCodes(): (t: Table)
    ensures |t| == 257
  {
    seq(257, s requires 0 <= s < 257 => if s == EOS then EOS_CODE else RowAt(s / 16)[s % 16])
  }

  // ----- The short codes, by length -----

  const FIVE: seq<nat> := [48, 49, 50, 97, 99, 101, 105, 111, 115, 116]
  const SIX_A: seq<nat> := [32, 37, 45, 46, 47, 51, 52, 53, 54, 55, 56, 57, 61]
  const SIX_B: seq<nat> := [65, 95, 98, 100, 102, 103, 104, 108, 109, 110, 112, 114, 117]
  const SEVEN_A: seq<nat> := [58, 66, 67, 68, 69, 70, 71, 72, 73, 74, 75, 76, 77, 78, 79, 80]
  const SEVEN_B: seq<nat> := [81, 82, 83, 84, 85, 86, 87, 89, 106, 107, 113, 118, 119, 120, 121, 122]
  const EIGHT: seq<nat> := [38, 42, 44, 59, 88, 90]
  const TEN: seq<nat> := [33, 34, 40, 41, 63]
  const ELEVEN: seq<nat> := [39, 43, 124]
  const TWELVE: seq<nat> := [35, 62]

  /** The symbols whose codes have `bits` bits, in code order (the longer lists in two halves). */
  function SymbolsOf(bits: nat, upper: bool): seq<nat> {
    if bits == 5 then FIVE
    else if bits == 6 then if upper then SIX_B else SIX_A
    else if bits == 7 then if upper then SEVEN_B else SEVEN_A
    else if bits == 8 then EIGHT
    else if bits == 10 then TEN
    else if bits == 11 then ELEVEN
    else if bits == 12 then TWELVE
    else []
  }

  /** The first code of each half-list. */
  function FirstCode(bits: nat, upper: bool): nat {
    if bits == 5 then 0x0
    else if bits == 6 then if upper then 0x21 else 0x14
    else if bits == 7 then if upper then 0x6c else 0x5c
    else if bits == 8 then 0xf8
    else if bits == 10 then 0x3f8
    else if bits == 11 then 0x7fa
    else if bits == 12 then 0xffa
    else 0
  }

  predicate IsUpper(c: Code) {
    (c.bits == 6 && c.code >= 0x21) || (c.bits == 7 && c.code >= 0x6c)
  }

  /** The code stands for `s` in the list for its length. */
  predicate ShortRowOk(s: nat, c: Code) {
    var first, symbols := FirstCode(c.bits, IsUpper(c)), SymbolsOf(c.bits, IsUpper(c));
    first <= c.code < first + |symbols| && symbols[c.code - first] == s
  }

  /** The powers of two the rows are compared with. */
  function Width(bits: nat): nat {
    match bits
    case 1 => 0x2
    case 2 => 0x4
    case 3 => 0x8
    case 5 => 0x20
    case 6 => 0x40
    case 7 => 0x80
    case 8 => 0x100
    case 9 => 0x200
    case 10 => 0x400
    case 11 => 0x800
    case 12 => 0x1000
    case 13 => 0x2000
    case 14 => 0x4000
    case 15 => 0x8000
    case 16 => 0x10000
    case 18 => 0x40000
    case 19 => 0x80000
    case 20 => 0x100000
    case 21 => 0x200000
    case 22 => 0x400000
    case 23 => 0x800000
    case 24 => 0x1000000
    case 25 => 0x2000000
    case 26 => 0x4000000
    case 27 => 0x8000000
    case 28 => 0x10000000
    case 30 => 0x40000000
    case _ => 0
  }

  /** Everything the decoder's theorems need to know about one row. */
  predicate RowOk(s: nat, c: Code) {
    && 5 <= c.bits <= 30 && c.code < Width(c.bits)
    && (if c.bits <= 12 then ShortRowOk(s, c) else 0 < 0xffc * Width(c.bits - 12) <= c.code)
    && (10 < c.bits <= 12 ==> s < 128)
  }

  predicate RowsOk(r: nat)
    requires r < 16
  {
    forall k | 0 <= k < 16 :: RowOk(16 * r + k, RowAt(r)[k])
  }

  lemma Row0Ok()
    ensures RowsOk(0)
  {
  }

  lemma Row1Ok()
    ensures RowsOk(1)
  {
  }

  lemma Row2Ok()
    ensures RowsOk(2)
  {
  }

  lemma Row3Ok()
    ensures RowsOk(3)
  {
  }

  lemma Row4Ok()
    ensures RowsOk(4)
  {
  }

  lemma Row5Ok()
    ensures RowsOk(5)
  {
  }

  lemma Row6Ok()
    ensures RowsOk(6)
  {
  }

  lemma Row7Ok()
    ensures RowsOk(7)
  {
  }

  lemma Row8Ok()
    ensures RowsOk(8)
  {
  }

  lemma Row9Ok()
    ensures RowsOk(9)
  {
  }

  lemma Row10Ok()
    ensures RowsOk(10)
  {
  }

  lemma Row11Ok()
    ensures RowsOk(11)
  {
  }

  lemma Row12Ok()
    ensures RowsOk(12)
  {
  }

  lemma Row13Ok()
    ensures RowsOk(13)
  {
  }

  lemma Row14Ok()
    ensures RowsOk(14)
  {
  }

  lemma Row15Ok()
    ensures RowsOk(15)
  {
  }

  lemma EveryRow(s: nat)
    requires s < 256
    ensures RowOk(s, HuffmanCodes()[s])
  {
    hide RowOk;
    var r, k := s / 16, s % 16;
    assert RowsOk(r) by {
      if r < 8 {
        LowerRows(r);
      } else {
        UpperRows(r);
      }
    }
    assert RowOk(16 * r + k, RowAt(r)[k]);
  }

  lemma LowerRows(r: nat)
    requires r < 8
    ensures RowsOk(r)
  {
    hide RowsOk, RowAt;
    Row0Ok(); Row1Ok(); Row2Ok(); Row3Ok(); Row4Ok(); Row5Ok(); Row6Ok(); Row7Ok();
  }

  lemma UpperRows(r: nat)
    requires 8 <= r < 16
    ensures RowsOk(r)
  {
    hide RowsOk, RowAt;
    Row8Ok(); Row9Ok(); Row10Ok(); Row11Ok(); Row12Ok(); Row13Ok(); Row14Ok(); Row15Ok();
  }

  lemma {:induction false} Widths(k: nat)
    requires k <= 30 && Width(k) != 0
    ensures Width(k) == Pow2(k)
  {
    assert Pow2(8) == 256;
    assert Pow2(16) == 0x10000 by { Pow2Add(8, 8); }
    assert Pow2(24) == 0x1000000 by { Pow2Add(8, 16); }
    if k < 8 {
    } else if k < 16 {
      Pow2Add(k - 8, 8);
    } else if k < 24 {
      Pow2Add(k - 16, 16);
    } else {
      Pow2Add(k - 24, 24);
    }
  }

  lemma TableWellFormed()
    ensures WellFormed(HuffmanCodes())
  {
    hide HuffmanCodes, Pow2;
    var t := HuffmanCodes();
    forall i | 0 <= i < 257
      ensures 1 <= t[i].bits <= 32 && t[i].code < Pow2(t[i].bits)
    {
      if i < 256 {
        EveryRow(i);
      } else {
        LastRow();
      }
      Widths(t[i].bits);
    }
  }

  lemma LastRow()
    ensures HuffmanCodes()[EOS] == EOS_CODE
  {
  }

  /** A code that starts another bounds its value from both sides. */
  lemma PrefixBounds(a: Code, b: Code)
    requires a.code < Pow2(a.bits) && b.code < Pow2(b.bits) && CodeBits(a) <= CodeBits(b)
    ensures a.bits <= b.bits
    ensures var w := Pow2(b.bits - a.bits); a.code * w <= b.code < a.code * w + w
  {
    hide FromBits, ToBits, Pow2;
    var p := CodeBits(b);
    assert CodeBits(a) == p[..a.bits];
    FromToBits(a.code, a.bits);
    FromToBits(b.code, b.bits);
    FromBitsAppend(p[..a.bits], p[a.bits..]);
    assert p == p[..a.bits] + p[a.bits..];
    FromBitsBound(p[a.bits..]);
  }

  /** The twelve-bit strings that start with a code of this length form one block. */
  function BlockStart(bits: nat): nat {
    if bits == 5 then 0 else if bits == 6 then 1280 else if bits == 7 then 2944 else if bits == 8 then 3968
    else if bits == 10 then 4064 else if bits == 11 then 4084 else 4090
  }

  function BlockEnd(bits: nat): nat {
    if bits == 5 then 1280 else if bits == 6 then 2944 else if bits == 7 then 3968 else if bits == 8 then 4064
    else if bits == 10 then 4084 else if bits == 11 then 4090 else 4092
  }

  lemma ShortRange(s: nat, c: Code)
    requires RowOk(s, c) && c.bits <= 12
    ensures c.bits in {5, 6, 7, 8, 10, 11, 12}
    ensures c.bits == 5 ==> c.code < 0xa
    ensures c.bits == 6 ==> 0x14 <= c.code < 0x2e
    ensures c.bits == 7 ==> 0x5c <= c.code < 0x7c
    ensures c.bits == 8 ==> 0xf8 <= c.code < 0xfe
    ensures c.bits == 10 ==> 0x3f8 <= c.code < 0x3fd
    ensures c.bits == 11 ==> 0x7fa <= c.code < 0x7fd
    ensures c.bits == 12 ==> 0xffa <= c.code < 0xffc
  {
    hide RowAt, HuffmanCodes, Width, Pow2;
  }

  lemma ShortBlock(s: nat, c: Code)
    requires RowOk(s, c) && c.bits <= 12
    ensures BlockStart(c.bits) <= c.code * Pow2(12 - c.bits)
    ensures (c.code + 1) * Pow2(12 - c.bits) <= BlockEnd(c.bits)
    ensures c.bits in {5, 6, 7, 8, 10, 11, 12}
  {
    hide RowOk, Pow2;
    ShortRange(s, c);
    SmallPowers();
    match c.bits
    case 5 => Between(0, c.code, 0xa, 128);
    case 6 => Between(0x14, c.code, 0x2e, 64);
    case 7 => Between(0x5c, c.code, 0x7c, 32);
    case 8 => Between(0xf8, c.code, 0xfe, 16);
    case 10 => Between(0x3f8, c.code, 0x3fd, 4);
    case 11 => Between(0x7fa, c.code, 0x7fd, 2);
    case _ => Between(0xffa, c.code, 0xffc, 1);
  }

  lemma SmallPowers()
    ensures Pow2(7) == 128 && Pow2(6) == 64 && Pow2(5) == 32 && Pow2(4) == 16 && Pow2(2) == 4 && Pow2(1) == 2 && Pow2(0) == 1
  {
  }

  lemma Between(low: nat, x: nat, high: nat, w: nat)
    requires low <= x < high
    ensures low * w <= x * w && (x + 1) * w <= high * w
  {
    Monotone(low, x, w);
    Monotone(x + 1, high, w);
  }

  lemma Scale(y: nat, x: nat, u: nat, v: nat)
    requires y < x * u + u
    ensures y * v + v <= (x + 1) * (u * v)
  {
    Monotone(y + 1, x * u + u, v);
    assert (x * u + u) * v == (x + 1) * (u * v);
    assert (y + 1) * v == y * v + v;
  }

  lemma Unscale(x: nat, u: nat, v: nat, m: nat)
    requires (x + 1) * u <= m
    ensures x * (u * v) + u * v <= m * v
  {
    Monotone((x + 1) * u, m, v);
    assert (x + 1) * u * v == x * (u * v) + u * v;
  }

  lemma ShortBeforeLong(s: nat, a: Code, b: Code)
    requires RowOk(s, a) && a.bits <= 12 < b.bits
    requires 0xffc * Pow2(b.bits - 12) <= b.code && a.code < Pow2(a.bits) && b.code < Pow2(b.bits)
    ensures !(CodeBits(a) <= CodeBits(b))
  {
    hide CodeBits, RowOk, Pow2;
    if CodeBits(a) <= CodeBits(b) {
      PrefixBounds(a, b);
      ShortBlock(s, a);
      Pow2Add(12 - a.bits, b.bits - 12);
      Unscale(a.code, Pow2(12 - a.bits), Pow2(b.bits - 12), 0xffc);
      assert false;
    }
  }

  /** Codes of different short lengths lie in different ranges. */
  lemma ShorterThanShort(i: nat, a: Code, j: nat, b: Code)
    requires RowOk(i, a) && RowOk(j, b) && a.bits < b.bits <= 12
    requires a.code < Pow2(a.bits) && b.code < Pow2(b.bits)
    ensures !(CodeBits(a) <= CodeBits(b))
  {
    hide CodeBits, RowOk, Pow2;
    if CodeBits(a) <= CodeBits(b) {
      PrefixBounds(a, b);
      ShortBlock(i, a);
      ShortBlock(j, b);
      Pow2Add(b.bits - a.bits, 12 - b.bits);
      Scale(b.code, a.code, Pow2(b.bits - a.bits), Pow2(12 - b.bits));
      assert false;
    }
  }

  /** The table of the source meets everything the decoder's theorems ask of a table. */
  lemma TableShortPrefixFree()
    ensures WellFormed(HuffmanCodes()) && ShortPrefixFree(HuffmanCodes())
  {
    hide HuffmanCodes, Pow2, CodeBits, RowOk;
    TableWellFormed();
    var t := HuffmanCodes();
    forall i, j | 0 <= i < 257 && 0 <= j < 257 && i != j && t[i].bits <= MAX_PENDING
      ensures !(CodeBits(t[i]) <= CodeBits(t[j]))
    {
      LastRow();
      EveryRow(i);
      if t[j].bits > 12 {
        LongStart(j);
        ShortBeforeLong(i, t[i], t[j]);
      } else {
        EveryRow(j);
        if t[i].bits < t[j].bits {
          ShorterThanShort(i, t[i], j, t[j]);
        } else if CodeBits(t[i]) <= CodeBits(t[j]) {
          SameLength(i, t[i], j, t[j]);
          assert false;
        }
      }
    }
  }

  lemma LongStart(j: nat)
    requires j < 257 && HuffmanCodes()[j].bits > 12
    ensures 0xffc * Pow2(HuffmanCodes()[j].bits - 12) <= HuffmanCodes()[j].code
  {
    hide HuffmanCodes, Pow2;
    if j < 256 {
      EveryRow(j);
      Widths(HuffmanCodes()[j].bits - 12);
    } else {
      LastRow();
      Widths(18);
    }
  }

  lemma SameLength(i: nat, a: Code, j: nat, b: Code)
    requires RowOk(i, a) && RowOk(j, b) && a.bits >= b.bits && a.bits <= 12
    requires a.code < Pow2(a.bits) && b.code < Pow2(b.bits) && CodeBits(a) <= CodeBits(b)
    ensures i == j
  {
    hide CodeBits, SymbolsOf, FirstCode, IsUpper, Width;
    PrefixBounds(a, b);
    assert a == b;
  }

  lemma {:induction false} EarlyLongCodes(t: Table, n: nat, i: nat)
    requires WellFormed(t) && i < n <= 256 && i < LONG_CAPACITY && t[i].bits > LOOKUP_BITS
    ensures LongCode(t[i].code, t[i].bits, i) in LongCodes(t, n)
  {
    if i < n - 1 {
      EarlyLongCodes(t, n - 1, i);
    } else {
      LongCodesCount(t, i);
    }
  }

  lemma {:induction false} LongCodesCount(t: Table, n: nat)
    requires n <= 256 && n <= |t|
    ensures |LongCodes(t, n)| <= n
  {
    if n > 0 {
      LongCodesCount(t, n - 1);
    }
  }

  lemma TableSuitable()
    ensures Suitable(HuffmanCodes())
  {
    hide HuffmanCodes, Pow2, LongCodes, ShortPrefixFree, FromBits, ToBits;
    TableShortPrefixFree();
    var t := HuffmanCodes();
    forall i: byte
      ensures t[i].bits >= 5
      ensures 10 < t[i].bits <= MAX_PENDING ==> LongCode(t[i].code, t[i].bits, i) in LongCodes(t, 256)
    {
      EveryRow(i);
      if 10 < t[i].bits <= MAX_PENDING {
        EarlyLongCodes(t, 256, i);
      }
    }
    LastRow();
    Widths(30);
    FromToBits(0x3fffffff, 30);
    AllOnesIff(CodeBits(EOS_CODE));
  }

  /** The bytes are the codes of the string, by the source's table, and a padding of ones. */
  ghost predicate Encodes(data: bytes, s: bytes, pad: nat) {
    TableWellFormed();
    BitsOf(data) == Codes(HuffmanCodes(), s) + Ones(pad)
  }

  /** No code of the string straddles a byte with five or more bits pending. */
  ghost predicate Decodable(s: bytes) {
    TableWellFormed();
    Aligned(HuffmanCodes(), s, 0)
  }

  function SourceDecode(data: bytes): Option<bytes> {
    TableWellFormed();
    LookupFacts(HuffmanCodes());
    Decode(LookupOf(HuffmanCodes()), data)
  }

  /** What the decoder makes of the encoding of a string by the source's table. */
  ghost function SourceReading(s: bytes): Option<bytes> {
    TableWellFormed();
    Reading(HuffmanCodes(), s, 0)
  }

  lemma SourceDecodeReads(data: bytes, s: bytes, pad: nat)
    requires Encodes(data, s, pad) && pad < 8
    ensures SourceDecode(data) == SourceReading(s)
  {
    hide HuffmanCodes, Codes, LookupOf, Decode, Reading, Suitable, WellFormed;
    TableSuitable();
    TableWellFormed();
    DecodeReads(HuffmanCodes(), data, s, pad);
  }

  /** With the source's own table, an encoding is decoded back exactly when its string is decodable. */
  lemma SourceDecodeIff(data: bytes, s: bytes, pad: nat)
    requires Encodes(data, s, pad) && pad < 8
    ensures SourceDecode(data) == Some(s) <==> Decodable(s)
  {
    hide HuffmanCodes, Reading, Aligned, WellFormed, SourceDecode, Encodes;
    TableWellFormed();
    SourceDecodeReads(data, s, pad);
    ReadingWhole(HuffmanCodes(), s, 0);
  }

  /** Some proper prefix of the string, or nothing: which one depends on the bits seen of the first incomplete code. */
  ghost predicate CutShort(s: bytes, r: Option<bytes>) {
    TableWellFormed();
    var j := Leading(HuffmanCodes(), s, 0);
    StopsAt(HuffmanCodes(), s, 0, j, |Codes(HuffmanCodes(), s[..j])|, r)
  }

  lemma SourceDecodeCutShort(data: bytes, s: bytes, pad: nat)
    requires Encodes(data, s, pad) && pad < 8 && !Decodable(s)
    ensures CutShort(s, SourceDecode(data))
  {
    hide HuffmanCodes, Reading, Aligned, WellFormed, SourceDecode, Encodes, StopsAt, Leading, Codes;
    TableWellFormed();
    SourceDecodeReads(data, s, pad);
    MisalignedReading(HuffmanCodes(), s, 0);
  }

  /** Row 123 departs from RFC 7541: its code starts that of symbol 147, so the table is not prefix-free. */
  lemma TableNotPrefixFree()
    ensures WellFormed(HuffmanCodes()) && !PrefixFree(HuffmanCodes())
  {
    hide HuffmanCodes;
    TableWellFormed();
    var t := HuffmanCodes();
    TwoRows();
    assert CodeBits(t[123]) <= CodeBits(t[147]) by { Clash(); }
  }

  lemma TwoRows()
    ensures HuffmanCodes()[123] == Code(0x7fffe, 19) && HuffmanCodes()[147] == Code(0x7fffe0, 23)
  {
    assert RowAt(7)[11] == Code(0x7fffe, 19) && RowAt(9)[3] == Code(0x7fffe0, 23);
  }

  lemma Doubled(c: nat, n: nat)
    ensures ToBits(2 * c, n + 1) == ToBits(c, n) + [false]
  {
  }

  lemma Clash()
    ensures CodeBits(Code(0x7fffe, 19)) <= CodeBits(Code(0x7fffe0, 23))
  {
    hide ToBits;
    Doubled(0x7fffe, 19);
    Doubled(0xffffc, 20);
    Doubled(0x1ffff8, 21);
    Doubled(0x3ffff0, 22);
  }

  // ----- The decoder is incomplete -----

  lemma ThreeCodes()
    ensures HuffmanCodes()[48] == Code(0x0, 5) && HuffmanCodes()[51] == Code(0x19, 6) && HuffmanCodes()[38] == Code(0xf8, 8)
  {
    assert RowAt(3)[0] == Code(0x0, 5) && RowAt(3)[3] == Code(0x19, 6) && RowAt(2)[6] == Code(0xf8, 8);
  }

  lemma ThreeSymbols(t: Table, a: byte, b: byte, c: byte)
    requires WellFormed(t)
    ensures Codes(t, [a, b, c]) == CodeBits(t[a]) + (CodeBits(t[b]) + (CodeBits(t[c]) + []))
  {
    hide CodeBits;
    assert [a, b, c][1..] == [b, c] && [b, c][1..] == [c] && [c][1..] == [];
    assert Codes(t, [c]) == CodeBits(t[c]) + [];
    assert Codes(t, [b, c]) == CodeBits(t[b]) + Codes(t, [c]);
  }

  lemma ThreeBytes(a: byte, b: byte, c: byte)
    ensures BitsOf([a, b, c]) == ToBits(a, 8) + (ToBits(b, 8) + (ToBits(c, 8) + []))
  {
    hide ToBits;
    assert [a, b, c][1..] == [b, c] && [b, c][1..] == [c] && [c][1..] == [];
    assert BitsOf([c]) == ToBits(c, 8) + [];
    assert BitsOf([b, c]) == ToBits(b, 8) + BitsOf([c]);
  }

  /** A string of which the first two symbols are read, and the third is incomplete with five bits pending. */
  lemma ThirdIncomplete(t: Table, a: byte, b: byte, c: byte)
    requires WellFormed(t) && t[a].bits == 5 && t[b].bits == 6 && 6 <= t[c].bits
    ensures Reading(t, [a, b, c], 0) == if CodeBits(t[c])[..5] == Ones(5) then Some([a, b]) else None
  {
    hide CodeBits, Ones;
    var s := [a, b, c];
    assert s[1..] == [b, c] && s[1..][1..] == [c];
    assert Reading(t, [c], 11) == if CodeBits(t[c])[..5] == Ones(5) then Some([]) else None;
    assert Reading(t, [b, c], 5) == Prepend([b], Reading(t, [c], 11));
    assert [a] + ([b] + []) == [a, b];
  }

  /** The string "033" is refused. */
  lemma DecoderIncomplete()
    ensures var s, data := Raw("033"), [0x03, 0x2c, 0xff]; Encodes(data, s, 7) && SourceDecode(data) == None
  {
    hide HuffmanCodes, SourceDecode, CodeBits, Reading, Codes, BitsOf, Ones, ToBits;
    TableWellFormed();
    ThreeCodes();
    assert Raw("033") == [48, 51, 51];
    ThreeSymbols(HuffmanCodes(), 48, 51, 51);
    ThreeBytes(0x03, 0x2c, 0xff);
    Bits033();
    SourceDecodeReads([0x03, 0x2c, 0xff], [48, 51, 51], 7);
    ThirdIncomplete(HuffmanCodes(), 48, 51, 51);
  }

  /** Of the string "03&" the decoder returns "03", as a success. */
  lemma DecoderTruncates()
    ensures var s, data := Raw("03&"), [0x03, 0x3f, 0x1f]; Encodes(data, s, 5) && SourceDecode(data) == Some(Raw("03"))
  {
    hide HuffmanCodes, SourceDecode, CodeBits, Reading, Codes, BitsOf, Ones, ToBits;
    TableWellFormed();
    ThreeCodes();
    assert Raw("03&") == [48, 51, 38] && Raw("03") == [48, 51];
    ThreeSymbols(HuffmanCodes(), 48, 51, 38);
    ThreeBytes(0x03, 0x3f, 0x1f);
    Bits03Amp();
    SourceDecodeReads([0x03, 0x3f, 0x1f], [48, 51, 38], 5);
    ThirdIncomplete(HuffmanCodes(), 48, 51, 38);
  }

  lemma Bits033()
    ensures var z, t := CodeBits(Code(0x0, 5)), CodeBits(Code(0x19, 6));
            && ToBits(0x03, 8) + (ToBits(0x2c, 8) + (ToBits(0xff, 8) + [])) == z + (t + (t + [])) + Ones(7)
            && t[..5] != Ones(5)
  {
    hide ToBits, Ones;
    ByteBits();
    SymbolBits();
    PaddingBits();
    assert CodeBits(Code(0x19, 6))[..5][0] != Ones(5)[0];
  }

  lemma Bits03Amp()
    ensures var z, t, a := CodeBits(Code(0x0, 5)), CodeBits(Code(0x19, 6)), CodeBits(Code(0xf8, 8));
            && ToBits(0x03, 8) + (ToBits(0x3f, 8) + (ToBits(0x1f, 8) + [])) == z + (t + (a + [])) + Ones(5)
            && a[..5] == Ones(5)
  {
    hide ToBits, Ones;
    ByteBits();
    SymbolBits();
    PaddingBits();
  }

  lemma ByteBits()
    ensures var o, i := false, true;
            && ToBits(0x03, 8) == [o, o, o, o, o, o, i, i] && ToBits(0x2c, 8) == [o, o, i, o, i, i, o, o]
            && ToBits(0x3f, 8) == [o, o, i, i, i, i, i, i] && ToBits(0x1f, 8) == [o, o, o, i, i, i, i, i]
  {
    hide ToBits;
    Byte(0x0, 0x3);
    Byte(0x2, 0xc);
    Byte(0x3, 0xf);
    Byte(0x1, 0xf);
  }

  lemma OneBit(v: nat, k: nat)
    ensures ToBits(v, k + 1) == ToBits(v / 2, k) + [v % 2 == 1]
  {
  }

  function Nibble(x: nat): seq<bool> {
    [x / 8 % 2 == 1, x / 4 % 2 == 1, x / 2 % 2 == 1, x % 2 == 1]
  }

  lemma NibbleBits(v: nat, x: nat, k: nat)
    requires x < 16
    ensures ToBits(16 * v + x, k + 4) == ToBits(v, k) + Nibble(x)
  {
    hide ToBits;
    OneBit(16 * v + x, k + 3);
    OneBit(8 * v + x / 2, k + 2);
    OneBit(4 * v + x / 4, k + 1);
    OneBit(2 * v + x / 8, k);
  }

  lemma Byte(a: nat, b: nat)
    requires a < 16 && b < 16
    ensures ToBits(16 * a + b, 8) == Nibble(a) + Nibble(b)
  {
    hide Nibble;
    NibbleBits(a, b, 4);
    NibbleBits(0, a, 0);
    assert [] + Nibble(a) == Nibble(a);
  }

  lemma SymbolBits()
    ensures var o, i := false, true;
            && ToBits(0x0, 5) == [o, o, o, o, o] && ToBits(0x19, 6) == [o, i, i, o, o, i]
            && ToBits(0xf8, 8) == [i, i, i, i, i, o, o, o]
  {
    hide ToBits;
    Byte(0xf, 0x8);
    NibbleBits(0x0, 0x0, 1);
    NibbleBits(0x1, 0x9, 2);
    FewBits();
  }

  lemma FewBits()
    ensures ToBits(0x0, 1) == [false] && ToBits(0x1, 2) == [false, true]
  {
  }

  lemma PaddingBits()
    ensures var i := true;
            && ToBits(0xff, 8) == [i, i, i, i, i, i, i, i] && Ones(7) == [i, i, i, i, i, i, i] && Ones(5) == [i, i, i, i, i]
  {
    hide ToBits;
    Byte(0xf, 0xf);
  }
}
