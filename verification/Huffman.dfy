/**
 The two-level Huffman decoder of src/http2.cpp: a 1024-entry table for codes of at most ten bits
 and a sorted list of longer codes, as functions of an arbitrary code table.
 */
module Huffman {
  import opened Common
  import opened Bits

  const LOOKUP_BITS: nat := 10
  const LOOKUP_SIZE: nat := 1024
  const LONG_CAPACITY: nat := 160
  const EOS: nat := 256

  datatype Code = Code(code: nat, bits: nat)
  datatype FastEntry = FastEntry(symbol: int, bits: nat)
  datatype LongCode = LongCode(code: nat, bits: nat, symbol: byte)
  datatype Lookup = Lookup(fast: seq<FastEntry>, long: seq<LongCode>)

  type Table = seq<Code>

  /** One code for each byte value and one for the end-of-string symbol. */
  predicate WellFormed(t: Table) {
    |t| == 257 && forall i | 0 <= i < 257 :: 1 <= t[i].bits <= 32 && t[i].code < Pow2(t[i].bits)
  }

  function CodeBits(c: Code): (r: seq<bool>)
    ensures |r| == c.bits
  {
    ToBits(c.code, c.bits)
  }

  /** The concatenated codes of a string. */
  function Codes(t: Table, s: bytes): seq<bool>
    requires WellFormed(t)
  {
    if s == [] then [] else CodeBits(t[s[0]]) + Codes(t, s[1..])
  }

  // ----- The lookup structure -----

  predicate Covers(c: Code, index: nat) {
    c.bits <= LOOKUP_BITS && index / Pow2(LOOKUP_BITS - c.bits) == c.code
  }

  /** The last of the first `n` symbols written over a slot of the fast table, or -1. */
  function FastSymbol(t: Table, n: nat, index: nat): (s: int)
    requires n <= |t|
    ensures -1 <= s < n
    ensures s >= 0 ==> Covers(t[s], index)
    ensures forall i | 0 <= i < n && Covers(t[i], index) :: i <= s
  {
    if n == 0 then -1 else if Covers(t[n - 1], index) then n - 1 else FastSymbol(t, n - 1, index)
  }

  function FastEntryAt(t: Table, index: nat): FastEntry
    requires WellFormed(t)
  {
    var s := FastSymbol(t, EOS, index);
    if s < 0 then FastEntry(-1, 0) else FastEntry(s, t[s].bits)
  }

  /** The codes too long for the fast table, in symbol order, as far as they fit. */
  function LongCodes(t: Table, n: nat): (r: seq<LongCode>)
    requires n <= 256 && n <= |t|
    ensures |r| <= LONG_CAPACITY
  {
    if n == 0 then []
    else
      var r := LongCodes(t, n - 1);
      if t[n - 1].bits > LOOKUP_BITS && |r| < LONG_CAPACITY
      then r + [LongCode(t[n - 1].code, t[n - 1].bits, n - 1)]
      else r
  }

  predicate Before(a: LongCode, b: LongCode) {
    a.bits < b.bits || (a.bits == b.bits && a.code < b.code)
  }

  function Insert(c: LongCode, s: seq<LongCode>): seq<LongCode> {
    if s == [] || !Before(s[0], c) then [c] + s else [s[0]] + Insert(c, s[1..])
  }

  function Sort(s: seq<LongCode>): seq<LongCode> {
    if s == [] then [] else Insert(s[0], Sort(s[1..]))
  }

  function LookupOf(t: Table): (l: Lookup)
    requires WellFormed(t)
  {
    Lookup(seq(LOOKUP_SIZE, i requires 0 <= i < LOOKUP_SIZE => FastEntryAt(t, i)), Sort(LongCodes(t, 256)))
  }

  /** What the decoder needs so that every match consumes at least one bit. */
  predicate Usable(l: Lookup) {
    && |l.fast| == LOOKUP_SIZE
    && (forall i | 0 <= i < LOOKUP_SIZE :: l.fast[i].symbol >= 0 ==> l.fast[i].symbol < 256 && l.fast[i].bits >= 1)
    && (forall i | 0 <= i < |l.long| :: l.long[i].bits >= 1)
  }

  // ----- Decoding -----

  datatype Match = NoMatch | Match(symbol: byte, bits: nat)

  function FastIndex(acc: nat, bits: nat): (r: nat)
    ensures r < LOOKUP_SIZE
  {
    if bits >= LOOKUP_BITS then acc / Pow2(bits - LOOKUP_BITS) % LOOKUP_SIZE
    else acc * Pow2(LOOKUP_BITS - bits) % LOOKUP_SIZE
  }

  /** The code occupies the front of the pending bits. */
  predicate Hits(c: LongCode, acc: nat, bits: nat) {
    c.bits <= bits && acc / Pow2(bits - c.bits) % Pow2(c.bits) == c.code
  }

  /** Scan the long codes, giving up at the first that is longer than what is pending. */
  function FindLong(long: seq<LongCode>, acc: nat, bits: nat): (m: Match)
    ensures m.Match? ==> exists c :: c in long && Hits(c, acc, bits) && m == Match(c.symbol, c.bits)
  {
    if long == [] || long[0].bits > bits then NoMatch
    else if Hits(long[0], acc, bits) then Match(long[0].symbol, long[0].bits)
    else FindLong(long[1..], acc, bits)
  }

  /** The symbol whose code starts the pending bits, if the structure finds one. */
  function Look(l: Lookup, acc: nat, bits: nat): (m: Match)
    requires Usable(l)
    ensures m.Match? ==> 1 <= m.bits <= bits
  {
    var e := l.fast[FastIndex(acc, bits)];
    if e.symbol >= 0 && e.bits <= bits then Match(e.symbol, e.bits)
    else FindLong(l.long, acc, bits)
  }

  /** After one byte: some bits are left over, or a result is returned, or the input is rejected. */
  datatype Outcome = Pending(acc: nat, bits: nat, out: bytes) | Done(out: bytes) | Bad

  function Drain(l: Lookup, acc: nat, bits: nat, out: bytes): (r: Outcome)
    requires Usable(l) && bits <= 12
    ensures r.Pending? ==> r.bits < 5
    decreases bits
  {
    if bits < 5 then Pending(acc, bits, out)
    else
      match Look(l, acc, bits)
      case Match(symbol, n) => Drain(l, acc % Pow2(bits - n), bits - n, out + [symbol])
      case NoMatch => if bits <= 7 && acc % Pow2(bits) == Pow2(bits) - 1 then Done(out) else Bad
  }

  /** The outer loop. At most twelve bits are ever pending, so the accumulator never overflows. */
  function Feed(l: Lookup, data: bytes, acc: nat, bits: nat, out: bytes): Option<bytes>
    requires Usable(l) && bits < 5
    decreases |data|
  {
    if data == [] then
      if bits > 0 && acc % Pow2(bits) != Pow2(bits) - 1 then None else Some(out)
    else
      match Drain(l, acc * 256 + data[0], bits + 8, out)
      case Pending(acc', bits', out') => Feed(l, data[1..], acc', bits', out')
      case Done(out') => Some(out')
      case Bad => None
  }

  function Decode(l: Lookup, data: bytes): Option<bytes>
    requires Usable(l)
  {
    Feed(l, data, 0, 0, [])
  }
}
