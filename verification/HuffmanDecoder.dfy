/** The Huffman lookup tables and the decoder as src/http2.cpp runs them: arrays, an accumulator and loops. */
module HuffmanDecoder {
  import opened Common
  import opened Bits
  import opened Huffman

  function FastEntryOf(t: Table, n: nat, index: nat): FastEntry
    requires n <= |t|
  {
    var s := FastSymbol(t, n, index);
    if s < 0 then FastEntry(-1, 0) else FastEntry(s, t[s].bits)
  }

  /** The slots a short code is written to are the ones it covers. */
  lemma SlotsCovered(c: Code, index: nat)
    requires c.bits <= LOOKUP_BITS
    ensures var w := Pow2(LOOKUP_BITS - c.bits); c.code * w <= index < c.code * w + w <==> Covers(c, index)
  {
    hide Pow2;
    Slots(c.code, index, Pow2(LOOKUP_BITS - c.bits));
  }

  lemma Slots(code: nat, index: nat, w: nat)
    requires 0 < w
    ensures code * w <= index < code * w + w <==> index / w == code
  {
    var q, r := index / w, index % w;
    assert index == q * w + r;
    if code * w <= index < code * w + w {
      DivMod(code, w, index - code * w);
    }
  }

  method FillSlots(fast: array<FastEntry>, base: nat, count: nat, e: FastEntry)
    modifies fast
    ensures forall i | 0 <= i < fast.Length :: fast[i] == if base <= i < base + count then e else old(fast[i])
  {
    for j := 0 to count
      invariant forall i | 0 <= i < fast.Length :: fast[i] == if base <= i < base + j then e else old(fast[i])
    {
      if base + j < fast.Length {
        fast[base + j] := e;
      }
    }
  }

  /** HuffmanLookup::HuffmanLookup. */
  method BuildLookup(t: Table) returns (l: Lookup)
    requires WellFormed(t)
    ensures l == LookupOf(t)
  {
    hide Covers, Sort, Pow2;
    var fast := new FastEntry[LOOKUP_SIZE](_ => FastEntry(-1, 0));
    var long: seq<LongCode> := [];
    for sym := 0 to 256
      invariant forall i | 0 <= i < LOOKUP_SIZE :: fast[i] == FastEntryOf(t, sym, i)
      invariant long == LongCodes(t, sym)
    {
      var h := t[sym];
      if h.bits <= LOOKUP_BITS {
        var count := Pow2(LOOKUP_BITS - h.bits);
        var base := h.code * count;
        FillSlots(fast, base, count, FastEntry(sym, h.bits));
        forall i | 0 <= i < LOOKUP_SIZE
          ensures fast[i] == FastEntryOf(t, sym + 1, i)
        {
          SlotsCovered(h, i);
        }
      } else {
        forall i | 0 <= i < LOOKUP_SIZE
          ensures FastEntryOf(t, sym, i) == FastEntryOf(t, sym + 1, i)
        {
          LongCoversNothing(h, i);
        }
        if |long| < LONG_CAPACITY {
          long := long + [LongCode(h.code, h.bits, sym)];
        }
      }
    }
    l := Lookup(fast[..], Sort(long));
    assert l.fast == LookupOf(t).fast;
  }

  lemma LongCoversNothing(c: Code, index: nat)
    requires c.bits > LOOKUP_BITS
    ensures !Covers(c, index)
  {
  }

  /** What is still to come once a byte has been drained. */
  ghost function Continue(l: Lookup, r: Outcome, data: bytes): Option<bytes>
    requires Usable(l) && (r.Pending? ==> r.bits < 5)
  {
    match r
    case Pending(acc, bits, out) => Feed(l, data, acc, bits, out)
    case Done(out) => Some(out)
    case Bad => None
  }

  /** huffman_decode. */
  method HuffmanDecode(l: Lookup, data: bytes) returns (r: Option<bytes>)
    requires Usable(l)
    ensures r == Decode(l, data)
  {
    hide Look, Pow2, Usable;
    var result: bytes, acc: nat, bits: nat := [], 0, 0;
    assert data[0..] == data;
    for i := 0 to |data|
      invariant bits < 5
      invariant Feed(l, data[i..], acc, bits, result) == Decode(l, data)
    {
      assert data[i..][0] == data[i] && data[i..][1..] == data[i + 1..];
      acc := acc * 256 + data[i];
      bits := bits + 8;
      while bits >= 5
        invariant bits <= 12  // so the shifted accumulator stays within sixteen bits
        invariant Continue(l, Drain(l, acc, bits, result), data[i + 1..]) == Decode(l, data)
        decreases bits
      {
        var m := Find(l, acc, bits);
        if m.Match? {
          result := result + [m.symbol];
          bits := bits - m.bits;
          acc := acc % Pow2(bits);
        } else {
          if bits <= 7 && acc % Pow2(bits) == Pow2(bits) - 1 {
            return Some(result);
          }
          return None;
        }
      }
    }
    assert data[|data|..] == [];
    if bits > 0 && acc % Pow2(bits) != Pow2(bits) - 1 {
      return None;
    }
    return Some(result);
  }

  /** One table access, then the scan of the long codes. */
  method Find(l: Lookup, acc: nat, bits: nat) returns (m: Match)
    requires Usable(l)
    ensures m == Look(l, acc, bits)
  {
    var index := if bits >= LOOKUP_BITS then acc / Pow2(bits - LOOKUP_BITS) % LOOKUP_SIZE
                 else acc * Pow2(LOOKUP_BITS - bits) % LOOKUP_SIZE;
    assert index == FastIndex(acc, bits);
    hide Pow2, FastIndex, Hits;
    var entry := l.fast[index];
    if entry.symbol >= 0 && entry.bits <= bits {
      return Match(entry.symbol, entry.bits);
    }
    assert l.long[0..] == l.long;
    for lc := 0 to |l.long|
      invariant FindLong(l.long[lc..], acc, bits) == FindLong(l.long, acc, bits)
    {
      var c := l.long[lc];
      assert l.long[lc..][0] == c && l.long[lc..][1..] == l.long[lc + 1..];
      if c.bits > bits { return NoMatch; }
      if Hits(c, acc, bits) {
        return Match(c.symbol, c.bits);
      }
    }
    return NoMatch;
  }
}
