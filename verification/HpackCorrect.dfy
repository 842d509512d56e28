/** Theorems about the HPACK codec: what the server's own encoder writes is read back, and so are Huffman strings. */
module HpackCorrect {
  import opened Common
  import opened Hpack
  import Bits
  import HuffmanTable

  // ----- Integers -----

  lemma {:induction false} TailRoundTrip(v: nat, value: nat, m: nat, rest: bytes)
    requires m <= 63 && value + v * Pow2(m) < WORD
    ensures DecodeTail(EncodeTail(v) + rest, value, m) == Read(value + v * Pow2(m), rest)
    decreases v
  {
    hide Pow2;
    var w := EncodeTail(v) + rest;
    var p := Pow2(m);
    if v < 128 {
      assert w[0] == v && w[1..] == rest;
      Small(value + v * p);
    } else {
      var low, high := v % 128, v / 128;
      assert w[0] == low + 128 && w[0] % 128 == low && w[1..] == EncodeTail(high) + rest;
      Split(v, low, high, p);
      Small(value + low * p);
      Bits.Pow2Add(7, m);
      SevenBits(v, m);
      TailRoundTrip(high, value + low * p, m + 7, rest);
    }
  }

  lemma Small(x: nat)
    requires x < WORD
    ensures x % WORD == x
  {
  }

  lemma Split(v: nat, low: nat, high: nat, p: nat)
    requires v == 128 * high + low
    ensures v * p == low * p + high * (128 * p)
  {
  }

  /** A value that still needs a continuation byte leaves room for it. */
  lemma SevenBits(v: nat, m: nat)
    requires v >= 128 && m <= 63 && v * Pow2(m) < WORD
    ensures m + 7 <= 63 && Pow2(7) == 128
  {
    assert Pow2(7) == 128;
    if m > 56 {
      Bits.Pow2Add(m - 57, 57);
      Pow57();
      Bits.Monotone(1, Pow2(m - 57), Pow2(57));
      Bits.Monotone(128, v, Pow2(m));
      assert false;
    }
  }

  lemma Pow57()
    ensures Pow2(57) == 0x200_0000_0000_0000
  {
    assert Pow2(8) == 256 && Pow2(1) == 2;
    assert Pow2(16) == 0x1_0000 by { Bits.Pow2Add(8, 8); }
    assert Pow2(24) == 0x100_0000 by { Bits.Pow2Add(16, 8); }
    assert Pow2(32) == 0x1_0000_0000 by { Bits.Pow2Add(16, 16); }
    assert Pow2(56) == 0x100_0000_0000_0000 by { Bits.Pow2Add(32, 24); }
    Bits.Pow2Add(56, 1);
  }

  /** Every 64-bit value survives every prefix size, whatever bits sit above the prefix. */
  lemma IntegerRoundTrip(v: nat, prefix: nat, pattern: byte, rest: bytes)
    requires 1 <= prefix <= 8 && pattern + Pow2(prefix) <= 256 && (pattern as int) % Pow2(prefix) == 0
    requires v < WORD
    ensures DecodeInteger(EncodeInteger(v, prefix, pattern) + rest, prefix) == Read(v, rest)
  {
    hide Pow2, EncodeTail, DecodeTail;
    var p := Pow2(prefix);
    if v < p - 1 {
      LowBits(pattern, v, p);
      assert [pattern + v] + rest == EncodeInteger(v, prefix, pattern) + rest;
    } else {
      LowBits(pattern, p - 1, p);
      var tail := EncodeTail(v - (p - 1));
      var w := [pattern + p - 1] + tail + rest;
      assert w[0] == pattern + p - 1 && w[1..] == tail + rest;
      TailFromZero(v, p - 1, rest);
    }
  }

  lemma TailFromZero(v: nat, used: nat, rest: bytes)
    requires used <= v < WORD
    ensures DecodeTail(EncodeTail(v - used) + rest, used, 0) == Read(v, rest)
  {
    hide EncodeTail, DecodeTail;
    One();
    TailRoundTrip(v - used, used, 0, rest);
  }

  lemma One()
    ensures Pow2(0) == 1
  {
  }

  lemma LowBits(a: nat, b: nat, p: nat)
    requires 0 < p && a % p == 0 && b < p
    ensures (a + b) % p == b
  {
    Bits.DivMod(a / p, p, b);
    assert a == a / p * p;
  }

  // ----- Header blocks -----

  predicate Encodable(h: Header) {
    |h.name| < WORD && |h.value| < WORD
  }

  lemma Prefixes()
    ensures Pow2(7) == 128 && Pow2(4) == 16
  {
  }

  lemma StringRoundTrip(s: bytes, rest: bytes)
    requires |s| < WORD
    ensures DecodeString(EncodeString(s) + rest) == Read(s, rest)
  {
    hide DecodeInteger, EncodeInteger, HuffmanTable.SourceDecode, Pow2;
    Prefixes();
    IntegerRoundTrip(|s|, 7, 0, s + rest);
    FirstByte(|s|, 7, 0);
    var w := EncodeString(s) + rest;
    assert w == EncodeInteger(|s|, 7, 0) + (s + rest);
    assert w[0] == EncodeInteger(|s|, 7, 0)[0];
    assert (s + rest)[..|s|] == s && (s + rest)[|s|..] == rest;
  }

  /** A string as a peer that compresses would send it: the Huffman flag, the length, the padded codes. */
  function HuffmanText(data: bytes): bytes {
    Prefixes();
    EncodeInteger(|data|, 7, 128) + data
  }

  /** What a Huffman string is read as: the whole of it, the part before an incomplete code, or a refusal. */
  lemma HuffmanStringRead(s: bytes, data: bytes, pad: nat, rest: bytes)
    requires |data| < WORD && pad < 8 && HuffmanTable.Encodes(data, s, pad)
    ensures DecodeString(HuffmanText(data) + rest)
         == match HuffmanTable.SourceReading(s)
            case None => Failed
            case Some(r) => Read(r, rest)
  {
    hide DecodeInteger, EncodeInteger, Pow2, HuffmanTable.SourceDecode, HuffmanTable.Encodes, HuffmanTable.SourceReading;
    Prefixes();
    IntegerRoundTrip(|data|, 7, 128, data + rest);
    FirstByte(|data|, 7, 128);
    var w := HuffmanText(data) + rest;
    assert w == EncodeInteger(|data|, 7, 128) + (data + rest);
    assert w[0] == EncodeInteger(|data|, 7, 128)[0];
    assert (data + rest)[..|data|] == data && (data + rest)[|data|..] == rest;
    HuffmanTable.SourceDecodeReads(data, s, pad);
  }

  /** A Huffman string is decoded back exactly when none of its codes straddles a byte with five or more bits pending. */
  lemma HuffmanStringIff(s: bytes, data: bytes, pad: nat, rest: bytes)
    requires |data| < WORD && pad < 8 && HuffmanTable.Encodes(data, s, pad)
    ensures DecodeString(HuffmanText(data) + rest) == Read(s, rest) <==> HuffmanTable.Decodable(s)
  {
    hide DecodeString, HuffmanText, HuffmanTable.SourceDecode, HuffmanTable.Encodes, HuffmanTable.SourceReading, HuffmanTable.Decodable;
    HuffmanStringRead(s, data, pad, rest);
    HuffmanTable.SourceDecodeReads(data, s, pad);
    HuffmanTable.SourceDecodeIff(data, s, pad);
  }

  /** The first byte of an encoded integer carries the pattern. */
  lemma FirstByte(v: nat, prefix: nat, pattern: byte)
    requires 1 <= prefix <= 8 && pattern + Pow2(prefix) <= 256
    ensures var w := EncodeInteger(v, prefix, pattern); w != [] && pattern <= w[0] < pattern + Pow2(prefix)
  {
  }

  lemma IndexedRoundTrip(t: Table, i: nat, rest: bytes, done: seq<Header>)
    requires t.Valid() && 1 <= i <= STATIC_SIZE
    ensures (Prefixes(); DecodeFrom(t, EncodeInteger(i, 7, 0x80) + rest, done) == DecodeFrom(t, rest, done + [StaticEntry(i)]))
  {
    hide DecodeInteger, EncodeInteger, Pow2, StaticEntry, DecodeLiteral, Add, SetMax;
    Prefixes();
    IntegerRoundTrip(i, 7, 0x80, rest);
    FirstByte(i, 7, 0x80);
    var w := EncodeInteger(i, 7, 0x80) + rest;
    assert w[0] == EncodeInteger(i, 7, 0x80)[0];
  }

  /** Name by reference or spelled out, then the value. */
  lemma LiteralRoundTrip(t: Table, i: nat, h: Header, rest: bytes)
    requires Encodable(h) && i <= STATIC_SIZE && (i > 0 ==> StaticEntry(i).name == h.name)
    ensures (Prefixes();
             var name := if i > 0 then [] else EncodeString(h.name);
             var w := EncodeInteger(i, 4, 0) + name + EncodeString(h.value) + rest;
             w[0] < 0x20 && DecodeLiteral(t, w, 4) == Read(h, rest))
  {
    hide DecodeInteger, EncodeInteger, Pow2, StaticEntry, DecodeString, EncodeString;
    Prefixes();
    var name := if i > 0 then [] else EncodeString(h.name);
    var tail := name + (EncodeString(h.value) + rest);
    var w := EncodeInteger(i, 4, 0) + name + EncodeString(h.value) + rest;
    assert w == EncodeInteger(i, 4, 0) + tail;
    IntegerRoundTrip(i, 4, 0, tail);
    FirstByte(i, 4, 0);
    StringRoundTrip(h.value, rest);
    if i == 0 {
      StringRoundTrip(h.name, EncodeString(h.value) + rest);
    } else {
      assert tail == EncodeString(h.value) + rest;
    }
  }

  lemma ZeroPrefix()
    ensures Pow2(4) == 16 && EncodeInteger(0, 4, 0) == [0]
  {
  }

  lemma HeaderRoundTrip(t: Table, h: Header, rest: bytes, done: seq<Header>)
    requires t.Valid() && Encodable(h)
    ensures DecodeFrom(t, EncodeHeader(h) + rest, done) == DecodeFrom(t, rest, done + [h])
  {
    hide DecodeInteger, EncodeInteger, Pow2, StaticEntry, DecodeLiteral, EncodeString, Add, SetMax, FindName;
    Prefixes();
    var i := FindName(h.name, 1);
    FindNameFacts(h.name, 1);
    if i > 0 && StaticEntry(i).value == h.value {
      IndexedRoundTrip(t, i, rest, done);
    } else {
      LiteralRoundTrip(t, i, h, rest);
      ZeroPrefix();
      var name := if i > 0 then [] else EncodeString(h.name);
      assert EncodeInteger(i, 4, 0) + name + EncodeString(h.value) == EncodeHeader(h);
    }
  }

  lemma {:induction false} BlockRoundTrip(t: Table, headers: seq<Header>, done: seq<Header>)
    requires t.Valid() && forall i | 0 <= i < |headers| :: Encodable(headers[i])
    ensures DecodeFrom(t, Encode(headers), done) == Decoded(t, Some(done + headers))
    decreases |headers|
  {
    hide EncodeHeader, DecodeInteger, DecodeLiteral, Lookup, Add, SetMax;
    if headers == [] {
      assert done + headers == done;
    } else {
      HeaderRoundTrip(t, headers[0], Encode(headers[1..]), done);
      BlockRoundTrip(t, headers[1..], done + [headers[0]]);
      assert done + [headers[0]] + headers[1..] == done + headers;
    }
  }

  /** From any decoder state, an encoded header list decodes to exactly that list and leaves the table alone. */
  lemma RoundTrip(t: Table, headers: seq<Header>)
    requires t.Valid() && forall i | 0 <= i < |headers| :: Encodable(headers[i])
    ensures Decode(t, Encode(headers)) == Decoded(t, Some(headers))
  {
    hide DecodeFrom, Encode;
    BlockRoundTrip(t, headers, []);
    assert [] + headers == headers;
  }
}
