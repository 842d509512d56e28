/** HPACKDecoder and HPACKEncoder of src/http2.cpp, updated in place and proved against module Hpack. */
module HpackCodec {
  import opened Common
  import opened Hpack
  import HpackCorrect
  import Huffman
  import HuffmanCorrect
  import HuffmanDecoder
  import HuffmanTable

  class HpackDecoder {
    var entries: seq<Header>
    var size: nat
    var max: nat

    ghost function Abs(): Table
      reads this
    {
      Table(entries, size, max)
    }

    ghost predicate Valid()
      reads this
    {
      Abs().Valid()
    }

    ghost predicate Exact()
      reads this
    {
      Abs().Exact()
    }

    constructor ()
      ensures Valid() && Abs() == EMPTY
    {
      entries, size, max := [], 0, 4096;
    }

    method SetMaxTableSize(newMax: nat)
      requires Valid()
      modifies this
      ensures Valid() && Abs() == SetMax(old(Abs()), newMax)
    {
      max := newMax;
      EvictDynamicTable(0);
    }

    /** The eviction loop; `extra` is the size of the entry that is to be inserted next. */
    method EvictDynamicTable(extra: nat)
      requires Exact()
      modifies this`entries, this`size
      ensures Exact() && Abs() == Evict(old(Abs()), extra)
    {
      while size + extra > max && entries != []
        invariant Exact() && Evict(Abs(), extra) == Evict(old(Abs()), extra)
        decreases |entries|
      {
        TotalLast(entries);
        var last := entries[|entries| - 1];
        size := size - last.Size();
        entries := entries[..|entries| - 1];
      }
    }

    method AddToDynamicTable(h: Header)
      requires Valid()
      modifies this
      ensures Valid() && Abs() == Add(old(Abs()), h)
    {
      EvictDynamicTable(h.Size());
      if h.Size() <= max {
        entries := [h] + entries;
        size := size + h.Size();
        assert entries[1..] == Evict(old(Abs()), h.Size()).entries;
      }
    }

    static method DecodeInteger(data: bytes, prefix: nat) returns (r: Read<nat>)
      requires 1 <= prefix <= 8
      ensures r == Hpack.DecodeInteger(data, prefix)
    {
      hide Pow2;
      if data == [] { return Failed; }
      var maxPrefix := Pow2(prefix) - 1;
      var value: nat := (data[0] as int) % Pow2(prefix);
      var rest := data[1..];
      if value < maxPrefix { return Read(value, rest); }
      var m: nat := 0;
      while true
        invariant DecodeTail(rest, value, m) == Hpack.DecodeInteger(data, prefix)
        decreases |rest|
      {
        if rest == [] { return Failed; }
        var b := rest[0];
        rest := rest[1..];
        value := (value + (b % 128) as int * Pow2(m)) % WORD;
        if b < 128 { return Read(value, rest); }
        m := m + 7;
        if m > 63 { return Failed; }
      }
    }

    static method DecodeString(data: bytes) returns (r: Read<bytes>)
      ensures r == Hpack.DecodeString(data)
    {
      hide Hpack.DecodeInteger, Huffman.Decode, Huffman.LookupOf, HuffmanTable.HuffmanCodes;
      if data == [] {
        assert Hpack.DecodeInteger(data, 7).Failed? by { NothingToRead(7); }
        return Failed;
      }
      var isHuffman := data[0] >= 128;
      var length := DecodeInteger(data, 7);
      if length.Failed? || length.value > |length.rest| { return Failed; }
      var n, rest := length.value, length.rest;
      if isHuffman {
        HuffmanTable.TableWellFormed();
        HuffmanCorrect.LookupFacts(HuffmanTable.HuffmanCodes());
        var lookup := HuffmanDecoder.BuildLookup(HuffmanTable.HuffmanCodes());
        var decoded := HuffmanDecoder.HuffmanDecode(lookup, rest[..n]);
        if decoded.None? { return Failed; }
        return Read(decoded.value, rest[n..]);
      }
      return Read(rest[..n], rest[n..]);
    }

    /** The literal branches share everything but the prefix length. */
    method DecodeLiteral(data: bytes, prefix: nat) returns (r: Read<Header>)
      requires 1 <= prefix <= 8
      ensures r == Hpack.DecodeLiteral(Abs(), data, prefix)
    {
      hide Hpack.DecodeInteger, Hpack.DecodeString, Lookup;
      var index := DecodeInteger(data, prefix);
      if index.Failed? { return Failed; }
      var name: bytes, rest := [], index.rest;
      if index.value > 0 {
        var entry := Lookup(Table(entries, size, max), index.value);
        if entry.None? { return Failed; }
        name := entry.value.name;
      } else {
        var n := DecodeString(rest);
        if n.Failed? { return Failed; }
        name, rest := n.value, n.rest;
      }
      var v := DecodeString(rest);
      if v.Failed? { return Failed; }
      return Read(Header(name, v.value), v.rest);
    }

    method Decode(data: bytes) returns (headers: Option<seq<Header>>)
      requires Valid()
      modifies this
      ensures Valid() && Decoded(Abs(), headers) == Hpack.Decode(old(Abs()), data)
    {
      hide Hpack.DecodeInteger, Hpack.DecodeLiteral, Lookup, Add, SetMax;
      var done: seq<Header>, rest := [], data;
      while rest != []
        invariant Valid()
        invariant DecodeFrom(Abs(), rest, done) == Hpack.Decode(old(Abs()), data)
        decreases |rest|
      {
        if rest[0] >= 0x80 {
          var index := DecodeInteger(rest, 7);
          if index.Failed? { return None; }
          var entry := Lookup(Table(entries, size, max), index.value);
          if entry.None? { return None; }
          done, rest := done + [entry.value], index.rest;
        } else if rest[0] >= 0x40 {
          var literal := DecodeLiteral(rest, 6);
          if literal.Failed? { return None; }
          AddToDynamicTable(literal.value);
          done, rest := done + [literal.value], literal.rest;
        } else if rest[0] >= 0x20 {
          var newMax := DecodeInteger(rest, 5);
          if newMax.Failed? { return None; }
          SetMaxTableSize(newMax.value);
          rest := newMax.rest;
        } else {
          var literal := DecodeLiteral(rest, 4);
          if literal.Failed? { return None; }
          done, rest := done + [literal.value], literal.rest;
        }
      }
      return Some(done);
    }
  }

  lemma NothingToRead(prefix: nat)
    requires 1 <= prefix <= 8
    ensures DecodeInteger([], prefix).Failed?
  {
  }

  // ----- HPACKEncoder -----

  method AppendInteger(out: bytes, value: nat, prefix: nat, pattern: byte) returns (r: bytes)
    requires 1 <= prefix <= 8 && pattern + Pow2(prefix) <= 256
    ensures r == out + EncodeInteger(value, prefix, pattern)
  {
    hide Pow2, EncodeTail;
    var maxPrefix := Pow2(prefix) - 1;
    if value < maxPrefix {
      return out + [pattern + value];
    }
    r := out + [pattern + maxPrefix];
    var v: nat := value - maxPrefix;
    ghost var all := out + EncodeInteger(value, prefix, pattern);
    hide EncodeInteger;
    while v >= 128
      invariant r + EncodeTail(v) == all
    {
      TailStep(r, v);
      r := r + [v % 128 + 128];
      v := v / 128;
    }
    TailStep(r, v);
    r := r + [v];
  }

  lemma TailStep(r: bytes, v: nat)
    ensures v >= 128 ==> r + EncodeTail(v) == r + [v % 128 + 128] + EncodeTail(v / 128)
    ensures v < 128 ==> EncodeTail(v) == [v]
  {
    if v >= 128 {
      assert r + ([v % 128 + 128] + EncodeTail(v / 128)) == r + [v % 128 + 128] + EncodeTail(v / 128);
    }
  }

  /** The body of the encode loop: search the static table, then emit one representation. */
  method AppendHeader(out: bytes, h: Header) returns (r: bytes)
    ensures r == out + EncodeHeader(h)
  {
    hide EncodeInteger, StaticEntry, EncodeString, Pow2;
    HpackCorrect.Prefixes();
    var i := 1;
    while i <= STATIC_SIZE
      invariant 1 <= i <= STATIC_SIZE + 1
      invariant FindName(h.name, 1) == FindName(h.name, i)
    {
      if StaticEntry(i).name == h.name {
        if StaticEntry(i).value == h.value {
          r := AppendInteger(out, i, 7, 0x80);
          return;
        }
        r := AppendInteger(out, i, 4, 0);
        var text := EncodeText(h.value);
        assert r + text == out + (EncodeInteger(i, 4, 0) + text);
        r := r + text;
        return;
      }
      i := i + 1;
    }
    var name := EncodeText(h.name);
    var value := EncodeText(h.value);
    assert out + [0] + name + value == out + ([0] + name + value);
    r := out + [0] + name + value;
  }

  method EncodeHeaders(headers: seq<Header>) returns (out: bytes)
    ensures out == Encode(headers)
  {
    hide EncodeHeader;
    out := [];
    assert headers[0..] == headers;
    for k := 0 to |headers|
      invariant out + Encode(headers[k..]) == Encode(headers)
    {
      var h := headers[k];
      assert headers[k..][0] == h && headers[k..][1..] == headers[k + 1..];
      assert out + (EncodeHeader(h) + Encode(headers[k + 1..])) == out + EncodeHeader(h) + Encode(headers[k + 1..]);
      out := AppendHeader(out, h);
    }
  }

  method EncodeText(s: bytes) returns (r: bytes)
    ensures r == EncodeString(s)
  {
    HpackCorrect.Prefixes();
    r := AppendInteger([], |s|, 7, 0);
    r := r + s;
  }
}
