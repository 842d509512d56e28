/**
 * Exactly which bytes the header block decoder accepts, and as what: section 6 of RFC 7541 read off the bytes
 * themselves, on every input and from every state of the table.
 */
module HpackAccept {
  import opened Common
  import opened Hpack
  import opened HpackTable
  import HpackIntegers
  import HuffmanTable

  // ----- What stands at the front of the bytes -----

  /** The static entries have the numbers 1 to 61; the dynamic ones follow, newest first. */
  function EntryAt(t: Table, i: nat): Option<Header> {
    if 1 <= i <= 61 then Some(StaticEntry(i))
    else if 62 <= i < 62 + |t.entries| then Some(t.entries[i - 62])
    else None
  }

  /** An integer of at most eleven bytes, modulo 2^64. */
  ghost predicate IntegerAt(data: bytes, prefix: nat, v: nat, rest: bytes)
    requires 1 <= prefix <= 8
  {
    match HpackIntegers.Denoted(data, prefix)
    case None => false
    case Some((d, r)) => r == rest && |data| - |rest| <= 11 && v == d % 0x1_0000_0000_0000_0000
  }

  /** A length and that many bytes, which are the string or, where the first bit is set, its Huffman coding. */
  ghost predicate StringAt(data: bytes, s: bytes, rest: bytes) {
    exists n: nat, r: bytes :: IntegerAt(data, 7, n, r) && Cut(data, r, n, s, rest)
  }

  ghost predicate Cut(data: bytes, r: bytes, n: nat, s: bytes, rest: bytes) {
    && data != [] && n <= |r| && rest == r[n..]
    && (if data[0] < 128 then s == r[..n] else HuffmanTable.SourceDecode(r[..n]) == Some(s))
  }

  /** A name by the number of its entry, or spelled out after the number 0. */
  ghost predicate NameAt(t: Table, data: bytes, prefix: nat, name: bytes, rest: bytes)
    requires 1 <= prefix <= 8
  {
    exists i: nat, r: bytes :: IntegerAt(data, prefix, i, r) &&
      if i == 0 then StringAt(r, name, rest) else r == rest && EntryAt(t, i).Some? && EntryAt(t, i).value.name == name
  }

  ghost predicate LiteralAt(t: Table, data: bytes, prefix: nat, h: Header, rest: bytes)
    requires 1 <= prefix <= 8
  {
    exists r: bytes :: NameAt(t, data, prefix, h.name, r) && StringAt(r, h.value, rest)
  }

  /** One representation by its first bits: 1 indexed, 01 literal with indexing, 001 size update, 000 other literals. */
  ghost predicate RepAt(t: Table, data: bytes, hs: seq<Header>, ops: seq<Op>, rest: bytes)
    requires data != []
  {
    if data[0] >= 128 then
      ops == [] && exists i: nat :: IntegerAt(data, 7, i, rest) && EntryAt(t, i).Some? && hs == [EntryAt(t, i).value]
    else if data[0] >= 64 then exists h :: LiteralAt(t, data, 6, h, rest) && hs == [h] && ops == [Insert(h)]
    else if data[0] >= 32 then hs == [] && exists max: nat :: IntegerAt(data, 5, max, rest) && ops == [Resize(max)]
    else ops == [] && exists h :: LiteralAt(t, data, 4, h, rest) && hs == [h]
  }

  /** Representations to the end: the headers they add and the table they leave. */
  ghost predicate BlockAt(t: Table, data: bytes, hs: seq<Header>, u: Table)
    requires t.Valid()
    decreases |data|
  {
    if data == [] then hs == [] && u == t
    else exists first, ops, rest :: RepAt(t, data, first, ops, rest) && Then(t, data, hs, u, first, ops, rest)
  }

  ghost predicate Then(t: Table, data: bytes, hs: seq<Header>, u: Table, first: seq<Header>, ops: seq<Op>, rest: bytes)
    requires t.Valid()
    decreases |data|, 0
  {
    |rest| < |data| && first <= hs && BlockAt(After(t, ops), rest, hs[|first|..], u)
  }

  // ----- The decoder's steps -----

  lemma LookupIs(t: Table, i: nat)
    ensures Lookup(t, i) == EntryAt(t, i)
  {
    hide StaticEntry;
  }

  lemma IntegerIff(data: bytes, prefix: nat, v: nat, rest: bytes)
    requires 1 <= prefix <= 8
    ensures DecodeInteger(data, prefix) == Read(v, rest) <==> IntegerAt(data, prefix, v, rest)
  {
    hide DecodeInteger, HpackIntegers.Denoted;
    HpackIntegers.IntegerReads(data, prefix);
  }

  lemma {:induction false} StringIff(data: bytes, s: bytes, rest: bytes)
    ensures DecodeString(data) == Read(s, rest) <==> StringAt(data, s, rest)
  {
    hide DecodeInteger, IntegerAt, HuffmanTable.SourceDecode;
    if DecodeString(data) == Read(s, rest) {
      var i := DecodeInteger(data, 7);
      IntegerIff(data, 7, i.value, i.rest);
      assert Cut(data, i.rest, i.value, s, rest);
    }
    if StringAt(data, s, rest) {
      var n: nat, r: bytes :| IntegerAt(data, 7, n, r) && Cut(data, r, n, s, rest);
      IntegerIff(data, 7, n, r);
    }
  }

  /** The name part of a literal, as the decoder takes it. */
  function DecodeName(t: Table, data: bytes, prefix: nat): Read<bytes>
    requires 1 <= prefix <= 8
  {
    match DecodeInteger(data, prefix)
    case Failed => Failed
    case Read(i, rest) =>
      if i == 0 then DecodeString(rest)
      else if Lookup(t, i).None? then Failed else Read(Lookup(t, i).value.name, rest)
  }

  lemma {:induction false} NameIff(t: Table, data: bytes, prefix: nat, name: bytes, rest: bytes)
    requires 1 <= prefix <= 8
    ensures DecodeName(t, data, prefix) == Read(name, rest) <==> NameAt(t, data, prefix, name, rest)
  {
    hide DecodeInteger, IntegerAt, DecodeString, StringAt, Lookup, EntryAt;
    if DecodeName(t, data, prefix) == Read(name, rest) {
      var i := DecodeInteger(data, prefix);
      IntegerIff(data, prefix, i.value, i.rest);
      LookupIs(t, i.value);
      StringIff(i.rest, name, rest);
    }
    if NameAt(t, data, prefix, name, rest) {
      var i: nat, r: bytes :| IntegerAt(data, prefix, i, r) &&
        if i == 0 then StringAt(r, name, rest) else r == rest && EntryAt(t, i).Some? && EntryAt(t, i).value.name == name;
      IntegerIff(data, prefix, i, r);
      LookupIs(t, i);
      StringIff(r, name, rest);
    }
  }

  lemma {:induction false} LiteralIff(t: Table, data: bytes, prefix: nat, h: Header, rest: bytes)
    requires 1 <= prefix <= 8
    ensures DecodeLiteral(t, data, prefix) == Read(h, rest) <==> LiteralAt(t, data, prefix, h, rest)
  {
    hide DecodeName, DecodeString, NameAt, StringAt;
    LiteralByName(t, data, prefix);
    var n := DecodeName(t, data, prefix);
    if DecodeLiteral(t, data, prefix) == Read(h, rest) {
      NameIff(t, data, prefix, h.name, n.rest);
      StringIff(n.rest, h.value, rest);
    }
    if LiteralAt(t, data, prefix, h, rest) {
      var r: bytes :| NameAt(t, data, prefix, h.name, r) && StringAt(r, h.value, rest);
      NameIff(t, data, prefix, h.name, r);
      StringIff(r, h.value, rest);
    }
  }

  lemma LiteralByName(t: Table, data: bytes, prefix: nat)
    requires 1 <= prefix <= 8
    ensures DecodeLiteral(t, data, prefix)
         == match DecodeName(t, data, prefix)
            case Failed => Failed
            case Read(name, rest) =>
              match DecodeString(rest)
              case Failed => Failed
              case Read(value, later) => Read(Header(name, value), later)
  {
    hide DecodeInteger, DecodeString, Lookup;
  }

  /** One pass of the decode loop: the headers added, the operations on the table, and the rest. */
  datatype Pass = Refused | Pass(hs: seq<Header>, ops: seq<Op>, rest: bytes)

  function OnePass(t: Table, data: bytes): (r: Pass)
    requires data != []
    ensures r.Pass? ==> |r.rest| < |data|
  {
    hide DecodeLiteral, DecodeInteger, Lookup;
    if data[0] >= 128 then
      match DecodeInteger(data, 7)
      case Failed => Refused
      case Read(i, rest) => if Lookup(t, i).None? then Refused else Pass([Lookup(t, i).value], [], rest)
    else if data[0] >= 64 then
      match DecodeLiteral(t, data, 6)
      case Failed => Refused
      case Read(h, rest) => Pass([h], [Insert(h)], rest)
    else if data[0] >= 32 then
      match DecodeInteger(data, 5)
      case Failed => Refused
      case Read(max, rest) => Pass([], [Resize(max)], rest)
    else
      match DecodeLiteral(t, data, 4)
      case Failed => Refused
      case Read(h, rest) => Pass([h], [], rest)
  }

  lemma {:induction false} PassIff(t: Table, data: bytes, hs: seq<Header>, ops: seq<Op>, rest: bytes)
    requires data != []
    ensures OnePass(t, data) == Pass(hs, ops, rest) <==> RepAt(t, data, hs, ops, rest)
  {
    hide DecodeLiteral, DecodeInteger, Lookup, EntryAt, IntegerAt, LiteralAt;
    forall i: nat, p | p in {5, 7}
      ensures DecodeInteger(data, p) == Read(i, rest) <==> IntegerAt(data, p, i, rest)
      ensures Lookup(t, i) == EntryAt(t, i)
    {
      IntegerIff(data, p, i, rest);
      LookupIs(t, i);
    }
    forall h, p | p in {4, 6}
      ensures DecodeLiteral(t, data, p) == Read(h, rest) <==> LiteralAt(t, data, p, h, rest)
    {
      LiteralIff(t, data, p, h, rest);
    }
  }

  lemma {:induction false} LoopPass(t: Table, data: bytes, done: seq<Header>)
    requires t.Valid() && data != []
    ensures match OnePass(t, data)
            case Refused => DecodeFrom(t, data, done).headers.None?
            case Pass(hs, ops, rest) => DecodeFrom(t, data, done) == DecodeFrom(After(t, ops), rest, done + hs)
  {
    hide Add, SetMax, DecodeLiteral, DecodeInteger, Lookup, Step;
    var p := OnePass(t, data);
    if p.Pass? {
      assert p.hs == [] ==> done + p.hs == done;
      if p.ops == [] {
        Unchanged(t);
      } else {
        AfterOne(t, p.ops[0]);
        assert [p.ops[0]] == p.ops;
        Stepped(t, p.ops[0]);
      }
    }
  }

  lemma Unchanged(t: Table)
    requires t.Valid()
    ensures After(t, []) == t
  {
  }

  lemma Stepped(t: Table, op: Op)
    requires t.Valid()
    ensures Step(t, op) == match op case Insert(h) => Add(t, h) case Resize(max) => SetMax(t, max)
  {
  }

  lemma {:induction false} BlockIff(t: Table, data: bytes, done: seq<Header>, hs: seq<Header>, u: Table)
    requires t.Valid()
    ensures DecodeFrom(t, data, done) == Decoded(u, Some(done + hs)) <==> BlockAt(t, data, hs, u)
    decreases |data|
  {
    hide DecodeFrom, RepAt, After, OnePass;
    if data == [] {
      EndOfData(t, done, hs);
    } else {
      LoopPass(t, data, done);
      forall first, ops, rest
        ensures OnePass(t, data) == Pass(first, ops, rest) <==> RepAt(t, data, first, ops, rest)
      {
        PassIff(t, data, first, ops, rest);
      }
      var p := OnePass(t, data);
      if p.Pass? {
        RestIff(t, data, done, hs, u, p);
      }
    }
  }

  lemma EndOfData(t: Table, done: seq<Header>, hs: seq<Header>)
    requires t.Valid()
    ensures DecodeFrom(t, [], done) == Decoded(t, Some(done)) && (done + hs == done <==> hs == [])
  {
    assert |done + hs| == |done| + |hs|;
  }

  lemma {:induction false} RestIff(t: Table, data: bytes, done: seq<Header>, hs: seq<Header>, u: Table, p: Pass)
    requires t.Valid() && data != [] && p.Pass? && |p.rest| < |data|
    ensures DecodeFrom(After(t, p.ops), p.rest, done + p.hs) == Decoded(u, Some(done + hs))
       <==> Then(t, data, hs, u, p.hs, p.ops, p.rest)
    decreases |data|, 0
  {
    hide DecodeFrom, BlockAt, After;
    if p.hs <= hs {
      var later := hs[|p.hs|..];
      BlockIff(After(t, p.ops), p.rest, done + p.hs, later, u);
      assert done + p.hs + later == done + hs;
    } else {
      Grows(After(t, p.ops), p.rest, done + p.hs);
      SameFront(done, p.hs, hs);
    }
  }

  /** The headers so far stay in front. */
  lemma {:induction false} Grows(t: Table, data: bytes, done: seq<Header>)
    requires t.Valid()
    ensures DecodeFrom(t, data, done).headers.Some? ==> done <= DecodeFrom(t, data, done).headers.value
    decreases |data|
  {
    hide OnePass, DecodeFrom, After;
    if data == [] {
      EndOfData(t, done, []);
    } else {
      LoopPass(t, data, done);
      var p := OnePass(t, data);
      if p.Pass? {
        Grows(After(t, p.ops), p.rest, done + p.hs);
        assert done <= done + p.hs;
      }
    }
  }

  lemma SameFront(done: seq<Header>, a: seq<Header>, b: seq<Header>)
    ensures done + a <= done + b ==> a <= b
  {
    if done + a <= done + b {
      assert forall i | 0 <= i < |a| :: (done + a)[|done| + i] == a[i];
      assert forall i | 0 <= i < |a| :: (done + b)[|done| + i] == b[i];
    }
  }

  /** A block is accepted, with these headers and this table after it, exactly when its bytes say so. */
  lemma {:induction false} DecodeIff(t: Table, data: bytes, hs: seq<Header>, u: Table)
    requires t.Valid()
    ensures Decode(t, data) == Decoded(u, Some(hs)) <==> BlockAt(t, data, hs, u)
  {
    hide DecodeFrom, BlockAt;
    BlockIff(t, data, [], hs, u);
    assert [] + hs == hs;
  }
}
