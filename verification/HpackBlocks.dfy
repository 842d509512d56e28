/**
 * Header blocks as any peer may write them: the representations of section 6 of RFC 7541, with names and values
 * by reference to either table, plain or Huffman-coded, and what decoding a list of them comes to.
 */
module HpackBlocks {
  import opened Common
  import opened Hpack
  import opened HpackCorrect
  import opened HpackTable
  import HuffmanTable

  // ----- Representations -----

  /** A string literal: its bytes, or their Huffman coding. */
  datatype Text = Plain(text: bytes) | Packed(text: bytes, data: bytes, pad: nat) {
    ghost predicate Valid() {
      match this
      case Plain(s) => |s| < 0x1_0000_0000_0000_0000
      case Packed(s, data, pad) =>
        |data| < 0x1_0000_0000_0000_0000 && pad < 8 && HuffmanTable.Encodes(data, s, pad) && HuffmanTable.Decodable(s)
    }

    function Render(): bytes {
      match this
      case Plain(s) => EncodeString(s)
      case Packed(_, data, _) => HuffmanText(data)
    }
  }

  datatype Name = Ref(index: nat) | Spelled(text: Text)

  /** Section 6.2: with incremental indexing, without indexing, never indexed. */
  datatype Indexing = Incremental | Without | Never {
    function Prefix(): nat {
      if this == Incremental then 6 else 4
    }

    function Pattern(): byte {
      match this
      case Incremental => 0x40
      case Without => 0
      case Never => 0x10
    }
  }

  datatype Rep =
    | Indexed(index: nat)
    | Literal(how: Indexing, name: Name, value: Text)
    | SizeUpdate(max: nat)
  {
    /** Numbers below 2^64 and strings the decoder can read; whether references resolve depends on the table. */
    ghost predicate Valid() {
      match this
      case Indexed(i) => i < 0x1_0000_0000_0000_0000
      case Literal(_, name, value) =>
        value.Valid() && if name.Ref? then 0 < name.index < 0x1_0000_0000_0000_0000 else name.text.Valid()
      case SizeUpdate(max) => max < 0x1_0000_0000_0000_0000
    }

    function Render(): bytes {
      Patterns();
      match this
      case Indexed(i) => EncodeInteger(i, 7, 0x80)
      case Literal(how, Ref(i), value) => EncodeInteger(i, how.Prefix(), how.Pattern()) + value.Render()
      case Literal(how, Spelled(name), value) =>
        EncodeInteger(0, how.Prefix(), how.Pattern()) + name.Render() + value.Render()
      case SizeUpdate(max) => EncodeInteger(max, 5, 0x20)
    }
  }

  lemma Patterns()
    ensures Pow2(7) == 128 && Pow2(6) == 64 && Pow2(5) == 32 && Pow2(4) == 16
  {
  }

  function RenderBlock(reps: seq<Rep>): bytes {
    if reps == [] then [] else reps[0].Render() + RenderBlock(reps[1..])
  }

  // ----- What they mean -----

  function NameOf(t: Table, name: Name): Option<bytes> {
    match name
    case Ref(i) => (match Lookup(t, i) case None => None case Some(e) => Some(e.name))
    case Spelled(text) => Some(text.text)
  }

  /** The header a representation adds to the list, if it adds one and its references resolve. */
  function HeaderOf(t: Table, r: Rep): Option<Header> {
    match r
    case Indexed(i) => Lookup(t, i)
    case Literal(_, name, value) => (match NameOf(t, name) case None => None case Some(n) => Some(Header(n, value.text)))
    case SizeUpdate(_) => None
  }

  predicate Resolves(t: Table, r: Rep) {
    r.SizeUpdate? || HeaderOf(t, r).Some?
  }

  /** What a representation does to the table. */
  function OpsOf(t: Table, r: Rep): seq<Op>
    requires Resolves(t, r)
  {
    match r
    case Literal(Incremental, _, _) => [Insert(HeaderOf(t, r).value)]
    case SizeUpdate(max) => [Resize(max)]
    case _ => []
  }

  function Joined(done: seq<Header>, hs: Option<seq<Header>>): Option<seq<Header>> {
    if hs.None? then None else Some(done + hs.value)
  }

  lemma JoinedTwice(a: seq<Header>, b: seq<Header>, hs: Option<seq<Header>>)
    ensures Joined(a, Joined(b, hs)) == Joined(a + b, hs)
  {
    if hs.Some? {
      assert a + (b + hs.value) == a + b + hs.value;
    }
  }

  /** The header of a representation, or none for a size update. */
  function Added(t: Table, r: Rep): seq<Header>
    requires Resolves(t, r)
  {
    if r.SizeUpdate? then [] else [HeaderOf(t, r).value]
  }

  /** The operations of a whole block, up to the first reference that does not resolve. */
  function BlockOps(t: Table, reps: seq<Rep>): seq<Op>
    requires t.Valid()
    decreases |reps|
  {
    if reps == [] || !Resolves(t, reps[0]) then []
    else
      var ops := OpsOf(t, reps[0]);
      ops + BlockOps(After(t, ops), reps[1..])
  }

  /** The header list of a whole block, if all references resolve. */
  function BlockHeaders(t: Table, reps: seq<Rep>): Option<seq<Header>>
    requires t.Valid()
    decreases |reps|
  {
    if reps == [] then Some([])
    else if !Resolves(t, reps[0]) then None
    else
      Joined(Added(t, reps[0]), BlockHeaders(After(t, OpsOf(t, reps[0])), reps[1..]))
  }

  // ----- Decoding them -----

  lemma TextDecoded(text: Text, rest: bytes)
    requires text.Valid()
    ensures DecodeString(text.Render() + rest) == Read(text.text, rest)
  {
    hide DecodeString, HuffmanTable.Encodes, HuffmanTable.Decodable, EncodeInteger;
    match text {
      case Plain(s) => StringRoundTrip(s, rest);
      case Packed(s, data, pad) => HuffmanStringIff(s, data, pad, rest);
    }
  }

  /** An integer with a pattern above it, as the decode loop meets it. */
  lemma IntegerMet(v: nat, prefix: nat, pattern: byte, rest: bytes)
    requires 4 <= prefix <= 7 && pattern in {0, 0x10, 0x20, 0x40, 0x80} && v < WORD
    requires (pattern as int) % Pow2(prefix) == 0 && pattern + Pow2(prefix) <= 256
    ensures var w := EncodeInteger(v, prefix, pattern) + rest;
            && w != [] && pattern <= w[0] < pattern + Pow2(prefix) && DecodeInteger(w, prefix) == Read(v, rest)
  {
    hide Pow2, EncodeInteger, DecodeInteger;
    IntegerRoundTrip(v, prefix, pattern, rest);
    FirstByte(v, prefix, pattern);
    var w := EncodeInteger(v, prefix, pattern) + rest;
    assert w[0] == EncodeInteger(v, prefix, pattern)[0];
  }

  lemma LiteralMet(t: Table, r: Rep, rest: bytes)
    requires r.Literal? && r.Valid()
    ensures var w := r.Render() + rest;
            && w != [] && r.how.Pattern() <= w[0] < r.how.Pattern() + (if r.how == Incremental then 64 else 16)
            && DecodeLiteral(t, w, r.how.Prefix())
               == match HeaderOf(t, r)
                  case None => Failed
                  case Some(h) => Read(h, rest)
  {
    hide Pow2, EncodeInteger, DecodeInteger, DecodeString, Lookup, Text.Valid, Text.Render;
    Patterns();
    var value := r.value.Render() + rest;
    TextDecoded(r.value, rest);
    match r.name {
      case Ref(i) =>
        IntegerMet(i, r.how.Prefix(), r.how.Pattern(), value);
        assert r.Render() + rest == EncodeInteger(i, r.how.Prefix(), r.how.Pattern()) + value;
      case Spelled(name) =>
        IntegerMet(0, r.how.Prefix(), r.how.Pattern(), name.Render() + value);
        TextDecoded(name, value);
        assert r.Render() + rest == EncodeInteger(0, r.how.Prefix(), r.how.Pattern()) + (name.Render() + value);
    }
  }

  /** One turn of the decode loop. */
  lemma RepDecoded(t: Table, r: Rep, rest: bytes, done: seq<Header>)
    requires t.Valid() && r.Valid()
    ensures DecodeFrom(t, r.Render() + rest, done)
         == if Resolves(t, r)
            then DecodeFrom(After(t, OpsOf(t, r)), rest, done + Added(t, r))
            else Decoded(t, None)
  {
    hide Pow2, EncodeInteger, DecodeInteger, DecodeLiteral, Lookup, Text.Valid, Text.Render, Add, SetMax;
    Patterns();
    match r {
      case Indexed(i) =>
        IntegerMet(i, 7, 0x80, rest);
      case Literal(how, _, _) =>
        LiteralMet(t, r, rest);
        if how == Incremental && HeaderOf(t, r).Some? {
          AfterOne(t, Insert(HeaderOf(t, r).value));
        }
      case SizeUpdate(max) =>
        IntegerMet(max, 5, 0x20, rest);
        AfterOne(t, Resize(max));
        assert done + [] == done;
    }
  }

  ghost predicate AllValid(reps: seq<Rep>) {
    forall i | 0 <= i < |reps| :: reps[i].Valid()
  }

  lemma {:induction false} BlockDecodedFrom(t: Table, reps: seq<Rep>, done: seq<Header>)
    requires t.Valid() && AllValid(reps)
    ensures DecodeFrom(t, RenderBlock(reps), done) == Decoded(After(t, BlockOps(t, reps)), Joined(done, BlockHeaders(t, reps)))
    decreases |reps|
  {
    hide Rep.Render, Rep.Valid, Resolves, OpsOf, Added, DecodeFrom, Joined, After;
    if reps == [] {
      NothingDecoded(t, done);
    } else {
      var r := reps[0];
      RepDecoded(t, r, RenderBlock(reps[1..]), done);
      if Resolves(t, r) {
        var ops := OpsOf(t, r);
        var t' := After(t, ops);
        BlockDecodedFrom(t', reps[1..], done + Added(t, r));
        AfterAppend(t, ops, BlockOps(t', reps[1..]));
        JoinedTwice(done, Added(t, r), BlockHeaders(t', reps[1..]));
      } else {
        NothingDone(t, done);
      }
    }
  }

  lemma NothingDecoded(t: Table, done: seq<Header>)
    requires t.Valid()
    ensures DecodeFrom(t, [], done) == Decoded(After(t, []), Joined(done, Some([])))
  {
    assert done + [] == done;
  }

  lemma NothingDone(t: Table, done: seq<Header>)
    requires t.Valid()
    ensures After(t, []) == t && Joined(done, None) == None
  {
  }

  /**
   * From any table, decoding any list of representations gives the headers they stand for, or nothing if a reference
   * does not resolve, and leaves the table that their insertions and size updates leave.
   */
  lemma {:induction false} BlockDecoded(t: Table, reps: seq<Rep>)
    requires t.Valid() && AllValid(reps)
    ensures Decode(t, RenderBlock(reps)) == Decoded(After(t, BlockOps(t, reps)), BlockHeaders(t, reps))
  {
    hide DecodeFrom, RenderBlock, BlockOps, BlockHeaders, AllValid;
    BlockDecodedFrom(t, reps, []);
    if BlockHeaders(t, reps).Some? {
      assert [] + BlockHeaders(t, reps).value == BlockHeaders(t, reps).value;
    }
  }

  // ----- Any block at all -----

  /** The operations the decode loop performs on any bytes, in order. */
  function LoopOps(t: Table, data: bytes): (ops: seq<Op>)
    requires t.Valid()
    decreases |data|
  {
    hide Add, SetMax, DecodeLiteral, DecodeInteger, Lookup;
    if data == [] then []
    else if data[0] >= 0x80 then
      match DecodeInteger(data, 7)
      case Failed => []
      case Read(index, rest) => if Lookup(t, index).None? then [] else LoopOps(t, rest)
    else if data[0] >= 0x40 then
      match DecodeLiteral(t, data, 6)
      case Failed => []
      case Read(h, rest) => [Insert(h)] + LoopOps(Add(t, h), rest)
    else if data[0] >= 0x20 then
      match DecodeInteger(data, 5)
      case Failed => []
      case Read(size, rest) => [Resize(size)] + LoopOps(SetMax(t, size), rest)
    else
      match DecodeLiteral(t, data, 4)
      case Failed => []
      case Read(_, rest) => LoopOps(t, rest)
  }

  lemma {:induction false} LoopTable(t: Table, data: bytes, done: seq<Header>)
    requires t.Valid()
    ensures DecodeFrom(t, data, done).table == After(t, LoopOps(t, data))
    decreases |data|
  {
    hide Add, SetMax, DecodeLiteral, DecodeInteger, Lookup;
    if data == [] {
    } else if data[0] >= 0x80 {
      var r := DecodeInteger(data, 7);
      if r.Read? && Lookup(t, r.value).Some? {
        LoopTable(t, r.rest, done + [Lookup(t, r.value).value]);
      }
    } else if data[0] >= 0x40 {
      var r := DecodeLiteral(t, data, 6);
      if r.Read? {
        LoopTable(Add(t, r.value), r.rest, done + [r.value]);
        FirstOp(t, Insert(r.value), LoopOps(Add(t, r.value), r.rest));
      }
    } else if data[0] >= 0x20 {
      var r := DecodeInteger(data, 5);
      if r.Read? {
        LoopTable(SetMax(t, r.value), r.rest, done);
        FirstOp(t, Resize(r.value), LoopOps(SetMax(t, r.value), r.rest));
      }
    } else {
      var r := DecodeLiteral(t, data, 4);
      if r.Read? {
        LoopTable(t, r.rest, done + [r.value]);
      }
    }
  }

  lemma FirstOp(t: Table, op: Op, ops: seq<Op>)
    requires t.Valid()
    ensures After(t, [op] + ops) == After(Step(t, op), ops)
  {
    hide Step;
    assert ([op] + ops)[1..] == ops;
  }

  /** Decoding a block, well formed or not, accepted or refused, is performing its operations. */
  lemma DecodedTable(t: Table, data: bytes)
    requires t.Valid()
    ensures Decode(t, data).table == After(t, LoopOps(t, data))
  {
    hide DecodeFrom, LoopOps, After;
    LoopTable(t, data, []);
  }

  /** On representations they are the insertions and size updates written down. */
  lemma {:induction false} LoopOpsOfBlock(t: Table, reps: seq<Rep>)
    requires t.Valid() && AllValid(reps)
    ensures LoopOps(t, RenderBlock(reps)) == BlockOps(t, reps)
    decreases |reps|
  {
    hide Rep.Render, Rep.Valid, HeaderOf, DecodeInteger, DecodeLiteral, Lookup, Add, SetMax, Step;
    if reps != [] {
      LoopOpsOfRep(t, reps[0], RenderBlock(reps[1..]));
      if Resolves(t, reps[0]) {
        LoopOpsOfBlock(After(t, OpsOf(t, reps[0])), reps[1..]);
      }
    }
  }

  lemma LoopOpsOfRep(t: Table, r: Rep, rest: bytes)
    requires t.Valid() && r.Valid()
    ensures LoopOps(t, r.Render() + rest)
         == if Resolves(t, r) then OpsOf(t, r) + LoopOps(After(t, OpsOf(t, r)), rest) else []
  {
    hide Pow2, EncodeInteger, DecodeInteger, DecodeLiteral, Lookup, Text.Valid, Text.Render, Add, SetMax;
    Patterns();
    match r {
      case Indexed(i) =>
        IntegerMet(i, 7, 0x80, rest);
      case Literal(how, _, _) =>
        LiteralMet(t, r, rest);
        if how == Incremental && HeaderOf(t, r).Some? {
          AfterOne(t, Insert(HeaderOf(t, r).value));
        }
      case SizeUpdate(max) =>
        IntegerMet(max, 5, 0x20, rest);
        AfterOne(t, Resize(max));
    }
    if Resolves(t, r) && OpsOf(t, r) == [] {
      assert [] + LoopOps(t, rest) == LoopOps(t, rest);
    }
  }
}
