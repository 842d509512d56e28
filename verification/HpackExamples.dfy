/** The examples of appendix C of RFC 7541, and the shape of the static table of its appendix A. */
module HpackExamples {
  import opened Common
  import opened Hpack
  import opened HpackBlocks
  import opened HpackCorrect
  import T = HpackTable
  import Bits
  import Huffman
  import HuffmanRuns
  import HuffmanTable

  // ----- Appendix A -----

  /** Alphabetical order of names, a shorter name after the longer ones that it starts. */
  predicate Precedes(a: string, b: string, k: nat) {
    k < |a| && k <= |b| && a[..k] == b[..k] && (k == |b| || a[k] < b[k])
  }

  ghost predicate Before(a: string, b: string) {
    exists k: nat :: Precedes(a, b, k)
  }

  ghost predicate InOrder(i: nat) {
    Before(StaticPair(i).0, StaticPair(i + 1).0)
  }

  lemma InOrder0(i: nat)
    requires 15 <= i <= 26
    ensures InOrder(i)
  {
    match i
    case 15 => assert Precedes("accept-charset", "accept-encoding", 7);
    case 16 => assert Precedes("accept-encoding", "accept-language", 7);
    case 17 => assert Precedes("accept-language", "accept-ranges", 7);
    case 18 => assert Precedes("accept-ranges", "accept", 6);
    case 19 => assert Precedes("accept", "access-control-allow-origin", 4);
    case 20 => assert Precedes("access-control-allow-origin", "age", 1);
    case 21 => assert Precedes("age", "allow", 1);
    case 22 => assert Precedes("allow", "authorization", 1);
    case 23 => assert Precedes("authorization", "cache-control", 0);
    case 24 => assert Precedes("cache-control", "content-disposition", 1);
    case 25 => assert Precedes("content-disposition", "content-encoding", 8);
    case _ => assert Precedes("content-encoding", "content-language", 8);
  }

  lemma InOrder1(i: nat)
    requires 27 <= i <= 38
    ensures InOrder(i)
  {
    match i
    case 27 => assert Precedes("content-language", "content-length", 9);
    case 28 => assert Precedes("content-length", "content-location", 9);
    case 29 => assert Precedes("content-location", "content-range", 8);
    case 30 => assert Precedes("content-range", "content-type", 8);
    case 31 => assert Precedes("content-type", "cookie", 2);
    case 32 => assert Precedes("cookie", "date", 0);
    case 33 => assert Precedes("date", "etag", 0);
    case 34 => assert Precedes("etag", "expect", 1);
    case 35 => assert Precedes("expect", "expires", 3);
    case 36 => assert Precedes("expires", "from", 0);
    case 37 => assert Precedes("from", "host", 0);
    case _ => assert Precedes("host", "if-match", 0);
  }

  lemma InOrder2(i: nat)
    requires 39 <= i <= 49
    ensures InOrder(i)
  {
    match i
    case 39 => assert Precedes("if-match", "if-modified-since", 4);
    case 40 => assert Precedes("if-modified-since", "if-none-match", 3);
    case 41 => assert Precedes("if-none-match", "if-range", 3);
    case 42 => assert Precedes("if-range", "if-unmodified-since", 3);
    case 43 => assert Precedes("if-unmodified-since", "last-modified", 0);
    case 44 => assert Precedes("last-modified", "link", 1);
    case 45 => assert Precedes("link", "location", 1);
    case 46 => assert Precedes("location", "max-forwards", 0);
    case 47 => assert Precedes("max-forwards", "proxy-authenticate", 0);
    case 48 => assert Precedes("proxy-authenticate", "proxy-authorization", 10);
    case _ => assert Precedes("proxy-authorization", "range", 0);
  }

  lemma InOrder3(i: nat)
    requires 50 <= i <= 60
    ensures InOrder(i)
  {
    match i
    case 50 => assert Precedes("range", "referer", 1);
    case 51 => assert Precedes("referer", "refresh", 3);
    case 52 => assert Precedes("refresh", "retry-after", 2);
    case 53 => assert Precedes("retry-after", "server", 0);
    case 54 => assert Precedes("server", "set-cookie", 2);
    case 55 => assert Precedes("set-cookie", "strict-transport-security", 1);
    case 56 => assert Precedes("strict-transport-security", "transfer-encoding", 0);
    case 57 => assert Precedes("transfer-encoding", "user-agent", 0);
    case 58 => assert Precedes("user-agent", "vary", 0);
    case 59 => assert Precedes("vary", "via", 1);
    case _ => assert Precedes("via", "www-authenticate", 0);
  }

  /** The pseudo-headers and their common values; then the other names in order, with no value but one. */
  lemma StaticTable()
    ensures StaticPair(1) == (":authority", "")
    ensures StaticPair(2) == (":method", "GET") && StaticPair(3) == (":method", "POST")
    ensures StaticPair(4) == (":path", "/") && StaticPair(5) == (":path", "/index.html")
    ensures StaticPair(6) == (":scheme", "http") && StaticPair(7) == (":scheme", "https")
    ensures forall i | 8 <= i <= 14 :: StaticPair(i).0 == ":status"
    ensures StaticPair(8).1 == "200" && StaticPair(9).1 == "204" && StaticPair(10).1 == "206" && StaticPair(11).1 == "304"
    ensures StaticPair(12).1 == "400" && StaticPair(13).1 == "404" && StaticPair(14).1 == "500"
    ensures forall i | 15 <= i < 61 :: InOrder(i)
    ensures forall i | 15 <= i <= 61 :: StaticPair(i).1 == if i == 16 then "gzip, deflate" else ""
  {
    forall i | 15 <= i < 61
      ensures InOrder(i)
    {
      hide InOrder;
      if i < 27 { InOrder0(i); } else if i < 39 { InOrder1(i); } else if i < 50 { InOrder2(i); } else { InOrder3(i); }
    }
  }

  // ----- Appendix C: one representation -----

  lemma SmallInteger(v: nat, prefix: nat, pattern: byte)
    requires 1 <= prefix <= 8 && pattern + Pow2(prefix) <= 256 && v < Pow2(prefix) - 1
    ensures EncodeInteger(v, prefix, pattern) == [pattern + v]
  {
  }

  /** An indexed field. */
  lemma IndexedRead(t: Table, i: nat, h: Header, rest: bytes, done: seq<Header>)
    requires t.Valid() && i < 127 && Lookup(t, i) == Some(h)
    ensures DecodeFrom(t, [0x80 + i] + rest, done) == DecodeFrom(t, rest, done + [h])
  {
    hide DecodeFrom, Lookup, Pow2, EncodeInteger;
    Patterns();
    SmallInteger(i, 7, 0x80);
    RepDecoded(t, Indexed(i), rest, done);
    NothingChanges(t);
  }

  lemma NothingChanges(t: Table)
    requires t.Valid()
    ensures T.After(t, []) == t
  {
  }

  /** A literal with incremental indexing whose name is given by reference. */
  lemma NamedRead(t: Table, i: nat, name: bytes, value: bytes, rest: bytes, done: seq<Header>)
    requires t.Valid() && 0 < i < 63 && |value| < 127 && Lookup(t, i).Some? && Lookup(t, i).value.name == name
    ensures DecodeFrom(t, [0x40 + i, |value|] + value + rest, done)
         == DecodeFrom(Add(t, Header(name, value)), rest, done + [Header(name, value)])
  {
    hide DecodeFrom, Lookup, Pow2, EncodeInteger, Add;
    Patterns();
    SmallInteger(i, 6, 0x40);
    SmallInteger(|value|, 7, 0);
    var r := Literal(Incremental, Ref(i), Plain(value));
    assert r.Render() == [0x40 + i] + ([|value|] + value) == [0x40 + i, |value|] + value;
    RepDecoded(t, r, rest, done);
    T.AfterOne(t, T.Insert(Header(name, value)));
  }

  /** A literal with incremental indexing, name and value spelled out. */
  lemma SpelledRead(t: Table, name: bytes, value: bytes, rest: bytes, done: seq<Header>)
    requires t.Valid() && |name| < 127 && |value| < 127
    ensures DecodeFrom(t, [0x40, |name|] + name + [|value|] + value + rest, done)
         == DecodeFrom(Add(t, Header(name, value)), rest, done + [Header(name, value)])
  {
    hide DecodeFrom, Pow2, EncodeInteger, Add;
    Patterns();
    SmallInteger(0, 6, 0x40);
    SmallInteger(|name|, 7, 0);
    SmallInteger(|value|, 7, 0);
    var r := Literal(Incremental, Spelled(Plain(name)), Plain(value));
    assert r.Render() == [0x40] + ([|name|] + name) + ([|value|] + value);
    assert r.Render() == [0x40, |name|] + name + [|value|] + value;
    RepDecoded(t, r, rest, done);
    T.AfterOne(t, T.Insert(Header(name, value)));
  }

  lemma Stored(t: Table, h: Header)
    requires t.Valid() && t.size + h.Size() <= t.max
    ensures Add(t, h) == Table([h] + t.entries, t.size + h.Size(), t.max)
  {
  }

  lemma EndOfBlock(t: Table, done: seq<Header>)
    requires t.Valid()
    ensures DecodeFrom(t, [], done) == Decoded(t, Some(done))
  {
  }

  // ----- Appendix C.3: three requests -----

  function H(name: string, value: string): Header {
    Header(Raw(name), Raw(value))
  }

  function Table1(): Table {
    Table([H(":authority", "www.example.com")], 57, 4096)
  }

  function Table2(): Table {
    Table([H("cache-control", "no-cache"), H(":authority", "www.example.com")], 110, 4096)
  }

  function Table3(): Table {
    Table([H("custom-key", "custom-value"), H("cache-control", "no-cache"), H(":authority", "www.example.com")], 164, 4096)
  }

  lemma Sizes()
    ensures H(":authority", "www.example.com").Size() == 57 && H("cache-control", "no-cache").Size() == 53
    ensures H("custom-key", "custom-value").Size() == 54
  {
  }

  lemma TablesValid()
    ensures EMPTY.Valid() && Table1().Valid() && Table2().Valid() && Table3().Valid()
  {
    hide H;
    Sizes();
    var a, b, c := H(":authority", "www.example.com"), H("cache-control", "no-cache"), H("custom-key", "custom-value");
    assert [a][1..] == [] && [b, a][1..] == [a] && [c, b, a][1..] == [b, a];
    assert Total([]) == 0;
    assert Total([a]) == 57 + Total([]);
    assert Total([b, a]) == 53 + Total([a]);
    assert Total([c, b, a]) == 54 + Total([b, a]);
  }

  lemma StaticFound(t: Table)
    ensures Lookup(t, 1) == Some(H(":authority", "")) && Lookup(t, 2) == Some(H(":method", "GET"))
    ensures Lookup(t, 4) == Some(H(":path", "/")) && Lookup(t, 5) == Some(H(":path", "/index.html"))
    ensures Lookup(t, 6) == Some(H(":scheme", "http")) && Lookup(t, 7) == Some(H(":scheme", "https"))
    ensures Lookup(t, 24) == Some(H("cache-control", ""))
  {
  }

  lemma EntryFound(t: Table, k: nat)
    requires k < |t.entries|
    ensures Lookup(t, 62 + k) == Some(t.entries[k])
  {
  }

  lemma Spelling()
    ensures |Raw("www.example.com")| == 15 && |Raw("no-cache")| == 8 && |Raw("custom-key")| == 10 && |Raw("custom-value")| == 12
    ensures H(":authority", "").name == Raw(":authority") && H("cache-control", "").name == Raw("cache-control")
  {
  }

  lemma FirstRequest()
    ensures EMPTY.Valid()
    ensures Decode(EMPTY, [0x82, 0x86, 0x84, 0x41, 0x0f] + Raw("www.example.com"))
         == Decoded(Table1(), Some([H(":method", "GET"), H(":scheme", "http"), H(":path", "/"), H(":authority", "www.example.com")]))
  {
    hide DecodeFrom, Raw, Add, Lookup, Table.Valid;
    TablesValid();
    StaticFound(EMPTY);
    Spelling();
    Sizes();
    var text, h := Raw("www.example.com"), H(":authority", "www.example.com");
    var m, c, p := H(":method", "GET"), H(":scheme", "http"), H(":path", "/");
    var r4 := [0x41, 0x0f] + text + [];
    var r3 := [0x84] + r4;
    var r2 := [0x86] + r3;
    assert [0x82, 0x86, 0x84, 0x41, 0x0f] + text == [0x82] + r2;
    IndexedRead(EMPTY, 2, m, r2, []);
    IndexedRead(EMPTY, 6, c, r3, [] + [m]);
    IndexedRead(EMPTY, 4, p, r4, [] + [m] + [c]);
    NamedRead(EMPTY, 1, Raw(":authority"), text, [], [] + [m] + [c] + [p]);
    Stored(EMPTY, h);
    assert [h] + EMPTY.entries == [h];
    EndOfBlock(Table1(), [] + [m] + [c] + [p] + [h]);
    assert [] + [m] + [c] + [p] + [h] == [m, c, p, h];
  }

  lemma SecondRequest()
    ensures Table1().Valid()
    ensures Decode(Table1(), [0x82, 0x86, 0x84, 0xbe, 0x58, 0x08] + Raw("no-cache"))
         == Decoded(Table2(), Some([H(":method", "GET"), H(":scheme", "http"), H(":path", "/"),
                                    H(":authority", "www.example.com"), H("cache-control", "no-cache")]))
  {
    hide DecodeFrom, Raw, Add, Lookup, Table.Valid;
    TablesValid();
    var t := Table1();
    StaticFound(t);
    Spelling();
    Sizes();
    var text, h := Raw("no-cache"), H("cache-control", "no-cache");
    var m, c, p, a := H(":method", "GET"), H(":scheme", "http"), H(":path", "/"), H(":authority", "www.example.com");
    var r5 := [0x58, 0x08] + text + [];
    var r4 := [0xbe] + r5;
    var r3 := [0x84] + r4;
    var r2 := [0x86] + r3;
    assert [0x82, 0x86, 0x84, 0xbe, 0x58, 0x08] + text == [0x82] + r2;
    EntryFound(t, 0);
    IndexedRead(t, 2, m, r2, []);
    IndexedRead(t, 6, c, r3, [] + [m]);
    IndexedRead(t, 4, p, r4, [] + [m] + [c]);
    IndexedRead(t, 62, a, r5, [] + [m] + [c] + [p]);
    NamedRead(t, 24, Raw("cache-control"), text, [], [] + [m] + [c] + [p] + [a]);
    Stored(t, h);
    assert [h] + t.entries == [h, a];
    EndOfBlock(Table2(), [] + [m] + [c] + [p] + [a] + [h]);
    assert [] + [m] + [c] + [p] + [a] + [h] == [m, c, p, a, h];
  }

  lemma ThirdRequest()
    ensures Table2().Valid()
    ensures Decode(Table2(), [0x82, 0x87, 0x85, 0xbf, 0x40, 0x0a] + Raw("custom-key") + [0x0c] + Raw("custom-value"))
         == Decoded(Table3(), Some([H(":method", "GET"), H(":scheme", "https"), H(":path", "/index.html"),
                                    H(":authority", "www.example.com"), H("custom-key", "custom-value")]))
  {
    hide DecodeFrom, Raw, Add, Lookup, Table.Valid;
    TablesValid();
    var t := Table2();
    StaticFound(t);
    Spelling();
    Sizes();
    var n, v, h := Raw("custom-key"), Raw("custom-value"), H("custom-key", "custom-value");
    var m, c, p, a := H(":method", "GET"), H(":scheme", "https"), H(":path", "/index.html"), H(":authority", "www.example.com");
    var r5 := [0x40, 0x0a] + n + [0x0c] + v + [];
    var r4 := [0xbf] + r5;
    var r3 := [0x85] + r4;
    var r2 := [0x87] + r3;
    assert [0x82, 0x87, 0x85, 0xbf, 0x40, 0x0a] + n + [0x0c] + v == [0x82] + r2;
    EntryFound(t, 1);
    IndexedRead(t, 2, m, r2, []);
    IndexedRead(t, 7, c, r3, [] + [m]);
    IndexedRead(t, 5, p, r4, [] + [m] + [c]);
    IndexedRead(t, 63, a, r5, [] + [m] + [c] + [p]);
    SpelledRead(t, n, v, [], [] + [m] + [c] + [p] + [a]);
    Stored(t, h);
    assert [h] + t.entries == Table3().entries;
    EndOfBlock(Table3(), [] + [m] + [c] + [p] + [a] + [h]);
    assert [] + [m] + [c] + [p] + [a] + [h] == [m, c, p, a, h];
  }

  // ----- Appendix C.4: the same in Huffman code -----

  lemma ExampleLengths()
    ensures var t := HuffmanTable.HuffmanCodes();
            && t[119].bits == 7 && t[46].bits == 6 && t[101].bits == 5 && t[120].bits == 7 && t[97].bits == 5
            && t[109].bits == 6 && t[112].bits == 6 && t[108].bits == 6 && t[99].bits == 5 && t[111].bits == 5
            && t[46] == Huffman.Code(0x17, 6)
  {
    assert HuffmanTable.RowAt(7)[7].bits == 7 && HuffmanTable.RowAt(2)[14] == Huffman.Code(0x17, 6);
    assert HuffmanTable.RowAt(6)[5].bits == 5 && HuffmanTable.RowAt(7)[8].bits == 7 && HuffmanTable.RowAt(6)[1].bits == 5;
    assert HuffmanTable.RowAt(6)[13].bits == 6 && HuffmanTable.RowAt(7)[0].bits == 6 && HuffmanTable.RowAt(6)[12].bits == 6;
    assert HuffmanTable.RowAt(6)[3].bits == 5 && HuffmanTable.RowAt(6)[15].bits == 5;
  }

  /** A symbol that is complete passes the verdict on. */
  lemma Passes(t: Huffman.Table, s: bytes, i: nat, pos: nat, n: nat)
    requires Huffman.WellFormed(t) && i < |s| && t[s[i]].bits == n && pos + n <= (pos + 12) / 8 * 8
    requires HuffmanRuns.Reading(t, s[i + 1..], pos + n) == None
    ensures HuffmanRuns.Reading(t, s[i..], pos) == None
  {
    hide Huffman.CodeBits, Bits.Ones;
    assert s[i..][0] == s[i] && s[i..][1..] == s[i + 1..];
  }

  lemma Stops(t: Huffman.Table, s: bytes, i: nat)
    requires Huffman.WellFormed(t) && i < |s| && t[s[i]] == Huffman.Code(0x17, 6)
    ensures HuffmanRuns.Reading(t, s[i..], 67) == None
  {
    hide Huffman.CodeBits, Bits.Ones;
    DotCut();
    assert s[i..][0] == s[i];
  }

  lemma DotCut()
    ensures Huffman.CodeBits(Huffman.Code(0x17, 6))[..5] != Bits.Ones(5)
  {
    hide Bits.ToBits;
    HuffmanTable.NibbleBits(0x1, 0x7, 2);
    HuffmanTable.FewBits();
    assert Huffman.CodeBits(Huffman.Code(0x17, 6))[..5][0] == false;
    assert Bits.Ones(5)[0];
  }

  lemma Refused(t: Huffman.Table, s: bytes)
    requires Huffman.WellFormed(t) && |s| == 15 && t[46] == Huffman.Code(0x17, 6)
    requires t[119].bits == 7 && t[101].bits == 5 && t[120].bits == 7 && t[97].bits == 5 && t[109].bits == 6
    requires t[112].bits == 6 && t[108].bits == 6
    requires s[0] == 119 && s[1] == 119 && s[2] == 119 && s[3] == 46 && s[4] == 101 && s[5] == 120 && s[6] == 97
    requires s[7] == 109 && s[8] == 112 && s[9] == 108 && s[10] == 101 && s[11] == 46
    ensures HuffmanRuns.Reading(t, s, 0) == None
  {
    hide HuffmanRuns.Reading;
    Stops(t, s, 11);
    Passes(t, s, 10, 62, 5);
    Passes(t, s, 9, 56, 6);
    Passes(t, s, 8, 50, 6);
    Passes(t, s, 7, 44, 6);
    Passes(t, s, 6, 39, 5);
    Passes(t, s, 5, 32, 7);
    Passes(t, s, 4, 27, 5);
    Passes(t, s, 3, 21, 6);
    Passes(t, s, 2, 14, 7);
    Passes(t, s, 1, 7, 7);
    Passes(t, s, 0, 0, 7);
    assert s[0..] == s;
  }

  /** The authority of the example, in Huffman code, is refused: the code of its second dot is cut by a byte boundary. */
  lemma ExampleRefused()
    ensures HuffmanTable.SourceReading(Raw("www.example.com")) == None
  {
    hide HuffmanTable.HuffmanCodes, HuffmanRuns.Reading;
    HuffmanTable.TableWellFormed();
    ExampleLengths();
    var s := Raw("www.example.com");
    assert s[0] == 119 && s[1] == 119 && s[2] == 119 && s[3] == 46 && s[4] == 101 && s[5] == 120 && s[6] == 97;
    assert s[7] == 109 && s[8] == 112 && s[9] == 108 && s[10] == 101 && s[11] == 46;
    Refused(HuffmanTable.HuffmanCodes(), s);
  }

  /** So no Huffman coding of it is read, as that of appendix C.4.1. */
  lemma ExampleStringRefused(data: bytes, pad: nat, rest: bytes)
    requires |data| < WORD && pad < 8 && HuffmanTable.Encodes(data, Raw("www.example.com"), pad)
    ensures DecodeString(HuffmanText(data) + rest) == Failed
  {
    hide DecodeString, HuffmanText, HuffmanTable.Encodes, HuffmanTable.SourceReading;
    ExampleRefused();
    HuffmanStringRead(Raw("www.example.com"), data, pad, rest);
  }
}
