/** HPACK header compression as src/http2.cpp implements it (RFC 7541), as functions on values. */
module Hpack {
  import opened Common
  import HuffmanTable

  datatype Header = Header(name: bytes, value: bytes) {
    function Size(): nat {
      |name| + |value| + 32
    }
  }

  const WORD: nat := 0x1_0000_0000_0000_0000
  const STATIC_SIZE: nat := 61

  /** The static table of Appendix A; entry 0 is not used. */
  function StaticPair(i: nat): (string, string) {
    match i
    case 1 => (":authority", "")
    case 2 => (":method", "GET")
    case 3 => (":method", "POST")
    case 4 => (":path", "/")
    case 5 => (":path", "/index.html")
    case 6 => (":scheme", "http")
    case 7 => (":scheme", "https")
    case 8 => (":status", "200")
    case 9 => (":status", "204")
    case 10 => (":status", "206")
    case 11 => (":status", "304")
    case 12 => (":status", "400")
    case 13 => (":status", "404")
    case 14 => (":status", "500")
    case 15 => ("accept-charset", "")
    case 16 => ("accept-encoding", "gzip, deflate")
    case 17 => ("accept-language", "")
    case 18 => ("accept-ranges", "")
    case 19 => ("accept", "")
    case 20 => ("access-control-allow-origin", "")
    case 21 => ("age", "")
    case 22 => ("allow", "")
    case 23 => ("authorization", "")
    case 24 => ("cache-control", "")
    case 25 => ("content-disposition", "")
    case 26 => ("content-encoding", "")
    case 27 => ("content-language", "")
    case 28 => ("content-length", "")
    case 29 => ("content-location", "")
    case 30 => ("content-range", "")
    case 31 => ("content-type", "")
    case 32 => ("cookie", "")
    case 33 => ("date", "")
    case 34 => ("etag", "")
    case 35 => ("expect", "")
    case 36 => ("expires", "")
    case 37 => ("from", "")
    case 38 => ("host", "")
    case 39 => ("if-match", "")
    case 40 => ("if-modified-since", "")
    case 41 => ("if-none-match", "")
    case 42 => ("if-range", "")
    case 43 => ("if-unmodified-since", "")
    case 44 => ("last-modified", "")
    case 45 => ("link", "")
    case 46 => ("location", "")
    case 47 => ("max-forwards", "")
    case 48 => ("proxy-authenticate", "")
    case 49 => ("proxy-authorization", "")
    case 50 => ("range", "")
    case 51 => ("referer", "")
    case 52 => ("refresh", "")
    case 53 => ("retry-after", "")
    case 54 => ("server", "")
    case 55 => ("set-cookie", "")
    case 56 => ("strict-transport-security", "")
    case 57 => ("transfer-encoding", "")
    case 58 => ("user-agent", "")
    case 59 => ("vary", "")
    case 60 => ("via", "")
    case 61 => ("www-authenticate", "")
    case _ => ("", "")
  }

  function StaticEntry(i: nat): Header {
    Header(Raw(StaticPair(i).0), Raw(StaticPair(i).1))
  }

  // ----- The dynamic table -----

  function Total(entries: seq<Header>): nat {
    if entries == [] then 0 else entries[0].Size() + Total(entries[1..])
  }

  datatype Table = Table(entries: seq<Header>, size: nat, max: nat) {
    /** The running byte count is the sum of the entry sizes. */
    predicate Exact() {
      size == Total(entries)
    }

    /** And it is within the maximum. */
    predicate Valid() {
      Exact() && size <= max
    }
  }

  const EMPTY := Table([], 0, 4096)

  lemma {:induction false} TotalAppend(a: seq<Header>, b: seq<Header>)
    ensures Total(a + b) == Total(a) + Total(b)
  {
    if a == [] {
      assert a + b == b;
    } else {
      TotalAppend(a[1..], b);
      assert (a + b)[1..] == a[1..] + b;
    }
  }

  lemma TotalLast(s: seq<Header>)
    requires s != []
    ensures Total(s) == Total(s[..|s| - 1]) + s[|s| - 1].Size()
  {
    TotalAppend(s[..|s| - 1], s[|s| - 1..]);
    assert s == s[..|s| - 1] + s[|s| - 1..];
    assert Total(s[|s| - 1..]) == s[|s| - 1].Size();
  }

  /** Drop the oldest entries until `extra` more bytes fit or nothing is left. */
  function Evict(t: Table, extra: nat): (r: Table)
    requires t.Exact()
    ensures r.Exact() && r.max == t.max && (r.size + extra <= r.max || r.entries == [])
    decreases |t.entries|
  {
    if t.size + extra > t.max && t.entries != [] then
      TotalLast(t.entries);
      var n := |t.entries| - 1;
      Evict(t.(entries := t.entries[..n], size := t.size - t.entries[n].Size()), extra)
    else t
  }

  /** add_to_dynamic_table. */
  function Add(t: Table, h: Header): (r: Table)
    requires t.Valid()
    ensures r.Valid() && r.max == t.max
  {
    var e := Evict(t, h.Size());
    if h.Size() <= t.max then
      assert ([h] + e.entries)[1..] == e.entries;
      e.(entries := [h] + e.entries, size := e.size + h.Size())
    else e
  }

  /** set_max_table_size. */
  function SetMax(t: Table, max: nat): (r: Table)
    requires t.Valid()
    ensures r.Valid() && r.max == max
  {
    Evict(t.(max := max), 0)
  }

  function Lookup(t: Table, index: nat): Option<Header> {
    if index == 0 then None
    else if index <= STATIC_SIZE then Some(StaticEntry(index))
    else if index - STATIC_SIZE - 1 < |t.entries| then Some(t.entries[index - STATIC_SIZE - 1])
    else None
  }

  // ----- Primitive types -----

  /** A value read and what is left of the input. */
  datatype Read<T> = Failed | Read(value: T, rest: bytes)

  /** The continuation bytes of an integer, seven bits each, in 64-bit arithmetic. */
  function DecodeTail(data: bytes, value: nat, m: nat): (r: Read<nat>)
    ensures r.Read? ==> |r.rest| < |data|
    decreases |data|
  {
    if data == [] then Failed
    else
      var v := (value + (data[0] % 128) as int * Pow2(m)) % WORD;
      if data[0] < 128 then Read(v, data[1..])
      else if m + 7 > 63 then Failed
      else DecodeTail(data[1..], v, m + 7)
  }

  function DecodeInteger(data: bytes, prefix: nat): (r: Read<nat>)
    requires 1 <= prefix <= 8
    ensures r.Read? ==> |r.rest| < |data|
  {
    if data == [] then Failed
    else
      var v := (data[0] as int) % Pow2(prefix);
      if v < Pow2(prefix) - 1 then Read(v, data[1..]) else DecodeTail(data[1..], v, 0)
  }

  function DecodeString(data: bytes): (r: Read<bytes>)
    ensures r.Read? ==> |r.rest| < |data|
  {
    match DecodeInteger(data, 7)
    case Failed => Failed
    case Read(n, rest) =>
      if n > |rest| then Failed
      else if data[0] >= 128 then
        match HuffmanTable.SourceDecode(rest[..n])
        case None => Failed
        case Some(s) => Read(s, rest[n..])
      else Read(rest[..n], rest[n..])
  }

  function EncodeTail(v: nat): bytes {
    if v >= 128 then [v % 128 + 128] + EncodeTail(v / 128) else [v]
  }

  /** `pattern` holds the bits above the prefix. */
  function EncodeInteger(v: nat, prefix: nat, pattern: byte): bytes
    requires 1 <= prefix <= 8 && pattern + Pow2(prefix) <= 256
  {
    if v < Pow2(prefix) - 1 then [pattern + v]
    else [pattern + Pow2(prefix) - 1] + EncodeTail(v - (Pow2(prefix) - 1))
  }

  function EncodeString(s: bytes): bytes {
    EncodeInteger(|s|, 7, 0) + s
  }

  // ----- Header blocks -----

  datatype Decoded = Decoded(table: Table, headers: Option<seq<Header>>)

  /** A literal representation: an indexed or literal name, then a value. */
  function DecodeLiteral(t: Table, data: bytes, prefix: nat): (r: Read<Header>)
    requires 1 <= prefix <= 8
    ensures r.Read? ==> |r.rest| < |data|
  {
    hide DecodeInteger, DecodeString, Lookup;
    match DecodeInteger(data, prefix)
    case Failed => Failed
    case Read(index, rest) =>
      var name := if index > 0 then
                    match Lookup(t, index)
                    case None => Failed
                    case Some(e) => Read(e.name, rest)
                  else DecodeString(rest);
      if name.Failed? then Failed
      else
        match DecodeString(name.rest)
        case Failed => Failed
        case Read(value, rest) => Read(Header(name.value, value), rest)
  }

  /** One pass of the decode loop and all that follow; `done` holds the headers so far. */
  function DecodeFrom(t: Table, data: bytes, done: seq<Header>): (r: Decoded)
    requires t.Valid()
    ensures r.table.Valid()
    decreases |data|
  {
    hide Add, SetMax, DecodeLiteral, DecodeInteger, Lookup;
    if data == [] then Decoded(t, Some(done))
    else if data[0] >= 0x80 then
      match DecodeInteger(data, 7)
      case Failed => Decoded(t, None)
      case Read(index, rest) =>
        match Lookup(t, index)
        case None => Decoded(t, None)
        case Some(h) => DecodeFrom(t, rest, done + [h])
    else if data[0] >= 0x40 then
      match DecodeLiteral(t, data, 6)
      case Failed => Decoded(t, None)
      case Read(h, rest) => DecodeFrom(Add(t, h), rest, done + [h])
    else if data[0] >= 0x20 then
      match DecodeInteger(data, 5)
      case Failed => Decoded(t, None)
      case Read(size, rest) => DecodeFrom(SetMax(t, size), rest, done)
    else
      match DecodeLiteral(t, data, 4)
      case Failed => Decoded(t, None)
      case Read(h, rest) => DecodeFrom(t, rest, done + [h])
  }

  function Decode(t: Table, data: bytes): (r: Decoded)
    requires t.Valid()
    ensures r.table.Valid()
  {
    DecodeFrom(t, data, [])
  }

  /** The first static entry with this name at or after `i`, or 0. */
  function FindName(name: bytes, i: nat): (k: nat)
    requires 1 <= i <= STATIC_SIZE + 1
    ensures k <= STATIC_SIZE
    decreases STATIC_SIZE + 1 - i
  {
    hide StaticEntry;
    if i > STATIC_SIZE then 0 else if StaticEntry(i).name == name then i else FindName(name, i + 1)
  }

  lemma {:induction false} FindNameFacts(name: bytes, i: nat)
    requires 1 <= i <= STATIC_SIZE + 1
    ensures var k := FindName(name, i);
            && (k > 0 ==> i <= k && StaticEntry(k).name == name)
            && (forall j | i <= j <= STATIC_SIZE && (k == 0 || j < k) :: StaticEntry(j).name != name)
    decreases STATIC_SIZE + 1 - i
  {
    hide StaticEntry;
    if i <= STATIC_SIZE && StaticEntry(i).name != name {
      FindNameFacts(name, i + 1);
    }
  }

  function EncodeHeader(h: Header): bytes {
    hide StaticEntry;
    var i := FindName(h.name, 1);
    if i == 0 then [0] + EncodeString(h.name) + EncodeString(h.value)
    else if StaticEntry(i).value == h.value then EncodeInteger(i, 7, 0x80)
    else EncodeInteger(i, 4, 0) + EncodeString(h.value)
  }

  function Encode(headers: seq<Header>): bytes {
    if headers == [] then [] else EncodeHeader(headers[0]) + Encode(headers[1..])
  }
}
