/**
 * A writer of JSON strings and of objects of strings (sections 4 and 7 of RFC 8259), and the round trip: whatever
 * byte strings it is given, the claim reader gives them back.
 */
module JsonWriter {
  import opened Common
  import opened Json
  import opened JsonGrammar

  // ----- The writer -----

  function HexDigit(n: nat): byte
    requires n < 16
  {
    if n < 10 then 48 + n else 87 + n
  }

  /** One byte of a string: quotation mark, backslash, solidus and control characters are escaped. */
  function Written(b: byte): bytes {
    if b == 34 || b == 92 || b == 47 then [92, b]
    else if b == 8 then [92, 98]
    else if b == 9 then [92, 116]
    else if b == 10 then [92, 110]
    else if b == 12 then [92, 102]
    else if b == 13 then [92, 114]
    else if b < 32 then [92, 117, 48, 48, HexDigit(b as int / 16), HexDigit(b as int % 16)]
    else [b]
  }

  function WrittenAll(s: bytes): bytes {
    if s == [] then [] else Written(s[0]) + WrittenAll(s[1..])
  }

  function WriteString(s: bytes): bytes {
    [34] + WrittenAll(s) + [34]
  }

  type Pair = (bytes, bytes)

  function WriteMembers(ps: seq<Pair>): bytes {
    if ps == [] then []
    else WriteString(ps[0].0) + [58] + WriteString(ps[0].1) + if |ps| == 1 then [] else [44] + WriteMembers(ps[1..])
  }

  function WriteObject(ps: seq<Pair>): bytes {
    [123] + WriteMembers(ps) + [125]
  }

  /** The value of the first pair with this key. */
  function FirstPair(ps: seq<Pair>, key: bytes): Option<bytes> {
    if ps == [] then None else if ps[0].0 == key then Some(ps[0].1) else FirstPair(ps[1..], key)
  }

  // ----- It writes texts of the grammar -----

  function PieceOf(b: byte): (p: Piece)
    ensures p.Valid() && p.Text() == Written(b) && p.Reading() == [b]
  {
    if b == 34 || b == 92 || b == 47 then Escape(b)
    else if b == 8 then Escape(98)
    else if b == 9 then Escape(116)
    else if b == 10 then Escape(110)
    else if b == 12 then Escape(102)
    else if b == 13 then Escape(114)
    else if b < 32 then Unit(Hex(0, false), Hex(0, false), Hex(b as int / 16, false), Hex(b as int % 16, false))
    else Plain(b)
  }

  function Pieces(s: bytes): (t: Chars)
    ensures |t| == |s| && ValidChars(t)
  {
    hide PieceOf;
    if s == [] then [] else [PieceOf(s[0])] + Pieces(s[1..])
  }

  lemma {:induction false} PiecesWritten(s: bytes)
    ensures CharsText(Pieces(s)) == WrittenAll(s) && Reading(Pieces(s)) == s
    decreases |s|
  {
    hide PieceOf, Written, Piece.Text, Piece.Reading, Piece.Valid;
    if s != [] {
      PiecesWritten(s[1..]);
      assert Pieces(s)[1..] == Pieces(s[1..]);
      assert [s[0]] + s[1..] == s;
    }
  }

  /** Every byte string written as a JSON string is read back. */
  lemma WrittenRead(s: bytes, rest: bytes)
    ensures ParseString(WriteString(s) + rest) == Read(s, rest)
  {
    hide ParseString, Pieces, WrittenAll, CharsText, Reading;
    PiecesWritten(s);
    StringParsed(Pieces(s), rest);
  }

  // ----- Objects -----

  function MemberOf(p: Pair): (m: Member)
    ensures ValidMember(m) && Valid(m.value)
  {
    hide Pieces;
    Member([], Pieces(p.0), [], [], Str(Pieces(p.1)), [])
  }

  function Members(ps: seq<Pair>): (ms: seq<Member>)
    ensures |ms| == |ps| && ValidMembers(ms)
  {
    hide MemberOf;
    if ps == [] then [] else
      var ms := [MemberOf(ps[0])] + Members(ps[1..]);
      assert ms[1..] == Members(ps[1..]);
      ms
  }

  lemma MemberText(p: Pair)
    ensures var m := MemberOf(p);
            && Reading(m.key) == p.0 && Claim(m.value) == p.1
            && m.before + Quoted(m.key) + m.afterKey + [0x3A] + m.beforeValue + Text(m.value) + m.after
               == WriteString(p.0) + [58] + WriteString(p.1)
  {
    hide Pieces, WrittenAll, CharsText, Reading;
    PiecesWritten(p.0);
    PiecesWritten(p.1);
    assert [] + Quoted(Pieces(p.0)) + [] == Quoted(Pieces(p.0));
  }

  lemma {:induction false} MembersWritten(ps: seq<Pair>, key: bytes)
    ensures MembersText(Members(ps)) == WriteMembers(ps) && FirstMember(Members(ps), key) == FirstPair(ps, key)
    decreases |ps|
  {
    hide MemberOf, Quoted, Text, WriteString, Reading, Claim;
    if ps != [] {
      MembersWritten(ps[1..], key);
      MemberText(ps[0]);
      assert Members(ps)[1..] == Members(ps[1..]) && Members(ps)[0] == MemberOf(ps[0]);
    }
  }

  /** In an object of any byte strings, whatever follows it, every key finds its first value, and nothing else is found. */
  lemma WrittenFound(ps: seq<Pair>, key: bytes, rest: bytes)
    ensures GetString(WriteObject(ps) + rest, key) == FirstPair(ps, key)
  {
    hide GetString, Members, MembersText, WriteMembers, FirstMember, FirstPair, ValidMembers;
    var v := Obj([], Members(ps));
    MembersWritten(ps, key);
    GetStringCorrect([], v, rest, key);
    assert Text(v) == WriteObject(ps) by { ObjectText(ps); }
    assert [] + Text(v) + rest == WriteObject(ps) + rest;
  }

  lemma ObjectText(ps: seq<Pair>)
    requires MembersText(Members(ps)) == WriteMembers(ps)
    ensures Text(Obj([], Members(ps))) == WriteObject(ps)
  {
  }
}
