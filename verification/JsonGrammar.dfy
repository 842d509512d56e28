/**
 JSON texts as RFC 8259 defines them, with their whitespace and their choice of escapes, and what the claim
 reader makes of every one of them.
 */
module JsonGrammar {
  import opened Common
  import opened Json
  import Utf8

  // ----- Texts -----

  /** What the one-letter escapes stand for: quotation mark, backslash, solidus, b, f, n, r, t. */
  const ESCAPES: map<byte, byte> :=
    map[0x22 := 0x22, 0x5C := 0x5C, 0x2F := 0x2F, 0x62 := 0x08, 0x66 := 0x0C, 0x6E := 0x0A, 0x72 := 0x0D, 0x74 := 0x09]

  type Nibble = n: nat | n < 16

  /** A hexadecimal digit, and the case it is written in. */
  datatype Hex = Hex(value: Nibble, upper: bool) {
    function Text(): byte {
      if value < 10 then 0x30 + value else (if upper then 0x41 else 0x61) + (value - 10)
    }
  }

  /** One character of a string as written: itself, a one-letter escape, or four hexadecimal digits. */
  datatype Piece = Plain(b: byte) | Escape(letter: byte) | Unit(d3: Hex, d2: Hex, d1: Hex, d0: Hex) {
    predicate Valid() {
      match this
      case Plain(b) => b >= 0x20 && b != 0x22 && b != 0x5C
      case Escape(letter) => letter in ESCAPES
      case Unit(_, _, _, _) => true
    }

    function Text(): bytes {
      match this
      case Plain(b) => [b]
      case Escape(letter) => [0x5C, letter]
      case Unit(d3, d2, d1, d0) => [0x5C, 0x75, d3.Text(), d2.Text(), d1.Text(), d0.Text()]
    }

    /** The code unit that four hexadecimal digits give. */
    function Code(): (u: nat)
      requires Unit?
      ensures u < 0x10000
    {
      0x1000 * d3.value + 0x100 * d2.value + 0x10 * d1.value + d0.value
    }

    /** The character in UTF-8; half of a surrogate pair is taken for a character too. */
    function Reading(): bytes
      requires Valid()
    {
      match this
      case Plain(b) => [b]
      case Escape(letter) => [ESCAPES[letter]]
      case Unit(_, _, _, _) => Utf8.Encode(Code())
    }
  }

  type Chars = seq<Piece>

  predicate ValidChars(t: Chars) {
    forall i | 0 <= i < |t| :: t[i].Valid()
  }

  function CharsText(t: Chars): bytes {
    if t == [] then [] else t[0].Text() + CharsText(t[1..])
  }

  /** What the reader makes of the characters: each escape by itself. */
  function Reading(t: Chars): bytes
    requires ValidChars(t)
  {
    if t == [] then [] else t[0].Reading() + Reading(t[1..])
  }

  function Quoted(t: Chars): bytes {
    [0x22] + CharsText(t) + [0x22]
  }

  /** The parts of a number; absent parts are empty. */
  datatype Number = Number(minus: bool, whole: bytes, fraction: bytes, e: bytes, sign: bytes, exponent: bytes)

  predicate AllDigits(s: bytes) {
    forall i | 0 <= i < |s| :: 0x30 <= s[i] <= 0x39
  }

  predicate AllSpace(s: bytes) {
    forall i | 0 <= i < |s| :: s[i] == 0x20 || s[i] == 0x09 || s[i] == 0x0A || s[i] == 0x0D
  }

  predicate ValidNumber(n: Number) {
    && n.whole != [] && AllDigits(n.whole) && AllDigits(n.fraction) && AllDigits(n.exponent)
    && (n.e == [] || n.e == [0x65] || n.e == [0x45])
    && (n.sign == [] || n.sign == [0x2B] || n.sign == [0x2D])
    && (n.e == [] ==> n.sign == [] && n.exponent == []) && (n.e != [] ==> n.exponent != [])
  }

  /** Everything after the whole part. */
  function NumberTail(n: Number): bytes {
    (if n.fraction == [] then [] else [0x2E] + n.fraction) + (n.e + n.sign + n.exponent)
  }

  function NumberText(n: Number): bytes {
    (if n.minus then [0x2D] else []) + n.whole + NumberTail(n)
  }

  datatype Value =
    | Null
    | True
    | False
    | Num(number: Number)
    | Str(chars: Chars)
    | Arr(space: bytes, items: seq<Item>)
    | Obj(space: bytes, members: seq<Member>)

  /** An array element and the whitespace around it. */
  datatype Item = Item(before: bytes, value: Value, after: bytes)

  /** An object member and the whitespace around its parts. */
  datatype Member = Member(before: bytes, key: Chars, afterKey: bytes, beforeValue: bytes, value: Value, after: bytes)

  predicate Valid(v: Value)
    decreases v
  {
    match v
    case Num(n) => ValidNumber(n)
    case Str(t) => ValidChars(t)
    case Arr(space, items) => AllSpace(space) && ValidItems(items)
    case Obj(space, members) => AllSpace(space) && ValidMembers(members)
    case _ => true
  }

  predicate ValidItems(items: seq<Item>)
    decreases items
  {
    items == [] || (AllSpace(items[0].before) && Valid(items[0].value) && AllSpace(items[0].after) && ValidItems(items[1..]))
  }

  predicate ValidMembers(ms: seq<Member>)
    decreases ms
  {
    ms == [] || (ValidMember(ms[0]) && Valid(ms[0].value) && ValidMembers(ms[1..]))
  }

  predicate ValidMember(m: Member) {
    AllSpace(m.before) && ValidChars(m.key) && AllSpace(m.afterKey) && AllSpace(m.beforeValue) && AllSpace(m.after)
  }

  function Text(v: Value): bytes
    decreases v
  {
    match v
    case Null => Raw("null")
    case True => Raw("true")
    case False => Raw("false")
    case Num(n) => NumberText(n)
    case Str(t) => Quoted(t)
    case Arr(space, items) => [0x5B] + (if items == [] then space else ItemsText(items)) + [0x5D]
    case Obj(space, members) => [0x7B] + (if members == [] then space else MembersText(members)) + [0x7D]
  }

  function ItemsText(items: seq<Item>): bytes
    decreases items
  {
    if items == [] then []
    else
      items[0].before + Text(items[0].value) + items[0].after
      + (if |items| == 1 then [] else [0x2C] + ItemsText(items[1..]))
  }

  function MembersText(ms: seq<Member>): bytes
    decreases ms
  {
    if ms == [] then []
    else
      ms[0].before + Quoted(ms[0].key) + ms[0].afterKey + [0x3A] + ms[0].beforeValue + Text(ms[0].value) + ms[0].after
      + (if |ms| == 1 then [] else [0x2C] + MembersText(ms[1..]))
  }

  // ----- Strings -----

  lemma PieceParsed(p: Piece, rest: bytes, done: bytes)
    requires p.Valid()
    ensures ParseChars(p.Text() + rest, done) == ParseChars(rest, done + p.Reading())
  {
    hide HexNumber, Utf8.Encode, Utf8Unit;
    var s := p.Text() + rest;
    match p {
      case Plain(b) => assert s[1..] == rest;
      case Escape(letter) => assert s[2..] == rest;
      case Unit(d3, d2, d1, d0) =>
        assert s[2..6] == [d3.Text(), d2.Text(), d1.Text(), d0.Text()] && s[6..] == rest;
        HexRead(d3, d2, d1, d0);
        UnitEncoded(p.Code());
    }
  }

  /** The reader's digits are the writer's. */
  lemma HexRead(a: Hex, b: Hex, c: Hex, d: Hex)
    ensures HexNumber([a.Text(), b.Text(), c.Text(), d.Text()])
         == Some(0x1000 * a.value + 0x100 * b.value + 0x10 * c.value + d.value)
  {
    hide HexNumber, HexValue;
    DigitRead(a);
    DigitRead(b);
    DigitRead(c);
    DigitRead(d);
    HexFour(a.Text(), b.Text(), c.Text(), d.Text());
  }

  lemma DigitRead(h: Hex)
    ensures HexValue(h.Text()) == Some(h.value)
  {
  }

  lemma HexFour(a: byte, b: byte, c: byte, d: byte)
    requires HexValue(a).Some? && HexValue(b).Some? && HexValue(c).Some? && HexValue(d).Some?
    ensures HexNumber([a, b, c, d])
         == Some(16 * (16 * (16 * HexValue(a).value + HexValue(b).value) + HexValue(c).value) + HexValue(d).value)
  {
    assert [a, b, c, d][..3] == [a, b, c] && [a, b, c][..2] == [a, b] && [a, b][..1] == [a] && [a][..0] == [];
    assert HexNumber([]) == Some(0);
    assert HexNumber([a]) == Some(HexValue(a).value);
    assert HexNumber([a, b]) == Some(16 * HexValue(a).value + HexValue(b).value);
    assert HexNumber([a, b, c]) == Some(16 * (16 * HexValue(a).value + HexValue(b).value) + HexValue(c).value);
  }

  lemma UnitEncoded(cp: nat)
    requires cp < 0x10000
    ensures Utf8Unit(cp) == Utf8.Encode(cp)
  {
  }

  lemma {:induction false} CharsParsed(t: Chars, rest: bytes, done: bytes)
    requires ValidChars(t)
    ensures ParseChars(CharsText(t) + [QUOTE] + rest, done) == Read(done + Reading(t), rest)
    decreases |t|
  {
    hide Piece.Text, Piece.Reading, ParseChars;
    if t == [] {
      assert CharsText(t) + [QUOTE] + rest == [QUOTE] + rest;
      QuoteParsed(rest, done);
      assert done + [] == done;
    } else {
      var later := CharsText(t[1..]) + [QUOTE] + rest;
      assert CharsText(t) + [QUOTE] + rest == t[0].Text() + later;
      PieceParsed(t[0], later, done);
      CharsParsed(t[1..], rest, done + t[0].Reading());
      assert done + t[0].Reading() + Reading(t[1..]) == done + Reading(t);
    }
  }

  lemma QuoteParsed(rest: bytes, done: bytes)
    ensures ParseChars([QUOTE] + rest, done) == Read(done, rest)
  {
    assert ([QUOTE] + rest)[1..] == rest;
  }

  /** A quoted string is read to its end and unescaped. */
  lemma StringParsed(t: Chars, rest: bytes)
    requires ValidChars(t)
    ensures ParseString(Quoted(t) + rest) == Read(Reading(t), rest)
  {
    hide ParseChars, CharsText;
    var s := Quoted(t) + rest;
    assert s[1..] == CharsText(t) + [QUOTE] + rest;
    CharsParsed(t, rest, []);
    assert [] + Reading(t) == Reading(t);
  }

  // ----- Counting brackets -----

  /** Bytes that the bracket counter passes over. */
  predicate Inert(s: bytes) {
    forall i | 0 <= i < |s| ::
      s[i] != QUOTE && s[i] != OPEN_BRACE && s[i] != CLOSE_BRACE && s[i] != OPEN_BRACKET && s[i] != CLOSE_BRACKET
  }

  predicate Bracket(open: byte, close: byte) {
    (open == OPEN_BRACE && close == CLOSE_BRACE) || (open == OPEN_BRACKET && close == CLOSE_BRACKET)
  }

  lemma {:induction false} InertSkipped(s: bytes, rest: bytes, open: byte, close: byte, depth: nat)
    requires Inert(s) && Bracket(open, close) && depth > 0
    ensures SkipNested(s + rest, open, close, depth) == SkipNested(rest, open, close, depth)
    decreases |s|
  {
    hide ParseString;
    if s == [] {
      assert s + rest == rest;
    } else {
      assert (s + rest)[1..] == s[1..] + rest;
      InertSkipped(s[1..], rest, open, close, depth);
    }
  }

  lemma StringSkipped(t: Chars, rest: bytes, open: byte, close: byte, depth: nat)
    requires ValidChars(t) && depth > 0
    ensures SkipNested(Quoted(t) + rest, open, close, depth) == SkipNested(rest, open, close, depth)
  {
    hide ParseString, CharsText;
    StringParsed(t, rest);
    assert (Quoted(t) + rest)[0] == QUOTE;
  }

  lemma SpaceInert(s: bytes)
    requires AllSpace(s)
    ensures Inert(s)
  {
  }

  lemma NumberInert(n: Number)
    requires ValidNumber(n)
    ensures Inert(NumberText(n))
  {
    var a := if n.minus then [MINUS] else [];
    var f := if n.fraction == [] then [] else [DOT] + n.fraction;
    assert Inert(a) && Inert(n.whole) && Inert(f) && Inert(n.e) && Inert(n.sign) && Inert(n.exponent);
    InertAppend(n.e, n.sign);
    InertAppend(n.e + n.sign, n.exponent);
    InertAppend(f, n.e + n.sign + n.exponent);
    InertAppend(a, n.whole);
    InertAppend(a + n.whole, NumberTail(n));
  }

  lemma InertAppend(a: bytes, b: bytes)
    requires Inert(a) && Inert(b)
    ensures Inert(a + b)
  {
  }

  lemma WordsInert()
    ensures Inert(Raw("null")) && Inert(Raw("true")) && Inert(Raw("false"))
  {
    RawInert("null");
    RawInert("true");
    RawInert("false");
  }

  lemma RawInert(s: string)
    requires forall i | 0 <= i < |s| :: 'a' <= s[i] <= 'z'
    ensures Inert(Raw(s))
  {
  }

  /** One structural character in front of the rest. */
  lemma CharStep(c: byte, rest: bytes, open: byte, close: byte, depth: nat)
    requires Bracket(open, close) && depth > 0 && c != QUOTE
    ensures SkipNested([c] + rest, open, close, depth)
         == SkipNested(rest, open, close, if c == open then depth + 1 else if c == close then depth - 1 else depth)
  {
    hide ParseString;
    assert ([c] + rest)[1..] == rest;
  }

  /** A bracketed body that is skipped one level down is skipped with its brackets. */
  lemma EnclosedSkipped(a: byte, body: bytes, z: byte, rest: bytes, open: byte, close: byte, depth: nat)
    requires Bracket(open, close) && Bracket(a, z) && depth > 0
    requires var inside := if a == open then depth + 1 else depth;
             SkipNested(body + ([z] + rest), open, close, inside) == SkipNested([z] + rest, open, close, inside)
    ensures SkipNested([a] + body + [z] + rest, open, close, depth) == SkipNested(rest, open, close, depth)
  {
    hide SkipNested;
    assert [a] + body + [z] + rest == [a] + (body + ([z] + rest));
    CharStep(a, body + ([z] + rest), open, close, depth);
    CharStep(z, rest, open, close, if a == open then depth + 1 else depth);
  }

  /** Counting either kind of bracket, a whole value is passed over and leaves the depth as it was. */
  lemma {:induction false} ValueSkipped(v: Value, rest: bytes, open: byte, close: byte, depth: nat)
    requires Valid(v) && Bracket(open, close) && depth > 0
    ensures SkipNested(Text(v) + rest, open, close, depth) == SkipNested(rest, open, close, depth)
    decreases v, 1
  {
    hide SkipNested, Quoted, NumberText, ItemsText, MembersText, Raw;
    match v {
      case Num(n) =>
        NumberInert(n);
        InertSkipped(NumberText(n), rest, open, close, depth);
      case Str(t) =>
        StringSkipped(t, rest, open, close, depth);
      case Arr(space, items) =>
        var body := if items == [] then space else ItemsText(items);
        var inside := if open == OPEN_BRACKET then depth + 1 else depth;
        if items == [] {
          SpaceInert(space);
          InertSkipped(space, [CLOSE_BRACKET] + rest, open, close, inside);
        } else {
          ItemsSkipped(items, [CLOSE_BRACKET] + rest, open, close, inside);
        }
        EnclosedSkipped(OPEN_BRACKET, body, CLOSE_BRACKET, rest, open, close, depth);
      case Obj(space, members) =>
        var body := if members == [] then space else MembersText(members);
        var inside := if open == OPEN_BRACE then depth + 1 else depth;
        if members == [] {
          SpaceInert(space);
          InertSkipped(space, [CLOSE_BRACE] + rest, open, close, inside);
        } else {
          MembersSkipped(members, [CLOSE_BRACE] + rest, open, close, inside);
        }
        EnclosedSkipped(OPEN_BRACE, body, CLOSE_BRACE, rest, open, close, depth);
      case _ =>
        WordsInert();
        InertSkipped(Text(v), rest, open, close, depth);
    }
  }

  lemma {:induction false} ItemsSkipped(items: seq<Item>, rest: bytes, open: byte, close: byte, depth: nat)
    requires ValidItems(items) && Bracket(open, close) && depth > 0
    ensures SkipNested(ItemsText(items) + rest, open, close, depth) == SkipNested(rest, open, close, depth)
    decreases items, 0
  {
    hide SkipNested, Text, Inert;
    if items == [] {
      assert ItemsText(items) + rest == rest;
    } else {
      var x := items[0];
      var later := if |items| == 1 then rest else [COMMA] + (ItemsText(items[1..]) + rest);
      assert ItemsText(items) + rest == x.before + (Text(x.value) + (x.after + later));
      SpaceInert(x.before);
      InertSkipped(x.before, Text(x.value) + (x.after + later), open, close, depth);
      ValueSkipped(x.value, x.after + later, open, close, depth);
      SpaceInert(x.after);
      InertSkipped(x.after, later, open, close, depth);
      if |items| > 1 {
        CharStep(COMMA, ItemsText(items[1..]) + rest, open, close, depth);
        ItemsSkipped(items[1..], rest, open, close, depth);
      }
    }
  }

  /** The text of a member after its key. */
  function AfterKey(m: Member, later: bytes): bytes {
    m.afterKey + ([COLON] + (m.beforeValue + (Text(m.value) + (m.after + later))))
  }

  lemma {:induction false} MembersSplit(ms: seq<Member>, rest: bytes)
    requires ms != []
    ensures var later := if |ms| == 1 then rest else [COMMA] + (MembersText(ms[1..]) + rest);
            MembersText(ms) + rest == ms[0].before + (Quoted(ms[0].key) + AfterKey(ms[0], later))
  {
    hide Text, Quoted;
  }

  lemma {:induction false} MembersSkipped(ms: seq<Member>, rest: bytes, open: byte, close: byte, depth: nat)
    requires ValidMembers(ms) && Bracket(open, close) && depth > 0
    ensures SkipNested(MembersText(ms) + rest, open, close, depth) == SkipNested(rest, open, close, depth)
    decreases ms, 0
  {
    hide SkipNested, Text, Inert, Quoted;
    if ms == [] {
      assert MembersText(ms) + rest == rest;
    } else {
      var m := ms[0];
      var later := if |ms| == 1 then rest else [COMMA] + (MembersText(ms[1..]) + rest);
      MembersSplit(ms, rest);
      SpaceInert(m.before);
      InertSkipped(m.before, Quoted(m.key) + AfterKey(m, later), open, close, depth);
      StringSkipped(m.key, AfterKey(m, later), open, close, depth);
      SpaceInert(m.afterKey);
      InertSkipped(m.afterKey, [COLON] + (m.beforeValue + (Text(m.value) + (m.after + later))), open, close, depth);
      CharStep(COLON, m.beforeValue + (Text(m.value) + (m.after + later)), open, close, depth);
      SpaceInert(m.beforeValue);
      InertSkipped(m.beforeValue, Text(m.value) + (m.after + later), open, close, depth);
      ValueSkipped(m.value, m.after + later, open, close, depth);
      SpaceInert(m.after);
      InertSkipped(m.after, later, open, close, depth);
      if |ms| > 1 {
        CharStep(COMMA, MembersText(ms[1..]) + rest, open, close, depth);
        MembersSkipped(ms[1..], rest, open, close, depth);
      }
    }
  }

  // ----- Skipping a value -----

  lemma {:induction false} SpaceSkipped(s: bytes, rest: bytes)
    requires AllSpace(s) && (rest == [] || !IsSpace(rest[0]))
    ensures SkipSpace(s + rest) == rest
    decreases |s|
  {
    if s == [] {
      assert s + rest == rest;
    } else {
      assert (s + rest)[1..] == s[1..] + rest;
      SpaceSkipped(s[1..], rest);
    }
  }

  lemma {:induction false} DigitsSkipped(s: bytes, rest: bytes)
    requires AllDigits(s) && (rest == [] || !IsDigit(rest[0]))
    ensures SkipDigits(s + rest) == rest
    decreases |s|
  {
    if s == [] {
      assert s + rest == rest;
    } else {
      assert (s + rest)[1..] == s[1..] + rest;
      DigitsSkipped(s[1..], rest);
    }
  }

  /** What may follow a number: nothing that would continue it. */
  predicate EndsNumber(rest: bytes) {
    rest == [] || (!IsDigit(rest[0]) && rest[0] != DOT && rest[0] != 0x65 && rest[0] != 0x45)
  }

  lemma ExponentSkipped(n: Number, rest: bytes)
    requires ValidNumber(n) && EndsNumber(rest)
    ensures SkipExponent(n.e + n.sign + n.exponent + rest) == rest
  {
    hide SkipDigits, AllDigits;
    var s := n.e + n.sign + n.exponent + rest;
    if n.e == [] {
      assert s == rest;
    } else {
      var t := s[1..];
      assert t == n.sign + (n.exponent + rest);
      DigitsSkipped(n.exponent, rest);
      if n.sign == [] {
        assert t == n.exponent + rest;
        assert t[0] == n.exponent[0] && IsDigit(t[0]) by { FirstDigit(n.exponent); }
      } else {
        assert t[1..] == n.exponent + rest;
      }
    }
  }

  lemma FirstDigit(s: bytes)
    requires AllDigits(s) && s != []
    ensures IsDigit(s[0])
  {
  }

  lemma WholeSkipped(n: Number, rest: bytes)
    requires ValidNumber(n) && EndsNumber(rest)
    ensures SkipExponent(SkipFraction(SkipDigits(n.whole + (NumberTail(n) + rest)))) == rest
  {
    hide SkipDigits, SkipExponent, AllDigits;
    var exp := n.e + n.sign + n.exponent + rest;
    var tail := NumberTail(n) + rest;
    AfterFraction(n, rest);
    if n.fraction == [] {
      assert tail == exp;
      DigitsSkipped(n.whole, tail);
    } else {
      assert tail[0] == DOT && tail[1..] == n.fraction + exp;
      DigitsSkipped(n.whole, tail);
      DigitsSkipped(n.fraction, exp);
    }
    ExponentSkipped(n, rest);
  }

  lemma NumberSkipped(n: Number, rest: bytes)
    requires ValidNumber(n) && EndsNumber(rest)
    ensures SkipNumber(NumberText(n) + rest) == Some(rest)
    ensures NumberText(n)[0] == MINUS || IsDigit(NumberText(n)[0])
  {
    hide SkipDigits, SkipExponent, SkipFraction, AllDigits, NumberTail, EndsNumber;
    FirstDigit(n.whole);
    WholeSkipped(n, rest);
    var t := n.whole + (NumberTail(n) + rest);
    var s := NumberText(n) + rest;
    assert t[0] == n.whole[0];
    if n.minus {
      assert s[1..] == t;
    } else {
      assert s == t;
    }
  }

  /** What follows the digits of a number is not a digit, and not a point unless there is a fraction. */
  lemma AfterFraction(n: Number, rest: bytes)
    requires ValidNumber(n) && EndsNumber(rest)
    ensures var exp := n.e + n.sign + n.exponent + rest;
            exp == [] || (!IsDigit(exp[0]) && exp[0] != DOT)
  {
    if n.e == [] {
      assert n.e + n.sign + n.exponent + rest == rest;
    }
  }

  lemma WordsSkipped(v: Value, rest: bytes)
    requires v.Null? || v.True? || v.False?
    ensures var s := Text(v) + rest;
            && SkipLiteral(s) == Some(rest) && s != []
            && s[0] != QUOTE && s[0] != OPEN_BRACE && s[0] != OPEN_BRACKET && s[0] != MINUS && !IsDigit(s[0]) && !IsSpace(s[0])
  {
    var s := Text(v) + rest;
    match v {
      case Null =>
        assert s[0] == 0x6E && Raw("null") <= s && s[4..] == rest;
        assert Raw("true")[0] == 0x74 && Raw("false")[0] == 0x66;
      case True =>
        assert s[0] == 0x74 && Raw("true") <= s && s[4..] == rest;
      case False =>
        assert s[0] == 0x66 && Raw("false") <= s && s[5..] == rest;
        assert Raw("true")[0] == 0x74;
    }
  }

  predicate Follows(v: Value, rest: bytes) {
    v.Num? ==> EndsNumber(rest)
  }

  /** Every value text starts with something that is not whitespace. */
  lemma NotSpace(v: Value)
    requires Valid(v)
    ensures Text(v) != [] && !IsSpace(Text(v)[0])
    ensures Text(v)[0] == QUOTE <==> v.Str?
  {
    hide ItemsText, MembersText, CharsText;
    match v {
      case Num(n) => NumberSkipped(n, []);
      case Null => WordsSkipped(v, []); assert Text(v) + [] == Text(v);
      case True => WordsSkipped(v, []); assert Text(v) + [] == Text(v);
      case False => WordsSkipped(v, []); assert Text(v) + [] == Text(v);
      case _ =>
    }
  }

  /** A value text is skipped exactly, whatever whitespace is in front of it. */
  lemma ValueTextSkipped(space: bytes, v: Value, rest: bytes)
    requires AllSpace(space) && Valid(v) && Follows(v, rest)
    ensures SkipValue(space + Text(v) + rest) == Some(rest)
  {
    hide SkipSpace, SkipNested, ParseString, SkipNumber, SkipLiteral, ItemsText, MembersText, CharsText, NumberText, Raw;
    var t := Text(v) + rest;
    NotSpace(v);
    assert t[0] == Text(v)[0];
    SpaceSkipped(space, t);
    assert space + Text(v) + rest == space + t;
    match v {
      case Str(c) => StringParsed(c, rest);
      case Num(n) =>
        NumberSkipped(n, rest);
      case Arr(sp, items) =>
        var body := if items == [] then sp else ItemsText(items);
        assert t[1..] == body + ([CLOSE_BRACKET] + rest);
        if items == [] {
          SpaceInert(sp);
          InertSkipped(sp, [CLOSE_BRACKET] + rest, OPEN_BRACKET, CLOSE_BRACKET, 1);
        } else {
          ItemsSkipped(items, [CLOSE_BRACKET] + rest, OPEN_BRACKET, CLOSE_BRACKET, 1);
        }
        CharStep(CLOSE_BRACKET, rest, OPEN_BRACKET, CLOSE_BRACKET, 1);
        DepthZero(rest, OPEN_BRACKET, CLOSE_BRACKET);
      case Obj(sp, members) =>
        var body := if members == [] then sp else MembersText(members);
        assert t[1..] == body + ([CLOSE_BRACE] + rest);
        if members == [] {
          SpaceInert(sp);
          InertSkipped(sp, [CLOSE_BRACE] + rest, OPEN_BRACE, CLOSE_BRACE, 1);
        } else {
          MembersSkipped(members, [CLOSE_BRACE] + rest, OPEN_BRACE, CLOSE_BRACE, 1);
        }
        CharStep(CLOSE_BRACE, rest, OPEN_BRACE, CLOSE_BRACE, 1);
        DepthZero(rest, OPEN_BRACE, CLOSE_BRACE);
      case _ =>
        WordsSkipped(v, rest);
    }
  }

  lemma DepthZero(s: bytes, open: byte, close: byte)
    ensures SkipNested(s, open, close, 0) == Some(s)
  {
  }

  // ----- Looking up a member -----

  /** What a value is worth to a caller: a string's reading, anything else's text. */
  function Claim(v: Value): bytes
    requires Valid(v)
  {
    if v.Str? then Reading(v.chars) else Text(v)
  }

  /** The first top-level member whose key is read as `key`. */
  function FirstMember(ms: seq<Member>, key: bytes): Option<bytes>
    requires ValidMembers(ms)
  {
    if ms == [] then None
    else if Reading(ms[0].key) == key then Some(Claim(ms[0].value))
    else FirstMember(ms[1..], key)
  }

  /** After a value come whitespace and then a comma or a closing brace, so a number cannot run on. */
  lemma SpaceEndsNumber(after: bytes, c: byte, rest: bytes)
    requires AllSpace(after) && (c == COMMA || c == CLOSE_BRACE)
    ensures EndsNumber(after + ([c] + rest))
  {
  }

  lemma MemberFound(v: Value, rest: bytes)
    requires Valid(v) && Follows(v, rest)
    ensures MemberValue(Text(v) + rest) == Some(Claim(v))
  {
    hide SkipValue, ParseString, Text;
    NotSpace(v);
    var s := Text(v) + rest;
    assert s[0] == Text(v)[0];
    if v.Str? {
      assert Text(v) == Quoted(v.chars) by { StrText(v.chars); }
      StringParsed(v.chars, rest);
    } else {
      ValueTextSkipped([], v, rest);
      assert [] + Text(v) + rest == s;
      assert s[..|s| - |rest|] == Text(v);
    }
  }

  lemma StrText(t: Chars)
    ensures Text(Str(t)) == Quoted(t)
  {
  }

  /** One turn of the lookup loop. */
  lemma MemberStep(m: Member, later: bytes, key: bytes)
    requires ValidMember(m) && Valid(m.value)
    requires later != [] && (later[0] == COMMA || later[0] == CLOSE_BRACE)
    ensures FindMember(m.before + (Quoted(m.key) + AfterKey(m, later)), key)
         == if Reading(m.key) == key then Some(Claim(m.value))
            else if later[0] == COMMA then FindMember(later[1..], key) else None
  {
    hide SkipSpace, SkipValue, ParseString, Quoted, Text, Reading, MemberValue, Claim, IsSpace;
    var q := Quoted(m.key) + AfterKey(m, later);
    var tail := m.after + later;
    assert tail == m.after + ([later[0]] + later[1..]) by { assert later == [later[0]] + later[1..]; }
    SpaceEndsNumber(m.after, later[0], later[1..]);
    NoSpaces(m.key);
    SpaceSkipped(m.before, q);
    StringParsed(m.key, AfterKey(m, later));
    var colon := [COLON] + (m.beforeValue + (Text(m.value) + tail));
    SpaceSkipped(m.afterKey, colon);
    assert colon[1..] == m.beforeValue + (Text(m.value) + tail);
    NotSpace(m.value);
    assert (Text(m.value) + tail)[0] == Text(m.value)[0];
    SpaceSkipped(m.beforeValue, Text(m.value) + tail);
    MemberFound(m.value, tail);
    ValueTextSkipped([], m.value, tail);
    assert [] + Text(m.value) + tail == Text(m.value) + tail;
    SpaceSkipped(m.after, later);
  }

  lemma NoSpaces(key: Chars)
    ensures !IsSpace(COLON) && !IsSpace(COMMA) && !IsSpace(CLOSE_BRACE) && !IsSpace(QUOTE)
    ensures Quoted(key) != [] && Quoted(key)[0] == QUOTE
  {
    hide CharsText;
  }

  lemma {:induction false} MembersFound(ms: seq<Member>, rest: bytes, key: bytes)
    requires ValidMembers(ms) && ms != []
    ensures FindMember(MembersText(ms) + ([CLOSE_BRACE] + rest), key) == FirstMember(ms, key)
    decreases |ms|
  {
    hide FindMember, Text, Quoted, Reading, Claim, AfterKey;
    var r := [CLOSE_BRACE] + rest;
    var later := if |ms| == 1 then r else [COMMA] + (MembersText(ms[1..]) + r);
    MembersSplit(ms, r);
    MemberStep(ms[0], later, key);
    if |ms| > 1 {
      assert later[1..] == MembersText(ms[1..]) + r;
      MembersFound(ms[1..], rest, key);
    }
  }

  /**
   On every JSON object text the lookup returns the first top-level member with that key, unescaped if it is a
   string, however often the key recurs inside nested values; and nothing if no top-level member has the key.
   */
  lemma GetStringCorrect(before: bytes, v: Value, rest: bytes, key: bytes)
    requires AllSpace(before) && Valid(v) && v.Obj?
    ensures GetString(before + Text(v) + rest, key) == FirstMember(v.members, key)
  {
    hide FindMember, MembersText, Reading, Claim, SkipSpace;
    var t := Text(v) + rest;
    assert before + Text(v) + rest == before + t && t[0] == OPEN_BRACE;
    SpaceSkipped(before, t);
    var r := [CLOSE_BRACE] + rest;
    if v.members == [] {
      assert t[1..] == v.space + r;
      EmptyObject(v.space, rest, key);
    } else {
      assert t[1..] == MembersText(v.members) + r;
      MembersFound(v.members, rest, key);
    }
  }

  lemma EmptyObject(space: bytes, rest: bytes, key: bytes)
    requires AllSpace(space)
    ensures FindMember(space + ([CLOSE_BRACE] + rest), key) == None
  {
    hide SkipSpace;
    SpaceSkipped(space, [CLOSE_BRACE] + rest);
  }
}
