/** The claim reader of src/jwt_validator.cpp as functions on the text still to be read. */
module Json {
  import opened Common

  const QUOTE: byte := 0x22
  const COMMA: byte := 0x2C
  const MINUS: byte := 0x2D
  const DOT: byte := 0x2E
  const SLASH: byte := 0x2F
  const COLON: byte := 0x3A
  const OPEN_BRACKET: byte := 0x5B
  const BACKSLASH: byte := 0x5C
  const CLOSE_BRACKET: byte := 0x5D
  const OPEN_BRACE: byte := 0x7B
  const CLOSE_BRACE: byte := 0x7D

  /** A value read and what is left of the text. */
  datatype Read<T> = Failed | Read(value: T, rest: bytes)

  predicate IsSpace(b: byte) {
    b == 0x20 || b == 0x09 || b == 0x0A || b == 0x0D
  }

  predicate IsDigit(b: byte) {
    0x30 <= b <= 0x39
  }

  function HexValue(b: byte): Option<nat> {
    if 0x30 <= b <= 0x39 then Some(b - 0x30)
    else if 0x61 <= b <= 0x66 then Some(b - 0x61 + 10)
    else if 0x41 <= b <= 0x46 then Some(b - 0x41 + 10)
    else None
  }

  /** The value of a run of hexadecimal digits. */
  function HexNumber(s: bytes): Option<nat> {
    if s == [] then Some(0)
    else
      var high, low := HexNumber(s[..|s| - 1]), HexValue(s[|s| - 1]);
      if high.None? || low.None? then None else Some(16 * high.value + low.value)
  }

  /** One UTF-16 code unit written as UTF-8; surrogates are not combined. */
  function Utf8Unit(cp: nat): bytes
    requires cp < 0x10000
  {
    if cp < 0x80 then [cp]
    else if cp < 0x800 then [0xC0 + cp / 64, 0x80 + cp % 64]
    else [0xE0 + cp / 4096, 0x80 + cp / 64 % 64, 0x80 + cp % 64]
  }

  /** What a one-letter escape stands for. */
  function Unescaped(letter: byte): Option<byte> {
    if letter == QUOTE then Some(QUOTE)
    else if letter == BACKSLASH then Some(BACKSLASH)
    else if letter == SLASH then Some(SLASH)
    else if letter == 0x62 then Some(0x08)  // b
    else if letter == 0x66 then Some(0x0C)  // f
    else if letter == 0x6E then Some(0x0A)  // n
    else if letter == 0x72 then Some(0x0D)  // r
    else if letter == 0x74 then Some(0x09)  // t
    else None
  }

  lemma {:induction false} HexNumberBound(s: bytes)
    ensures HexNumber(s).Some? ==> HexNumber(s).value < Power16(|s|)
  {
    if s != [] {
      HexNumberBound(s[..|s| - 1]);
    }
  }

  function Power16(k: nat): nat {
    if k == 0 then 1 else 16 * Power16(k - 1)
  }

  /** A backslash and what it escapes. */
  function ParseEscape(s: bytes): (r: Read<bytes>)
    requires s != []
    ensures r.Read? ==> |r.rest| < |s|
  {
    if |s| < 2 then Failed
    else if s[1] == 0x75 then
      if |s| < 6 then Failed
      else
        HexNumberBound(s[2..6]);
        assert Power16(4) == 0x10000;
        match HexNumber(s[2..6])
        case None => Failed
        case Some(cp) => Read(Utf8Unit(cp), s[6..])
    else
      match Unescaped(s[1])
      case None => Failed
      case Some(b) => Read([b], s[2..])
  }

  /** The inside of a string up to and including the closing quote. */
  function ParseChars(s: bytes, done: bytes): (r: Read<bytes>)
    ensures r.Read? ==> |r.rest| < |s|
    decreases |s|
  {
    if s == [] then Failed
    else if s[0] == QUOTE then Read(done, s[1..])
    else if s[0] == BACKSLASH then
      match ParseEscape(s)
      case Failed => Failed
      case Read(b, rest) => ParseChars(rest, done + b)
    else if s[0] < 0x20 then Failed
    else ParseChars(s[1..], done + [s[0]])
  }

  /** parse_json_string. */
  function ParseString(s: bytes): (r: Read<bytes>)
    ensures r.Read? ==> |r.rest| < |s|
  {
    if s == [] || s[0] != QUOTE then Failed else ParseChars(s[1..], [])
  }

  function SkipSpace(s: bytes): (r: bytes)
    ensures |r| <= |s|
  {
    if s == [] || !IsSpace(s[0]) then s else SkipSpace(s[1..])
  }

  function SkipDigits(s: bytes): (r: bytes)
    ensures |r| <= |s|
  {
    if s == [] || !IsDigit(s[0]) then s else SkipDigits(s[1..])
  }

  /** Count one kind of bracket, stepping over strings, until the depth is back to zero. */
  function SkipNested(s: bytes, open: byte, close: byte, depth: nat): (r: Option<bytes>)
    ensures r.Some? ==> |r.value| <= |s|
    decreases |s|
  {
    if depth == 0 then Some(s)
    else if s == [] then None
    else if s[0] == QUOTE then
      match ParseString(s)
      case Failed => None
      case Read(_, rest) => SkipNested(rest, open, close, depth)
    else if s[0] == open then SkipNested(s[1..], open, close, depth + 1)
    else if s[0] == close then SkipNested(s[1..], open, close, depth - 1)
    else SkipNested(s[1..], open, close, depth)
  }

  function SkipFraction(s: bytes): (r: bytes)
    ensures |r| <= |s|
  {
    if s != [] && s[0] == DOT then SkipDigits(s[1..]) else s
  }

  function SkipExponent(s: bytes): (r: bytes)
    ensures |r| <= |s|
  {
    if s != [] && (s[0] == 0x65 || s[0] == 0x45) then
      var t := s[1..];
      SkipDigits(if t != [] && (t[0] == 0x2B || t[0] == MINUS) then t[1..] else t)
    else s
  }

  function SkipNumber(s: bytes): (r: Option<bytes>)
    requires s != []
    ensures r.Some? ==> |r.value| <= |s|
  {
    var t := if s[0] == MINUS then s[1..] else s;
    if t == [] then None else Some(SkipExponent(SkipFraction(SkipDigits(t))))
  }

  function SkipLiteral(s: bytes): (r: Option<bytes>)
    ensures r.Some? ==> |r.value| <= |s|
  {
    if Raw("true") <= s then Some(s[4..])
    else if Raw("false") <= s then Some(s[5..])
    else if Raw("null") <= s then Some(s[4..])
    else None
  }

  /** skip_json_value. */
  function SkipValue(s: bytes): (r: Option<bytes>)
    ensures r.Some? ==> |r.value| <= |s|
  {
    var t := SkipSpace(s);
    if t == [] then None
    else if t[0] == QUOTE then
      match ParseString(t)
      case Failed => None
      case Read(_, rest) => Some(rest)
    else if t[0] == OPEN_BRACE then SkipNested(t[1..], OPEN_BRACE, CLOSE_BRACE, 1)
    else if t[0] == OPEN_BRACKET then SkipNested(t[1..], OPEN_BRACKET, CLOSE_BRACKET, 1)
    else if t[0] == MINUS || IsDigit(t[0]) then SkipNumber(t)
    else SkipLiteral(t)
  }

  /** The text that `rest` leaves of `s`. */
  function Consumed(s: bytes, rest: bytes): bytes
    requires |rest| <= |s|
  {
    s[..|s| - |rest|]
  }

  /** The wanted member's value: unescaped if it is a string, otherwise its text. */
  function MemberValue(s: bytes): Option<bytes> {
    if s == [] then None
    else if s[0] == QUOTE then
      match ParseString(s)
      case Failed => None
      case Read(v, _) => Some(v)
    else
      match SkipValue(s)
      case None => None
      case Some(rest) => Some(Consumed(s, rest))
  }

  /** The loop of json_get_string, from just inside the object. */
  function FindMember(s: bytes, key: bytes): Option<bytes>
    decreases |s|
  {
    var t := SkipSpace(s);
    if t == [] || t[0] == CLOSE_BRACE then None
    else
      match ParseString(t)
      case Failed => None
      case Read(name, rest) =>
        var u := SkipSpace(rest);
        if u == [] || u[0] != COLON then None
        else
          var v := SkipSpace(u[1..]);
          if name == key then MemberValue(v)
          else
            match SkipValue(v)
            case None => None
            case Some(rest) =>
              var w := SkipSpace(rest);
              if w == [] || w[0] != COMMA then None else FindMember(w[1..], key)
  }

  /** json_get_string. */
  function GetString(json: bytes, key: bytes): Option<bytes> {
    var s := SkipSpace(json);
    if s == [] || s[0] != OPEN_BRACE then None else FindMember(s[1..], key)
  }
}
