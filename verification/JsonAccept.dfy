/**
 * Exactly which texts the claim reader accepts, and what it finds in them. Strings must be those of RFC 8259; of
 * other values the reader only finds the end, so it also accepts texts that the RFC does not.
 */
module JsonAccept {
  import opened Common
  import opened Json
  import opened JsonGrammar
  import Utf8

  // ----- Strings -----

  ghost predicate IsString(s: bytes, value: bytes, rest: bytes) {
    exists t :: ValidChars(t) && value == Reading(t) && s == Quoted(t) + rest
  }

  lemma DigitOf(b: byte) returns (h: Hex)
    requires HexValue(b).Some?
    ensures h.Text() == b
  {
    h := if b <= 0x39 then Hex(b - 0x30, false) else if b >= 0x61 then Hex(b - 0x61 + 10, false) else Hex(b - 0x41 + 10, true);
  }

  lemma {:induction false} HexDigitsSome(s: bytes, i: nat)
    requires HexNumber(s).Some? && i < |s|
    ensures HexValue(s[i]).Some?
  {
    if i < |s| - 1 {
      HexDigitsSome(s[..|s| - 1], i);
    }
  }

  /** Every escape that is read is an escape of the RFC. */
  lemma {:induction false} EscapeTaken(s: bytes) returns (p: Piece)
    requires s != [] && s[0] == 0x5C && ParseEscape(s).Read?
    ensures p.Valid() && s == p.Text() + ParseEscape(s).rest && ParseEscape(s).value == p.Reading()
  {
    hide HexNumber, HexValue, Utf8Unit, Utf8.Encode;
    if s[1] == 0x75 {
      HexNumberBound(s[2..6]);
      assert Power16(4) == 0x10000;
      p := UnitTaken(s);
      assert s == s[..6] + s[6..];
    } else {
      p := Escape(s[1]);
      assert s == [s[0], s[1]] + s[2..];
    }
  }

  lemma {:induction false} UnitTaken(s: bytes) returns (p: Piece)
    requires |s| >= 6 && s[0] == 0x5C && s[1] == 0x75 && HexNumber(s[2..6]).Some? && HexNumber(s[2..6]).value < 0x10000
    ensures p.Unit? && p.Text() == s[..6] && Utf8Unit(HexNumber(s[2..6]).value) == p.Reading()
  {
    hide HexNumber, HexValue, Utf8Unit, Utf8.Encode, Hex.Text;
    var d := s[2..6];
    HexDigitsSome(d, 0);
    HexDigitsSome(d, 1);
    HexDigitsSome(d, 2);
    HexDigitsSome(d, 3);
    var d3 := DigitOf(d[0]);
    var d2 := DigitOf(d[1]);
    var d1 := DigitOf(d[2]);
    var d0 := DigitOf(d[3]);
    p := Unit(d3, d2, d1, d0);
    assert d == [d3.Text(), d2.Text(), d1.Text(), d0.Text()];
    HexRead(d3, d2, d1, d0);
    UnitEncoded(p.Code());
  }

  lemma {:induction false} CharsTaken(s: bytes, done: bytes) returns (t: Chars)
    requires ParseChars(s, done).Read?
    ensures ValidChars(t) && s == CharsText(t) + [0x22] + ParseChars(s, done).rest
    ensures ParseChars(s, done).value == done + Reading(t)
    decreases |s|
  {
    hide ParseEscape, Piece.Text, Piece.Reading;
    if s[0] == 0x22 {
      t := [];
      assert s == [0x22] + s[1..];
    } else if s[0] == 0x5C {
      var p := EscapeTaken(s);
      var r := ParseEscape(s);
      var tail := CharsTaken(r.rest, done + r.value);
      t := [p] + tail;
      Joined(p, tail, r.rest, ParseChars(s, done).rest, done);
    } else {
      var p := Plain(s[0]);
      PlainPiece(s[0]);
      var tail := CharsTaken(s[1..], done + [s[0]]);
      t := [p] + tail;
      assert s == [s[0]] + s[1..];
      Joined(p, tail, s[1..], ParseChars(s, done).rest, done);
    }
  }

  lemma PlainPiece(b: byte)
    requires b >= 0x20 && b != 0x22 && b != 0x5C
    ensures Plain(b).Valid() && Plain(b).Text() == [b] && Plain(b).Reading() == [b]
  {
  }

  lemma Joined(p: Piece, tail: Chars, later: bytes, rest: bytes, done: bytes)
    requires p.Valid() && ValidChars(tail) && later == CharsText(tail) + [0x22] + rest
    ensures ValidChars([p] + tail)
    ensures p.Text() + later == CharsText([p] + tail) + [0x22] + rest
    ensures done + p.Reading() + Reading(tail) == done + Reading([p] + tail)
  {
    hide Piece.Text, Piece.Reading, Piece.Valid;
    var t := [p] + tail;
    assert t[0] == p && t[1..] == tail;
    assert CharsText(t) == p.Text() + CharsText(tail) && Reading(t) == p.Reading() + Reading(tail);
  }

  /** A string is read exactly when a quoted string of the RFC is there, and as what it says. */
  lemma {:induction false} StringReadIff(s: bytes, value: bytes, rest: bytes)
    ensures ParseString(s) == Read(value, rest) <==> IsString(s, value, rest)
  {
    hide ParseChars, CharsText, ValidChars, JsonGrammar.Reading;
    if ParseString(s) == Read(value, rest) {
      var t := CharsTaken(s[1..], []);
      assert [] + Reading(t) == Reading(t);
      assert s == [0x22] + s[1..];
      assert s == Quoted(t) + rest;
    }
    if IsString(s, value, rest) {
      var t :| ValidChars(t) && value == Reading(t) && s == Quoted(t) + rest;
      StringParsed(t, rest);
    }
  }

  // ----- Bracketed texts -----

  /** Inside brackets only strings matter, and the two brackets themselves. */
  datatype Token = Quote(chars: Chars) | Other(b: byte) {
    predicate Valid() {
      match this
      case Quote(t) => ValidChars(t)
      case Other(b) => b != 0x22
    }

    function Text(): bytes {
      match this
      case Quote(t) => Quoted(t)
      case Other(b) => [b]
    }
  }

  function TokensText(ks: seq<Token>): bytes {
    if ks == [] then [] else ks[0].Text() + TokensText(ks[1..])
  }

  /** The tokens bring the depth to zero with the last of them and not before. */
  predicate Closes(ks: seq<Token>, open: byte, close: byte, depth: nat)
    decreases |ks|
  {
    if ks == [] then depth == 0
    else
      && depth > 0 && ks[0].Valid()
      && Closes(ks[1..], open, close,
                if ks[0] == Other(open) then depth + 1 else if ks[0] == Other(close) then depth - 1 else depth)
  }

  lemma {:induction false} NestedTaken(s: bytes, open: byte, close: byte, depth: nat) returns (ks: seq<Token>)
    requires Bracket(open, close) && SkipNested(s, open, close, depth).Some?
    ensures Closes(ks, open, close, depth) && s == TokensText(ks) + SkipNested(s, open, close, depth).value
    decreases |s|
  {
    hide ParseString, CharsText, ValidChars;
    if depth == 0 {
      ks := [];
    } else {
      var k, rest := TokenTaken(s);
      var after := if k == Other(open) then depth + 1 else if k == Other(close) then depth - 1 else depth;
      var later := NestedTaken(rest, open, close, after);
      ks := [k] + later;
      MoreTokens(k, later, SkipNested(rest, open, close, after).value);
    }
  }

  lemma MoreTokens(k: Token, later: seq<Token>, rest: bytes)
    ensures var ks := [k] + later;
            ks[0] == k && ks[1..] == later && TokensText(ks) + rest == k.Text() + (TokensText(later) + rest)
  {
    hide Token.Text;
  }

  /** The token in front, if a string there is complete. */
  lemma {:induction false} TokenTaken(s: bytes) returns (k: Token, rest: bytes)
    requires s != [] && (s[0] == 0x22 ==> ParseString(s).Read?)
    ensures k.Valid() && s == k.Text() + rest
    ensures if s[0] == 0x22 then k.Quote? && rest == ParseString(s).rest else k == Other(s[0]) && rest == s[1..]
  {
    hide ParseString, CharsText, ValidChars, JsonGrammar.Reading;
    if s[0] == 0x22 {
      rest := ParseString(s).rest;
      StringReadIff(s, ParseString(s).value, rest);
      var t :| ValidChars(t) && ParseString(s).value == Reading(t) && s == Quoted(t) + rest;
      k := Quote(t);
    } else {
      k, rest := Other(s[0]), s[1..];
    }
  }

  lemma {:induction false} NestedSkipped(ks: seq<Token>, rest: bytes, open: byte, close: byte, depth: nat)
    requires Bracket(open, close) && Closes(ks, open, close, depth)
    ensures SkipNested(TokensText(ks) + rest, open, close, depth) == Some(rest)
    decreases |ks|
  {
    hide ParseString, CharsText, ValidChars, SkipNested;
    if ks == [] {
      DepthZero(rest, open, close);
      assert TokensText(ks) + rest == rest;
    } else {
      var k, later := ks[0], TokensText(ks[1..]) + rest;
      assert TokensText(ks) + rest == k.Text() + later;
      var after := if k == Other(open) then depth + 1 else if k == Other(close) then depth - 1 else depth;
      NestedSkipped(ks[1..], rest, open, close, after);
      if k.Quote? {
        StringSkipped(k.chars, later, open, close, depth);
      } else {
        CharStep(k.b, later, open, close, depth);
      }
    }
  }

  ghost predicate IsBracketed(v: bytes, open: byte, close: byte) {
    exists ks :: Closes(ks, open, close, 1) && v == [open] + TokensText(ks)
  }

  // ----- Numbers -----

  /** A number as far as the reader looks: any part may lack its digits. */
  datatype Loose = Loose(minus: bool, whole: bytes, fraction: Option<bytes>, exponent: Option<(byte, bytes, bytes)>) {
    predicate Valid() {
      && (minus || whole != []) && AllDigits(whole)
      && (fraction.Some? ==> AllDigits(fraction.value))
      && (exponent.Some? ==>
            && (exponent.value.0 == 0x65 || exponent.value.0 == 0x45)
            && (exponent.value.1 == [] || exponent.value.1 == [0x2B] || exponent.value.1 == [0x2D])
            && AllDigits(exponent.value.2))
    }

    function ExponentText(): bytes {
      if exponent.None? then [] else [exponent.value.0] + exponent.value.1 + exponent.value.2
    }

    function FractionText(): bytes {
      if fraction.None? then [] else [0x2E] + fraction.value
    }

    function Text(): bytes {
      (if minus then [0x2D] else []) + (whole + (FractionText() + ExponentText()))
    }

    /** The text does not go on as part of the number. */
    predicate Ends(rest: bytes) {
      rest == [] ||
      (&& !(0x30 <= rest[0] <= 0x39)
       && (exponent.None? ==> rest[0] != 0x65 && rest[0] != 0x45)
       && (exponent.None? && fraction.None? ==> rest[0] != 0x2E)
       && (exponent.Some? && exponent.value.1 == [] && exponent.value.2 == [] ==> rest[0] != 0x2B && rest[0] != 0x2D))
    }
  }

  /** A lone minus sign counts as a number only if something follows. */
  ghost predicate IsNumber(v: bytes, rest: bytes) {
    exists n: Loose :: n.Valid() && n.Ends(rest) && v == n.Text() && (v == [0x2D] ==> rest != [])
  }

  lemma {:induction false} DigitsTaken(s: bytes) returns (d: bytes)
    ensures AllDigits(d) && s == d + SkipDigits(s)
    ensures SkipDigits(s) == [] || !IsDigit(SkipDigits(s)[0])
    decreases |s|
  {
    hide AllDigits;
    NoDigits();
    if s == [] || !IsDigit(s[0]) {
      d := [];
    } else {
      var later := DigitsTaken(s[1..]);
      d := [s[0]] + later;
      MoreDigits(s[0], later);
      InFront(s, later, SkipDigits(s[1..]));
    }
  }

  lemma MoreDigits(b: byte, later: bytes)
    requires IsDigit(b) && AllDigits(later)
    ensures AllDigits([b] + later)
  {
  }

  lemma InFront(s: bytes, later: bytes, rest: bytes)
    requires s != [] && s[1..] == later + rest
    ensures s == [s[0]] + later + rest
  {
    assert s == [s[0]] + s[1..];
  }

  /** The exponent that is skipped, if there is one. */
  lemma {:induction false} ExponentTaken(s: bytes) returns (e: Option<(byte, bytes, bytes)>)
    ensures Loose(true, [], None, e).Valid() && s == Loose(true, [], None, e).ExponentText() + SkipExponent(s)
    ensures if e.Some? then Loose(true, [], None, e).Ends(SkipExponent(s))
            else SkipExponent(s) == s && (s == [] || (s[0] != 0x65 && s[0] != 0x45))
  {
    hide SkipDigits, AllDigits;
    NoDigits();
    if s != [] && (s[0] == 0x65 || s[0] == 0x45) {
      var t := s[1..];
      var sign := if t != [] && (t[0] == 0x2B || t[0] == 0x2D) then [t[0]] else [];
      var d := DigitsTaken(t[|sign|..]);
      e := Some((s[0], sign, d));
      ExponentRead(s, sign, d);
    } else {
      e := None;
    }
  }

  lemma ExponentRead(s: bytes, sign: bytes, d: bytes)
    requires s != [] && (s[0] == 0x65 || s[0] == 0x45)
    requires var t := s[1..];
             && sign == (if t != [] && (t[0] == 0x2B || t[0] == 0x2D) then [t[0]] else [])
             && t[|sign|..] == d + SkipDigits(t[|sign|..])
    ensures SkipExponent(s) == SkipDigits(s[1..][|sign|..])
    ensures s == [s[0]] + sign + d + SkipExponent(s)
    ensures sign == [] && d == [] && SkipExponent(s) != [] ==> SkipExponent(s)[0] != 0x2B && SkipExponent(s)[0] != 0x2D
  {
    hide SkipDigits;
    var t := s[1..];
    var rest := SkipDigits(t[|sign|..]);
    assert s == [s[0]] + t && t == sign + t[|sign|..];
    assert [s[0]] + (sign + (d + rest)) == [s[0]] + sign + d + rest;
  }

  lemma NoDigits()
    ensures AllDigits([])
  {
  }

  lemma {:induction false} FractionTaken(s: bytes) returns (f: Option<bytes>)
    ensures var n := Loose(true, [], f, None);
            n.Valid() && s == n.FractionText() + SkipFraction(s)
    ensures var rest := SkipFraction(s);
            rest == [] || ((f.Some? ==> !IsDigit(rest[0])) && (f.None? ==> rest == s && rest[0] != 0x2E))
  {
    hide SkipDigits, AllDigits;
    NoDigits();
    if s != [] && s[0] == 0x2E {
      var d := DigitsTaken(s[1..]);
      f := Some(d);
      assert s == [s[0]] + s[1..];
    } else {
      f := None;
    }
  }

  lemma {:induction false} NumberTaken(s: bytes) returns (n: Loose)
    requires s != [] && (s[0] == 0x2D || IsDigit(s[0])) && SkipNumber(s).Some?
    ensures n.Valid() && n.Ends(SkipNumber(s).value) && s == n.Text() + SkipNumber(s).value
    ensures n.Text() == [0x2D] ==> SkipNumber(s).value != []
  {
    hide SkipDigits, SkipFraction, SkipExponent, AllDigits, Loose.Text, Loose.ExponentText, Loose.FractionText;
    var minus := s[0] == 0x2D;
    var t := if minus then s[1..] else s;
    var whole := DigitsTaken(t);
    var f := FractionTaken(SkipDigits(t));
    var e := ExponentTaken(SkipFraction(SkipDigits(t)));
    n := Loose(minus, whole, f, e);
    SameParts(n);
    var rest := SkipExponent(SkipFraction(SkipDigits(t)));
    EndsThere(n, SkipDigits(t), SkipFraction(SkipDigits(t)), rest);
    assert whole == [] ==> t == SkipDigits(t);
    Reassembled(n, rest);
    assert s == (if minus then [0x2D] else []) + t;
    if n.Text() == [0x2D] {
      assert s == [0x2D] + rest;
      assert s[1..] == rest;
    }
  }

  lemma EndsThere(n: Loose, u: bytes, w: bytes, rest: bytes)
    requires u == [] || !IsDigit(u[0])
    requires w == [] || (if n.fraction.Some? then !IsDigit(w[0]) else w == u && w[0] != 0x2E)
    requires if n.exponent.Some? then Loose(true, [], None, n.exponent).Ends(rest)
             else rest == w && (w == [] || (w[0] != 0x65 && w[0] != 0x45))
    ensures n.Ends(rest)
  {
  }

  /** The texts of the parts depend on those parts only. */
  lemma SameParts(n: Loose)
    ensures n.FractionText() == Loose(true, [], n.fraction, None).FractionText()
    ensures n.ExponentText() == Loose(true, [], None, n.exponent).ExponentText()
  {
  }

  lemma Reassembled(n: Loose, rest: bytes)
    ensures n.Text() + rest
         == (if n.minus then [0x2D] else []) + (n.whole + (n.FractionText() + (n.ExponentText() + rest)))
  {
    hide Loose.FractionText, Loose.ExponentText;
    var m := if n.minus then [0x2D] else [];
    var f, e := n.FractionText(), n.ExponentText();
    assert m + (n.whole + (f + e)) + rest == m + (n.whole + (f + (e + rest)));
  }

  lemma {:induction false} LooseExponent(n: Loose, rest: bytes)
    requires n.Valid() && n.Ends(rest)
    ensures SkipExponent(n.ExponentText() + rest) == rest
    ensures var s := n.ExponentText() + rest;
            s == [] || (!IsDigit(s[0]) && (n.fraction.None? ==> s[0] != 0x2E))
  {
    hide SkipDigits, AllDigits;
    var s := n.ExponentText() + rest;
    if n.exponent.None? {
      assert s == rest;
    } else {
      var (e, sign, d) := n.exponent.value;
      DigitsSkipped(d, rest);
      SignSkipped(sign, d, rest);
      ExponentFront(e, sign, d, rest);
    }
  }

  lemma ExponentFront(e: byte, sign: bytes, d: bytes, rest: bytes)
    ensures var s := [e] + sign + d + rest;
            s[0] == e && s[1..] == sign + (d + rest)
  {
  }

  lemma {:induction false} SignSkipped(sign: bytes, d: bytes, rest: bytes)
    requires (sign == [] || sign == [0x2B] || sign == [0x2D]) && AllDigits(d)
    requires sign == [] && d == [] && rest != [] ==> rest[0] != 0x2B && rest[0] != 0x2D
    ensures var t := sign + (d + rest);
            (if t != [] && (t[0] == 0x2B || t[0] == 0x2D) then t[1..] else t) == d + rest
  {
    var u := d + rest;
    var t := sign + u;
    if sign == [] {
      assert t == u;
      if d == [] {
        assert u == rest;
      } else {
        assert u[0] == d[0];
      }
    } else {
      assert t[0] == sign[0] && t[1..] == u;
    }
  }

  lemma {:induction false} LooseFraction(n: Loose, rest: bytes)
    requires n.Valid() && n.Ends(rest)
    ensures SkipFraction(n.FractionText() + (n.ExponentText() + rest)) == n.ExponentText() + rest
    ensures var s := n.FractionText() + (n.ExponentText() + rest); s == [] || !IsDigit(s[0])
  {
    hide SkipDigits, AllDigits, SkipExponent, Loose.ExponentText;
    LooseExponent(n, rest);
    var later := n.ExponentText() + rest;
    var s := n.FractionText() + later;
    if n.fraction.None? {
      assert s == later;
    } else {
      DigitsSkipped(n.fraction.value, later);
      assert s[0] == 0x2E && s[1..] == n.fraction.value + later;
    }
  }

  lemma Alone(n: Loose, rest: bytes)
    requires n.minus
    ensures n.whole + (n.FractionText() + (n.ExponentText() + rest)) == [] ==> n.Text() == [0x2D] && rest == []
  {
  }

  lemma {:induction false} LooseSkipped(n: Loose, rest: bytes)
    requires n.Valid() && n.Ends(rest) && (n.Text() == [0x2D] ==> rest != [])
    ensures var s := n.Text() + rest;
            s != [] && (s[0] == 0x2D || IsDigit(s[0])) && SkipNumber(s) == Some(rest)
  {
    hide SkipDigits, SkipFraction, SkipExponent, AllDigits, Loose.FractionText, Loose.ExponentText;
    Reassembled(n, rest);
    LooseFraction(n, rest);
    LooseExponent(n, rest);
    var later := n.FractionText() + (n.ExponentText() + rest);
    DigitsSkipped(n.whole, later);
    var s, t := n.Text() + rest, n.whole + later;
    if n.whole != [] {
      FirstDigit(n.whole);
      assert t[0] == n.whole[0];
    }
    if n.minus {
      Alone(n, rest);
      assert s == [0x2D] + t && s[1..] == t;
    } else {
      assert s == t;
    }
  }

  // ----- Any value -----

  ghost predicate IsQuoted(v: bytes) {
    exists t :: ValidChars(t) && v == Quoted(t)
  }

  /** What is taken for a value where `rest` follows. */
  ghost predicate IsValue(v: bytes, rest: bytes) {
    || IsQuoted(v)
    || IsBracketed(v, 0x7B, 0x7D)
    || IsBracketed(v, 0x5B, 0x5D)
    || IsNumber(v, rest)
    || v == Raw("true") || v == Raw("false") || v == Raw("null")
  }

  lemma {:induction false} SpaceTaken(s: bytes) returns (space: bytes)
    ensures AllSpace(space) && s == space + SkipSpace(s) && (SkipSpace(s) == [] || !IsSpace(SkipSpace(s)[0]))
    decreases |s|
  {
    hide AllSpace;
    if s == [] || !IsSpace(s[0]) {
      space := [];
      NoSpace();
    } else {
      var later := SpaceTaken(s[1..]);
      space := [s[0]] + later;
      MoreSpace(s[0], later);
      InFront(s, later, SkipSpace(s[1..]));
    }
  }

  lemma NoSpace()
    ensures AllSpace([])
  {
  }

  lemma MoreSpace(b: byte, later: bytes)
    requires IsSpace(b) && AllSpace(later)
    ensures AllSpace([b] + later)
  {
  }

  lemma {:induction false} BracketedTaken(s: bytes, open: byte, close: byte) returns (v: bytes)
    requires Bracket(open, close) && s != [] && s[0] == open && SkipNested(s[1..], open, close, 1).Some?
    ensures IsBracketed(v, open, close) && s == v + SkipNested(s[1..], open, close, 1).value
  {
    hide SkipNested, Closes, TokensText;
    var ks := NestedTaken(s[1..], open, close, 1);
    v := [open] + TokensText(ks);
    assert s == [open] + s[1..];
    assert Closes(ks, open, close, 1) && v == [open] + TokensText(ks);
  }

  lemma {:induction false} LiteralTaken(s: bytes) returns (v: bytes)
    requires SkipLiteral(s).Some?
    ensures (v == Raw("true") || v == Raw("false") || v == Raw("null")) && s == v + SkipLiteral(s).value
  {
    v := if Raw("true") <= s then Raw("true") else if Raw("false") <= s then Raw("false") else Raw("null");
    assert s == s[..|v|] + s[|v|..];
  }

  lemma {:induction false} ValueTaken(s: bytes) returns (v: bytes)
    requires s != [] && !IsSpace(s[0]) && SkipValue(s).Some?
    ensures IsValue(v, SkipValue(s).value) && s == v + SkipValue(s).value
  {
    hide SkipNested, ParseString, SkipNumber, SkipLiteral, CharsText, ValidChars, JsonGrammar.Reading, Raw, IsBracketed, IsNumber;
    assert SkipSpace(s) == s;
    if s[0] == 0x22 {
      var r := ParseString(s);
      StringReadIff(s, r.value, r.rest);
      var t :| ValidChars(t) && r.value == Reading(t) && s == Quoted(t) + r.rest;
      v := Quoted(t);
    } else if s[0] == 0x7B {
      v := BracketedTaken(s, 0x7B, 0x7D);
    } else if s[0] == 0x5B {
      v := BracketedTaken(s, 0x5B, 0x5D);
    } else if s[0] == 0x2D || IsDigit(s[0]) {
      var n := NumberTaken(s);
      v := n.Text();
      NumberIs(n, SkipNumber(s).value);
    } else {
      v := LiteralTaken(s);
    }
  }

  lemma NumberIs(n: Loose, rest: bytes)
    requires n.Valid() && n.Ends(rest) && (n.Text() == [0x2D] ==> rest != [])
    ensures IsNumber(n.Text(), rest)
  {
  }

  lemma {:induction false} BracketedSkipped(v: bytes, rest: bytes, open: byte, close: byte)
    requires Bracket(open, close) && IsBracketed(v, open, close)
    ensures v != [] && v[0] == open && SkipNested((v + rest)[1..], open, close, 1) == Some(rest)
  {
    hide SkipNested, TokensText, Closes;
    var ks :| Closes(ks, open, close, 1) && v == [open] + TokensText(ks);
    NestedSkipped(ks, rest, open, close, 1);
    assert (v + rest)[1..] == TokensText(ks) + rest;
  }

  lemma {:induction false} LiteralSkipped(v: bytes, rest: bytes)
    requires v == Raw("true") || v == Raw("false") || v == Raw("null")
    ensures var s := v + rest;
            && SkipLiteral(s) == Some(rest) && s != []
            && s[0] != QUOTE && s[0] != OPEN_BRACE && s[0] != OPEN_BRACKET && s[0] != MINUS && !IsDigit(s[0]) && !IsSpace(s[0])
  {
    hide Raw, SkipLiteral;
    WordsSkipped(Null, rest);
    WordsSkipped(True, rest);
    WordsSkipped(False, rest);
  }

  lemma {:induction false} ValueSkippedOver(v: bytes, rest: bytes)
    requires IsValue(v, rest)
    ensures var s := v + rest;
            s != [] && !IsSpace(s[0]) && SkipValue(s) == Some(rest) && (s[0] == 0x22 <==> IsQuoted(v))
  {
    hide SkipNested, ParseString, SkipNumber, SkipLiteral, CharsText, ValidChars, JsonGrammar.Reading, Raw, IsBracketed, Loose.Text;
    var s := v + rest;
    if IsQuoted(v) {
      var t :| ValidChars(t) && v == Quoted(t);
      StringParsed(t, rest);
    } else if IsBracketed(v, 0x7B, 0x7D) {
      BracketedSkipped(v, rest, 0x7B, 0x7D);
    } else if IsBracketed(v, 0x5B, 0x5D) {
      BracketedSkipped(v, rest, 0x5B, 0x5D);
    } else if IsNumber(v, rest) {
      var n: Loose :| n.Valid() && n.Ends(rest) && v == n.Text() && (v == [0x2D] ==> rest != []);
      LooseSkipped(n, rest);
    } else {
      LiteralSkipped(v, rest);
    }
  }

  ghost predicate SkipsTo(s: bytes, space: bytes, v: bytes, rest: bytes) {
    AllSpace(space) && IsValue(v, rest) && s == space + v + rest
  }

  /** A value is skipped exactly where whitespace and a value stand, up to its end. */
  lemma {:induction false} ValueSkippedIff(s: bytes, rest: bytes)
    ensures SkipValue(s) == Some(rest) <==> exists space, v :: SkipsTo(s, space, v, rest)
  {
    hide SkipsTo, SkipValue;
    if SkipValue(s) == Some(rest) {
      var space, v := SpacedTaken(s);
    }
    if exists space, v :: SkipsTo(s, space, v, rest) {
      var space, v :| SkipsTo(s, space, v, rest);
      SpacedSkipped(s, space, v, rest);
    }
  }

  lemma {:induction false} SpacedTaken(s: bytes) returns (space: bytes, v: bytes)
    requires SkipValue(s).Some?
    ensures SkipsTo(s, space, v, SkipValue(s).value)
  {
    hide SkipSpace, IsValue, AllSpace, SkipNested, ParseString, SkipNumber, SkipLiteral;
    space := SpaceTaken(s);
    var t := SkipSpace(s);
    SkipAgain(t);
    v := ValueTaken(t);
    assert space + (v + SkipValue(s).value) == space + v + SkipValue(s).value;
  }

  lemma {:induction false} SpacedSkipped(s: bytes, space: bytes, v: bytes, rest: bytes)
    requires SkipsTo(s, space, v, rest)
    ensures SkipValue(s) == Some(rest)
  {
    hide SkipSpace, IsValue, AllSpace, SkipNested, ParseString, SkipNumber, SkipLiteral;
    ValueSkippedOver(v, rest);
    SpaceSkipped(space, v + rest);
    assert s == space + (v + rest);
    SkipAgain(v + rest);
  }

  lemma SkipAgain(t: bytes)
    requires t == [] || !IsSpace(t[0])
    ensures SkipSpace(t) == t
  {
  }

  // ----- Looking up a member -----

  /** Text that does not start with whitespace. */
  predicate Bare(s: bytes) {
    s == [] || !(s[0] == 0x20 || s[0] == 0x09 || s[0] == 0x0A || s[0] == 0x0D)
  }

  /** A member's name and colon stand in front of `value`. */
  ghost predicate Named(s: bytes, name: bytes, value: bytes) {
    exists before, t, after, gap :: NamedBy(s, before, t, after, gap, value) && name == Reading(t)
  }

  ghost predicate NamedBy(s: bytes, before: bytes, t: Chars, after: bytes, gap: bytes, value: bytes) {
    && AllSpace(before) && ValidChars(t) && AllSpace(after) && AllSpace(gap) && Bare(value)
    && s == before + (Quoted(t) + (after + ([0x3A] + (gap + value))))
  }

  /** The claim in front: a string by what it says, any other value by its text. */
  ghost predicate Claimed(s: bytes, x: bytes) {
    if s != [] && s[0] == 0x22 then exists rest :: IsString(s, x, rest) else exists rest :: IsValue(x, rest) && s == x + rest
  }

  /** A value and a comma stand in front of `later`. */
  ghost predicate Passed(s: bytes, later: bytes) {
    exists v, after :: PassedBy(s, v, after, later)
  }

  ghost predicate PassedBy(s: bytes, v: bytes, after: bytes, later: bytes) {
    AllSpace(after) && IsValue(v, after + [0x2C] + later) && s == v + (after + [0x2C] + later)
  }

  /** Members with other names, each with a value and a comma, and then one with the name. */
  ghost predicate Finds(s: bytes, key: bytes, x: bytes)
    decreases |s|
  {
    exists name, value :: Named(s, name, value) &&
      if name == key then Claimed(value, x) else exists later :: Passed(value, later) && |later| < |s| && Finds(later, key, x)
  }

  lemma SameSpace(s: bytes)
    ensures Bare(s) <==> s == [] || !IsSpace(s[0])
  {
  }

  /** The reader's steps in front of a member's value. */
  ghost predicate Heads(s: bytes, name: bytes, value: bytes) {
    var t := SkipSpace(s);
    t != [] && t[0] != 0x7D && ParseString(t).Read? && ParseString(t).value == name &&
    var u := SkipSpace(ParseString(t).rest);
    u != [] && u[0] == 0x3A && value == SkipSpace(u[1..])
  }

  lemma {:induction false} HeadTaken(s: bytes, name: bytes, value: bytes)
    requires Heads(s, name, value)
    ensures Named(s, name, value)
  {
    hide SkipSpace, ParseString, IsString, AllSpace, ValidChars, CharsText, JsonGrammar.Reading;
    var before := SpaceTaken(s);
    var q := SkipSpace(s);
    var r := ParseString(q).rest;
    var t := QuotedAt(q, name, r);
    var after := SpaceTaken(r);
    var u := SkipSpace(r);
    var gap := SpaceTaken(u[1..]);
    SameSpace(value);
    assert u == [0x3A] + u[1..];
    assert s == before + (Quoted(t) + (after + ([0x3A] + (gap + value))));
    assert NamedBy(s, before, t, after, gap, value);
  }

  lemma {:induction false} QuotedAt(s: bytes, value: bytes, rest: bytes) returns (t: Chars)
    requires ParseString(s) == Read(value, rest)
    ensures ValidChars(t) && value == Reading(t) && s == Quoted(t) + rest
  {
    hide ParseString, ValidChars, JsonGrammar.Reading, Quoted;
    StringReadIff(s, value, rest);
    t :| ValidChars(t) && value == Reading(t) && s == Quoted(t) + rest;
  }

  lemma {:induction false} HeadFound(s: bytes, name: bytes, value: bytes)
    requires Named(s, name, value)
    ensures Heads(s, name, value)
  {
    hide SkipSpace, ParseString, AllSpace, ValidChars, CharsText, JsonGrammar.Reading;
    var before, t, after, gap :| NamedBy(s, before, t, after, gap, value) && name == Reading(t);
    var g := gap + value;
    var u := [0x3A] + g;
    var r := after + u;
    SameSpace(value);
    SpaceSkipped(before, Quoted(t) + r);
    StringParsed(t, r);
    SpaceSkipped(after, u);
    SpaceSkipped(gap, value);
    assert u[1..] == g;
  }

  lemma {:induction false} ClaimedIff(s: bytes, x: bytes)
    requires Bare(s)
    ensures MemberValue(s) == Some(x) <==> Claimed(s, x)
  {
    hide ParseString, SkipValue, IsValue, IsString;
    SameSpace(s);
    if s != [] && s[0] == 0x22 {
      if MemberValue(s) == Some(x) {
        StringReadIff(s, x, ParseString(s).rest);
      }
      if Claimed(s, x) {
        var rest :| IsString(s, x, rest);
        StringReadIff(s, x, rest);
      }
    } else {
      if MemberValue(s) == Some(x) {
        var v := ValueTaken(s);
        assert Consumed(s, SkipValue(s).value) == v;
      }
      if Claimed(s, x) {
        var rest :| IsValue(x, rest) && s == x + rest;
        ValueSkippedOver(x, rest);
        assert Consumed(s, rest) == x;
      }
    }
  }

  /** The reader's steps over a value that is not wanted. */
  ghost predicate Steps(s: bytes, later: bytes) {
    SkipValue(s).Some? &&
    var w := SkipSpace(SkipValue(s).value);
    w != [] && w[0] == 0x2C && later == w[1..]
  }

  lemma {:induction false} PassedIff(s: bytes, later: bytes)
    requires Bare(s)
    ensures Steps(s, later) <==> Passed(s, later)
  {
    hide SkipValue, SkipSpace, IsValue, AllSpace;
    SameSpace(s);
    if Steps(s, later) {
      NotEmpty(s);
      var v := ValueTaken(s);
      var rest := SkipValue(s).value;
      var after := SpaceTaken(rest);
      assert rest == after + [0x2C] + later;
      assert PassedBy(s, v, after, later);
    }
    if Passed(s, later) {
      var v, after :| PassedBy(s, v, after, later);
      ValueSkippedOver(v, after + [0x2C] + later);
      var w := [0x2C] + later;
      SpaceSkipped(after, w);
      assert after + [0x2C] + later == after + w && w[1..] == later;
    }
  }

  lemma NotEmpty(s: bytes)
    requires SkipValue(s).Some?
    ensures s != []
  {
  }

  /** The search unrolled once. */
  lemma {:induction false} MemberUnrolled(s: bytes, key: bytes, x: bytes)
    ensures FindMember(s, key) == Some(x) <==>
            exists name, value :: Heads(s, name, value) &&
              if name == key then MemberValue(value) == Some(x)
              else exists later :: Steps(value, later) && |later| < |s| && FindMember(later, key) == Some(x)
  {
    hide SkipSpace, ParseString, SkipValue, MemberValue;
    var t := SkipSpace(s);
    if t != [] && ParseString(t).Read? && SkipSpace(ParseString(t).rest) != [] {
      var name, value := ParseString(t).value, SkipSpace(SkipSpace(ParseString(t).rest)[1..]);
      if Heads(s, name, value) && name != key && SkipValue(value).Some? && SkipSpace(SkipValue(value).value) != [] {
        var later := SkipSpace(SkipValue(value).value)[1..];
        assert Steps(value, later) <==> SkipSpace(SkipValue(value).value)[0] == 0x2C;
      }
    }
  }

  lemma {:induction false} HeadIff(s: bytes, name: bytes, value: bytes)
    ensures Heads(s, name, value) <==> Named(s, name, value)
    ensures Heads(s, name, value) ==> Bare(value)
  {
    hide Heads;
    if Heads(s, name, value) {
      HeadTaken(s, name, value);
      var before, t, after, gap :| NamedBy(s, before, t, after, gap, value) && name == Reading(t);
    }
    if Named(s, name, value) {
      HeadFound(s, name, value);
    }
  }

  lemma {:induction false} FindsIff(s: bytes, key: bytes, x: bytes)
    ensures FindMember(s, key) == Some(x) <==> Finds(s, key, x)
    decreases |s|
  {
    hide FindMember, Heads, Named, Claimed, Passed, Steps, MemberValue;
    MemberUnrolled(s, key, x);
    forall name, value
      ensures Heads(s, name, value) <==> Named(s, name, value)
      ensures Heads(s, name, value) ==> (MemberValue(value) == Some(x) <==> Claimed(value, x))
      ensures Heads(s, name, value) ==> forall later :: Steps(value, later) <==> Passed(value, later)
    {
      HeadIff(s, name, value);
      if Heads(s, name, value) {
        ClaimedIff(value, x);
        forall later
          ensures Steps(value, later) <==> Passed(value, later)
        {
          PassedIff(value, later);
        }
      }
    }
    forall later: bytes | |later| < |s|
      ensures FindMember(later, key) == Some(x) <==> Finds(later, key, x)
    {
      FindsIff(later, key, x);
    }
  }

  /**
   * A lookup answers exactly where the text is an opening brace, members of other names that each have a value and
   * a comma, and a member of the name with its value, with whitespace around any of these.
   */
  lemma {:induction false} LookupIff(json: bytes, key: bytes, x: bytes)
    ensures GetString(json, key) == Some(x) <==>
            exists space, s :: AllSpace(space) && json == space + ([0x7B] + s) && Finds(s, key, x)
  {
    hide SkipSpace, FindMember, Finds, AllSpace;
    var t := SkipSpace(json);
    if GetString(json, key) == Some(x) {
      var space := SpaceTaken(json);
      FindsIff(t[1..], key, x);
      assert t == [0x7B] + t[1..];
      assert AllSpace(space) && json == space + ([0x7B] + t[1..]) && Finds(t[1..], key, x);
    }
    if exists space, s :: AllSpace(space) && json == space + ([0x7B] + s) && Finds(s, key, x) {
      var space, s :| AllSpace(space) && json == space + ([0x7B] + s) && Finds(s, key, x);
      SpaceSkipped(space, [0x7B] + s);
      FindsIff(s, key, x);
      assert ([0x7B] + s)[1..] == s;
    }
  }
}
