/** UTF-8 decoding, validation and normalisation of src/unicode.cpp. */
module Utf8 {
  import opened Common

  datatype Decoded = Bad | Unit(cp: nat, size: nat)

  // ----- decode_codepoint -----

  /** Length announced by a lead byte; zero if it is none. The quotients are the masked high bits. */
  function Expected(lead: byte): (n: nat)
    ensures n <= 4
  {
    if lead < 0x80 then 1
    else if lead / 32 == 6 then 2
    else if lead / 16 == 14 then 3
    else if lead / 8 == 30 then 4
    else 0
  }

  function LeadBits(lead: byte): nat {
    if lead < 0x80 then lead
    else if lead / 32 == 6 then lead % 32
    else if lead / 16 == 14 then lead % 16
    else lead % 8
  }

  predicate Continuation(b: byte) {
    b / 64 == 2
  }

  predicate AllContinue(s: bytes) {
    forall i | 0 <= i < |s| :: Continuation(s[i])
  }

  /** Append the six low bits of each byte. */
  function Accumulate(cp: nat, s: bytes): nat {
    if s == [] then cp else Accumulate(cp, s[..|s| - 1]) * 64 + s[|s| - 1] as int % 64
  }

  function Decode(s: bytes): (d: Decoded)
    ensures d.Unit? ==> 1 <= d.size <= 4 && d.size <= |s|
  {
    if s == [] then Bad
    else
      var n := Expected(s[0]);
      if n == 0 || |s| < n || !AllContinue(s[1..n]) then Bad
      else Unit(Accumulate(LeadBits(s[0]), s[1..n]), n)
  }

  predicate Overlong(cp: nat, size: nat) {
    (size == 2 && cp < 0x80) || (size == 3 && cp < 0x800) || (size == 4 && cp < 0x10000)
  }

  predicate Surrogate(cp: nat) {
    0xD800 <= cp <= 0xDFFF
  }

  predicate Dangerous(cp: nat) {
    || cp == 0
    || Surrogate(cp)
    || 0xFDD0 <= cp <= 0xFDEF
    || cp % 0x10000 / 2 == 0x7FFF
    || cp == 0xFEFF
    || 0x202A <= cp <= 0x202E
    || 0x2066 <= cp <= 0x2069
    || 0x200B <= cp <= 0x200D
  }

  /** Fullwidth forms of / \ . < > ' " and &. */
  predicate FullwidthOfSpecial(cp: nat) {
    0xFF01 <= cp <= 0xFF5E && cp - 0xFF01 + 0x21 in {0x2F, 0x5C, 0x2E, 0x3C, 0x3E, 0x27, 0x22, 0x26}
  }

  // ----- The code points meant -----

  /** Null, zero-width characters, bidirectional controls, surrogates, noncharacters, and the byte order mark. */
  const HARMFUL: seq<(nat, nat)> :=
    [(0x0000, 0x0000), (0x200B, 0x200D), (0x202A, 0x202E), (0x2066, 0x2069), (0xD800, 0xDFFF), (0xFDD0, 0xFDEF), (0xFEFF, 0xFEFF)]

  predicate Covers(cp: nat, r: (nat, nat)) {
    r.0 <= cp <= r.1
  }

  /** The last two code points of a plane. */
  predicate EndsPlane(cp: nat, plane: nat) {
    cp == 0x10000 * plane + 0xFFFE || cp == 0x10000 * plane + 0xFFFF
  }

  lemma DangerousIff(cp: nat)
    ensures Dangerous(cp) <==> (exists i | 0 <= i < |HARMFUL| :: Covers(cp, HARMFUL[i])) || (exists plane: nat :: EndsPlane(cp, plane))
  {
    hide Covers;
    var h := HARMFUL;
    Ranges(cp);
    if exists i | 0 <= i < |h| :: Covers(cp, h[i]) {
      var i :| 0 <= i < |h| && Covers(cp, h[i]);
      assert h[i] in {h[0], h[1], h[2], h[3], h[4], h[5], h[6]};
    }
    if cp % 0x10000 / 2 == 0x7FFF {
      assert EndsPlane(cp, cp / 0x10000);
    }
    if exists plane: nat :: EndsPlane(cp, plane) {
      var plane: nat :| EndsPlane(cp, plane);
      assert cp % 0x10000 / 2 == 0x7FFF;
    }
  }

  lemma Ranges(cp: nat)
    ensures var h := HARMFUL;
            && (Covers(cp, h[0]) <==> cp == 0) && (Covers(cp, h[1]) <==> 0x200B <= cp <= 0x200D)
            && (Covers(cp, h[2]) <==> 0x202A <= cp <= 0x202E) && (Covers(cp, h[3]) <==> 0x2066 <= cp <= 0x2069)
            && (Covers(cp, h[4]) <==> Surrogate(cp)) && (Covers(cp, h[5]) <==> 0xFDD0 <= cp <= 0xFDEF)
            && (Covers(cp, h[6]) <==> cp == 0xFEFF)
  {
  }

  /** The characters / \ . < > ' " and & in the block of fullwidth forms, which lies 0xFEE0 above ASCII. */
  lemma FullwidthIff(cp: nat)
    ensures FullwidthOfSpecial(cp) <==> exists c | c in Raw("/\\.<>'\"&") :: cp == c as int + 0xFEE0
  {
    var s := Raw("/\\.<>'\"&");
    assert s == [0x2F, 0x5C, 0x2E, 0x3C, 0x3E, 0x27, 0x22, 0x26];
    if FullwidthOfSpecial(cp) {
      var c: byte := cp - 0xFEE0;
      assert c in s;
    }
  }

  // ----- The scans -----

  predicate IsValid(s: bytes)
    decreases |s|
  {
    s == [] ||
    var d := Decode(s);
    d.Unit? && !Overlong(d.cp, d.size) && !Surrogate(d.cp) && d.cp <= 0x10FFFF && IsValid(s[d.size..])
  }

  function Normalize(s: bytes): bytes
    decreases |s|
  {
    if s == [] then []
    else
      var d := Decode(s);
      if d.Bad? then Normalize(s[1..])
      else if Dangerous(d.cp) then Normalize(s[d.size..])
      else if Overlong(d.cp, d.size) then Encode(d.cp) + Normalize(s[d.size..])
      else s[..d.size] + Normalize(s[d.size..])
  }

  predicate Suspicious(s: bytes)
    decreases |s|
  {
    s != [] &&
    var d := Decode(s);
    d.Bad? || Overlong(d.cp, d.size) || Dangerous(d.cp) || FullwidthOfSpecial(d.cp) || Suspicious(s[d.size..])
  }

  predicate HasOverlong(s: bytes)
    decreases |s|
  {
    s != [] &&
    var d := Decode(s);
    if d.Bad? then HasOverlong(s[1..]) else Overlong(d.cp, d.size) || HasOverlong(s[d.size..])
  }

  // ----- The encoding of section 3 of RFC 3629 -----

  /** The shortest form; defined on every value of 21 bits. */
  function Encode(cp: nat): (s: bytes)
    ensures 1 <= |s| <= 4
  {
    if cp < 0x80 then [cp]
    else if cp < 0x800 then [0xC0 + cp / 64, 0x80 + cp % 64]
    else if cp < 0x10000 then [0xE0 + cp / 4096, 0x80 + cp / 64 % 64, 0x80 + cp % 64]
    else [0xF0 + cp / 262144 % 8, 0x80 + cp / 4096 % 64, 0x80 + cp / 64 % 64, 0x80 + cp % 64]
  }

  predicate Scalar(cp: nat) {
    cp <= 0x10FFFF && !Surrogate(cp)
  }

  function EncodeAll(cps: seq<nat>): bytes {
    if cps == [] then [] else Encode(cps[0]) + EncodeAll(cps[1..])
  }

  // ----- Decoding inverts encoding -----

  lemma Accumulate0(cp: nat)
    ensures Accumulate(cp, []) == cp
  {
  }

  lemma Accumulate1(cp: nat, a: byte)
    ensures Accumulate(cp, [a]) == cp * 64 + a as int % 64
  {
    assert [a][..0] == [];
  }

  lemma Accumulate2(cp: nat, a: byte, b: byte)
    ensures Accumulate(cp, [a, b]) == (cp * 64 + a as int % 64) * 64 + b as int % 64
  {
    Accumulate1(cp, a);
    assert [a, b][..1] == [a];
  }

  lemma Accumulate3(cp: nat, a: byte, b: byte, c: byte)
    ensures Accumulate(cp, [a, b, c]) == ((cp * 64 + a as int % 64) * 64 + b as int % 64) * 64 + c as int % 64
  {
    Accumulate2(cp, a, b);
    assert [a, b, c][..2] == [a, b];
  }

  lemma {:induction false} Decode1(a: byte, rest: bytes)
    requires a < 0x80
    ensures Decode([a] + rest) == Unit(a, 1)
  {
    var s := [a] + rest;
    assert s[1..1] == [];
    Accumulate0(a);
  }

  lemma {:induction false} Decode2(x: nat, a: nat, rest: bytes)
    requires x < 32 && a < 64
    ensures Decode([0xC0 + x, 0x80 + a] + rest) == Unit(x * 64 + a, 2)
  {
    hide Accumulate;
    var s: bytes := [0xC0 + x, 0x80 + a] + rest;
    assert s[1..2] == [0x80 + a];
    Accumulate1(x, 0x80 + a);
  }

  lemma {:induction false} Decode3(x: nat, a: nat, b: nat, rest: bytes)
    requires x < 16 && a < 64 && b < 64
    ensures Decode([0xE0 + x, 0x80 + a, 0x80 + b] + rest) == Unit(x * 4096 + a * 64 + b, 3)
  {
    hide Accumulate;
    var s: bytes := [0xE0 + x, 0x80 + a, 0x80 + b] + rest;
    assert s[1..3] == [0x80 + a, 0x80 + b];
    Accumulate2(x, 0x80 + a, 0x80 + b);
  }

  lemma Lead4(x: nat)
    requires x < 8
    ensures Expected(0xF0 + x) == 4 && LeadBits(0xF0 + x) == x
  {
  }

  lemma Continues(a: nat)
    requires a < 64
    ensures Continuation(0x80 + a) && (0x80 + a) % 64 == a
  {
  }

  lemma {:induction false} Decode4(x: nat, a: nat, b: nat, c: nat, rest: bytes)
    requires x < 8 && a < 64 && b < 64 && c < 64
    ensures Decode([0xF0 + x, 0x80 + a, 0x80 + b, 0x80 + c] + rest) == Unit(x * 262144 + a * 4096 + b * 64 + c, 4)
  {
    hide Accumulate, Expected, LeadBits, Continuation;
    Lead4(x);
    Continues(a);
    Continues(b);
    Continues(c);
    var s: bytes := [0xF0 + x, 0x80 + a, 0x80 + b, 0x80 + c] + rest;
    assert s[1..4] == [0x80 + a, 0x80 + b, 0x80 + c];
    Accumulate3(x, 0x80 + a, 0x80 + b, 0x80 + c);
  }

  /** The four base-64 digits of a value. */
  lemma FourDigits(x: nat, a: nat, b: nat, c: nat, cp: nat)
    requires a < 64 && b < 64 && c < 64 && cp == x * 262144 + a * 4096 + b * 64 + c
    ensures cp / 262144 == x && cp / 4096 % 64 == a && cp / 64 % 64 == b && cp % 64 == c
  {
    assert cp / 64 == x * 4096 + a * 64 + b;
    assert cp / 4096 == x * 64 + a;
  }

  lemma ThreeDigits(x: nat, a: nat, b: nat, cp: nat)
    requires a < 64 && b < 64 && cp == x * 4096 + a * 64 + b
    ensures cp / 4096 == x && cp / 64 % 64 == a && cp % 64 == b
  {
    assert cp / 64 == x * 64 + a;
  }

  lemma DigitsOf(cp: nat)
    ensures cp == cp / 262144 * 262144 + cp / 4096 % 64 * 4096 + cp / 64 % 64 * 64 + cp % 64
  {
    var q := cp / 64;
    var r := q / 64;
    assert cp == q * 64 + cp % 64 && q == r * 64 + q % 64 && r == r / 64 * 64 + r % 64;
    NestedDivision(cp);
  }

  lemma NestedDivision(cp: nat)
    ensures cp / 64 / 64 == cp / 4096 && cp / 64 / 64 / 64 == cp / 262144
  {
  }

  lemma {:induction false} DecodeEncode4(cp: nat, rest: bytes)
    requires 0x10000 <= cp < 0x200000
    ensures Decode(Encode(cp) + rest) == Unit(cp, 4)
  {
    hide Decode;
    DigitsOf(cp);
    Decode4(cp / 262144, cp / 4096 % 64, cp / 64 % 64, cp % 64, rest);
  }

  lemma {:induction false} DecodeEncode3(cp: nat, rest: bytes)
    requires 0x800 <= cp < 0x10000
    ensures Decode(Encode(cp) + rest) == Unit(cp, 3)
  {
    hide Decode;
    DigitsOf(cp);
    Decode3(cp / 4096, cp / 64 % 64, cp % 64, rest);
  }

  lemma {:induction false} DecodeEncode(cp: nat, rest: bytes)
    requires cp < 0x200000
    ensures Decode(Encode(cp) + rest) == Unit(cp, |Encode(cp)|) && !Overlong(cp, |Encode(cp)|)
  {
    hide Decode;
    if cp < 0x80 {
      Decode1(cp, rest);
    } else if cp < 0x800 {
      Decode2(cp / 64, cp % 64, rest);
    } else if cp < 0x10000 {
      DecodeEncode3(cp, rest);
    } else {
      DecodeEncode4(cp, rest);
    }
  }

  lemma {:induction false} EncodeDecode2(x: nat, a: nat)
    requires x < 32 && a < 64 && !Overlong(x * 64 + a, 2)
    ensures Encode(x * 64 + a) == [0xC0 + x, 0x80 + a]
  {
  }

  lemma {:induction false} EncodeDecode3(x: nat, a: nat, b: nat)
    requires x < 16 && a < 64 && b < 64 && !Overlong(x * 4096 + a * 64 + b, 3)
    ensures Encode(x * 4096 + a * 64 + b) == [0xE0 + x, 0x80 + a, 0x80 + b]
  {
    ThreeDigits(x, a, b, x * 4096 + a * 64 + b);
  }

  lemma {:induction false} EncodeDecode4(x: nat, a: nat, b: nat, c: nat)
    requires x < 8 && a < 64 && b < 64 && c < 64 && !Overlong(x * 262144 + a * 4096 + b * 64 + c, 4)
    ensures Encode(x * 262144 + a * 4096 + b * 64 + c) == [0xF0 + x, 0x80 + a, 0x80 + b, 0x80 + c]
  {
    FourDigits(x, a, b, c, x * 262144 + a * 4096 + b * 64 + c);
  }

  lemma Lead(b: byte)
    ensures Expected(b) == 2 ==> b == 0xC0 + LeadBits(b) && LeadBits(b) < 32
    ensures Expected(b) == 3 ==> b == 0xE0 + LeadBits(b) && LeadBits(b) < 16
    ensures Expected(b) == 4 ==> b == 0xF0 + LeadBits(b) && LeadBits(b) < 8
    ensures Expected(b) == 1 ==> b == LeadBits(b) < 0x80
  {
  }

  lemma Low(b: byte)
    requires Continuation(b)
    ensures b == 0x80 + b as int % 64
  {
  }

  /** A unit that is not overlong is the encoding of its code point. */
  lemma {:induction false} EncodeDecode(s: bytes)
    requires Decode(s).Unit? && !Overlong(Decode(s).cp, Decode(s).size)
    ensures Decode(s).cp < 0x200000 && Encode(Decode(s).cp) == s[..Decode(s).size]
  {
    hide Encode, Accumulate, Expected, LeadBits, Continuation;
    var x, n := LeadBits(s[0]), Expected(s[0]);
    Lead(s[0]);
    assert forall i | 1 <= i < n :: s[i] == s[1..n][i - 1];
    if n == 1 {
      assert s[1..1] == [];
      Accumulate0(x);
      Ascii(x);
      assert s[..1] == [s[0]];
    } else if n == 2 {
      Low(s[1]);
      assert s[1..2] == [s[1]] && s[..2] == [s[0], s[1]];
      Accumulate1(x, s[1]);
      EncodeDecode2(x, s[1] as int % 64);
    } else if n == 3 {
      Low(s[1]);
      Low(s[2]);
      assert s[1..3] == [s[1], s[2]] && s[..3] == [s[0], s[1], s[2]];
      Accumulate2(x, s[1], s[2]);
      EncodeDecode3(x, s[1] as int % 64, s[2] as int % 64);
    } else {
      Low(s[1]);
      Low(s[2]);
      Low(s[3]);
      assert s[1..4] == [s[1], s[2], s[3]] && s[..4] == [s[0], s[1], s[2], s[3]];
      Accumulate3(x, s[1], s[2], s[3]);
      EncodeDecode4(x, s[1] as int % 64, s[2] as int % 64, s[3] as int % 64);
    }
  }

  lemma Ascii(x: nat)
    requires x < 0x80
    ensures Encode(x) == [x]
  {
  }

  // ----- Validation -----

  ghost predicate Scalars(cps: seq<nat>) {
    forall cp | cp in cps :: Scalar(cp)
  }

  lemma {:induction false} ValidOfScalars(cps: seq<nat>)
    requires Scalars(cps)
    ensures IsValid(EncodeAll(cps))
  {
    hide Decode, Encode, Overlong;
    if cps != [] {
      var rest := EncodeAll(cps[1..]);
      assert cps[0] in cps && forall cp | cp in cps[1..] :: cp in cps;
      ValidOfScalars(cps[1..]);
      DecodeEncode(cps[0], rest);
      var s := EncodeAll(cps);
      assert s[|Encode(cps[0])|..] == rest;
    }
  }

  lemma {:induction false} ScalarsOfValid(s: bytes) returns (cps: seq<nat>)
    requires IsValid(s)
    ensures Scalars(cps) && EncodeAll(cps) == s
    decreases |s|
  {
    hide Decode, Encode, Overlong;
    if s == [] {
      cps := [];
    } else {
      var d := Decode(s);
      EncodeDecode(s);
      var rest := ScalarsOfValid(s[d.size..]);
      cps := [d.cp] + rest;
      assert cps[1..] == rest && s == s[..d.size] + s[d.size..];
    }
  }

  /** Validation accepts exactly the concatenations of encodings of Unicode scalar values. */
  lemma {:induction false} ValidIff(s: bytes)
    ensures IsValid(s) <==> exists cps :: Scalars(cps) && EncodeAll(cps) == s
  {
    if IsValid(s) {
      var cps := ScalarsOfValid(s);
    }
    if cps :| Scalars(cps) && EncodeAll(cps) == s {
      ValidOfScalars(cps);
    }
  }

  // ----- Normalisation -----

  /** Every unit decodes, in shortest form, to a harmless code point. */
  predicate Clean(s: bytes)
    decreases |s|
  {
    s == [] ||
    var d := Decode(s);
    d.Unit? && !Overlong(d.cp, d.size) && !Dangerous(d.cp) && Clean(s[d.size..])
  }

  /** The code points met by a scan that skips undecodable bytes. */
  function CodePoints(s: bytes): seq<nat>
    decreases |s|
  {
    if s == [] then []
    else
      var d := Decode(s);
      if d.Bad? then CodePoints(s[1..]) else [d.cp] + CodePoints(s[d.size..])
  }

  function Harmless(cps: seq<nat>): seq<nat> {
    if cps == [] then []
    else (if Dangerous(cps[0]) then [] else [cps[0]]) + Harmless(cps[1..])
  }

  lemma {:induction false} DecodedRange(s: bytes)
    requires Decode(s).Unit? && Overlong(Decode(s).cp, Decode(s).size)
    ensures Decode(s).cp < 0x10000
  {
    hide Decode;
  }

  /** What normalisation puts in front of the rest is one clean unit for the same code point. */
  lemma {:induction false} CleanUnit(cp: nat, rest: bytes)
    requires cp < 0x200000 && !Dangerous(cp)
    ensures Clean(Encode(cp) + rest) == Clean(rest)
    ensures CodePoints(Encode(cp) + rest) == [cp] + CodePoints(rest)
    ensures Normalize(Encode(cp) + rest) == Encode(cp) + Normalize(rest)
  {
    hide Decode, Encode, Overlong, Dangerous;
    var s := Encode(cp) + rest;
    DecodeEncode(cp, rest);
    assert s[|Encode(cp)|..] == rest && s[..|Encode(cp)|] == Encode(cp);
  }

  /** One step of normalisation: skip, or emit the encoding of the unit's code point. */
  lemma {:induction false} NormalizeStep(s: bytes)
    requires s != []
    ensures var d := Decode(s);
            && (d.Unit? && !Dangerous(d.cp) ==> d.cp < 0x200000 && Normalize(s) == Encode(d.cp) + Normalize(s[d.size..]))
            && (d.Bad? ==> Normalize(s) == Normalize(s[1..]))
            && (d.Unit? && Dangerous(d.cp) ==> Normalize(s) == Normalize(s[d.size..]))
  {
    hide Decode, Encode, Dangerous, Overlong;
    var d := Decode(s);
    if d.Unit? {
      if Overlong(d.cp, d.size) {
        DecodedRange(s);
      } else {
        EncodeDecode(s);
      }
    }
  }

  /** The output spells exactly the harmless code points of the input, each in shortest form. */
  lemma {:induction false} NormalizeMeaning(s: bytes)
    ensures Clean(Normalize(s))
    ensures CodePoints(Normalize(s)) == Harmless(CodePoints(s))
    decreases |s|
  {
    hide Decode, Encode, Dangerous, Overlong, Clean, Normalize;
    if s == [] {
      Nothing();
    } else {
      var d := Decode(s);
      NormalizeStep(s);
      NormalizeMeaning(if d.Bad? then s[1..] else s[d.size..]);
      if d.Unit? {
        HarmlessHead(d.cp, CodePoints(s[d.size..]));
        if !Dangerous(d.cp) {
          CleanUnit(d.cp, Normalize(s[d.size..]));
        }
      }
    }
  }

  lemma Nothing()
    ensures Normalize([]) == [] && Clean([])
  {
  }

  lemma HarmlessHead(cp: nat, rest: seq<nat>)
    ensures Harmless([cp] + rest) == (if Dangerous(cp) then [] else [cp]) + Harmless(rest)
  {
    assert ([cp] + rest)[1..] == rest;
  }

  lemma {:induction false} CleanIsFixed(s: bytes)
    requires Clean(s)
    ensures Normalize(s) == s
    decreases |s|
  {
    hide Decode, Encode, Dangerous, Overlong;
    if s != [] {
      var d := Decode(s);
      CleanIsFixed(s[d.size..]);
      assert s == s[..d.size] + s[d.size..];
    }
  }

  /** Normalisation changes nothing exactly on clean input. */
  lemma {:induction false} IdentityIff(s: bytes)
    ensures Normalize(s) == s <==> Clean(s)
  {
    NormalizeMeaning(s);
    if Clean(s) {
      CleanIsFixed(s);
    }
  }

  lemma {:induction false} NormalizeIdempotent(s: bytes)
    ensures Normalize(Normalize(s)) == Normalize(s)
  {
    NormalizeMeaning(s);
    IdentityIff(Normalize(s));
  }

  lemma {:induction false} CleanNoOverlong(s: bytes)
    requires Clean(s)
    ensures !HasOverlong(s)
    decreases |s|
  {
    hide Decode, Overlong, Dangerous;
    if s != [] {
      CleanNoOverlong(s[Decode(s).size..]);
    }
  }

  /** The bypass detector fires exactly on input that is not clean or spells a fullwidth special character. */
  lemma {:induction false} SuspiciousIff(s: bytes)
    ensures Suspicious(s) <==> !Clean(s) || exists cp :: cp in CodePoints(s) && FullwidthOfSpecial(cp)
    decreases |s|
  {
    hide Decode, Overlong, Dangerous, FullwidthOfSpecial;
    if s != [] && Decode(s).Unit? {
      var d := Decode(s);
      SuspiciousIff(s[d.size..]);
      assert d.cp in CodePoints(s);
    }
  }

  /** Normalisation leaves alone whatever the detector accepts; its output has no overlong form. */
  lemma {:induction false} AcceptedUnchanged(s: bytes)
    ensures !Suspicious(s) ==> Normalize(s) == s
    ensures !HasOverlong(Normalize(s))
  {
    hide Normalize, Suspicious, Clean, HasOverlong;
    SuspiciousIff(s);
    IdentityIff(s);
    NormalizeMeaning(s);
    CleanNoOverlong(Normalize(s));
  }

  // ----- Validity of what is accepted -----

  predicate InRange(cps: seq<nat>) {
    forall cp | cp in cps :: cp <= 0x10FFFF
  }

  lemma {:induction false} CleanValidIff(s: bytes)
    requires Clean(s)
    ensures IsValid(s) <==> InRange(CodePoints(s))
    decreases |s|
  {
    hide Decode, Overlong, InRange;
    if s == [] {
      NoneOutOfRange();
    } else {
      var d := Decode(s);
      CleanValidIff(s[d.size..]);
      RangeHead(d.cp, CodePoints(s[d.size..]));
    }
  }

  lemma NoneOutOfRange()
    ensures InRange([])
  {
  }

  lemma RangeHead(cp: nat, rest: seq<nat>)
    ensures InRange([cp] + rest) <==> cp <= 0x10FFFF && InRange(rest)
  {
    assert forall x | x in rest :: x in [cp] + rest;
    assert cp in [cp] + rest;
  }

  /** Normalised text is valid exactly when no harmless code point of the input is beyond Unicode. */
  lemma {:induction false} NormalizedValidIff(s: bytes)
    ensures IsValid(Normalize(s)) <==> InRange(Harmless(CodePoints(s)))
    ensures !Suspicious(s) ==> (IsValid(s) <==> InRange(CodePoints(s)))
  {
    hide IsValid, Normalize, InRange, Harmless, CodePoints, Clean, Suspicious;
    NormalizeMeaning(s);
    CleanValidIff(Normalize(s));
    SuspiciousIff(s);
    if Clean(s) {
      CleanValidIff(s);
    }
  }

  /** Four bytes for the value 0x110000: accepted and unchanged, but not valid. */
  lemma {:induction false} BeyondUnicode()
    ensures var s := [0xF4, 0x90, 0x80, 0x80];
            !Suspicious(s) && Normalize(s) == s && !IsValid(s)
  {
    hide Decode, Dangerous, FullwidthOfSpecial;
    var s: bytes := [0xF4, 0x90, 0x80, 0x80];
    Decode4(4, 16, 0, 0, []);
    assert [0xF0 + 4, 0x80 + 16, 0x80 + 0, 0x80 + 0] + [] == s;
    assert !Dangerous(0x110000) && !FullwidthOfSpecial(0x110000) by { Harmless110000(); }
    assert s[4..] == [] && s[..4] == s && s + [] == s;
  }

  lemma Harmless110000()
    ensures !Dangerous(0x110000) && !FullwidthOfSpecial(0x110000)
  {
  }

  // ----- Overlong forms, by their bytes -----

  predicate Follows(s: bytes, i: nat, from: byte, to: byte) {
    i < |s| && from <= s[i] <= to
  }

  /** C0 or C1; E0 followed by less than A0; F0 followed by less than 90. */
  predicate OverlongAt(s: bytes, i: nat) {
    i < |s| &&
    (|| ((s[i] == 0xC0 || s[i] == 0xC1) && Follows(s, i + 1, 0x80, 0xBF))
     || (s[i] == 0xE0 && Follows(s, i + 1, 0x80, 0x9F) && Follows(s, i + 2, 0x80, 0xBF))
     || (s[i] == 0xF0 && Follows(s, i + 1, 0x80, 0x8F) && Follows(s, i + 2, 0x80, 0xBF) && Follows(s, i + 3, 0x80, 0xBF)))
  }

  lemma {:induction false} OverlongHead(s: bytes)
    requires s != []
    ensures Decode(s).Unit? && Overlong(Decode(s).cp, Decode(s).size) <==> OverlongAt(s, 0)
  {
    hide Accumulate, AllContinue;
    var n := Expected(s[0]);
    if n > 1 && n <= |s| {
      var tail := s[1..n];
      TailContinues(s, n);
      if n == 2 {
        assert tail == [s[1]];
        Accumulate1(LeadBits(s[0]), s[1]);
        Small2(s[0], s[1]);
      } else if n == 3 {
        assert tail == [s[1], s[2]];
        Accumulate2(LeadBits(s[0]), s[1], s[2]);
        if 0x80 <= s[1] <= 0xBF { Small3(s[0], s[1], s[2]); }
      } else {
        assert tail == [s[1], s[2], s[3]];
        Accumulate3(LeadBits(s[0]), s[1], s[2], s[3]);
        if 0x80 <= s[1] <= 0xBF { Small4(s[0], s[1], s[2], s[3]); }
      }
    }
  }

  lemma TailContinues(s: bytes, n: nat)
    requires 2 <= n <= 4 && n <= |s|
    ensures AllContinue(s[1..n])
       <==> 0x80 <= s[1] <= 0xBF && (n >= 3 ==> 0x80 <= s[2] <= 0xBF) && (n >= 4 ==> 0x80 <= s[3] <= 0xBF)
  {
    var t := s[1..n];
    assert t[0] == s[1] && (n >= 3 ==> t[1] == s[2]) && (n >= 4 ==> t[2] == s[3]);
  }

  lemma Small2(lead: byte, a: byte)
    requires Expected(lead) == 2
    ensures LeadBits(lead) * 64 + a as int % 64 < 0x80 <==> lead == 0xC0 || lead == 0xC1
  {
    Lead(lead);
  }

  lemma Small3(lead: byte, a: byte, b: byte)
    requires Expected(lead) == 3 && 0x80 <= a <= 0xBF
    ensures (LeadBits(lead) * 64 + a as int % 64) * 64 + b as int % 64 < 0x800 <==> lead == 0xE0 && a <= 0x9F
  {
    Lead(lead);
    Low(a);
  }

  lemma Small4(lead: byte, a: byte, b: byte, c: byte)
    requires Expected(lead) == 4 && 0x80 <= a <= 0xBF
    ensures ((LeadBits(lead) * 64 + a as int % 64) * 64 + b as int % 64) * 64 + c as int % 64 < 0x10000 <==> lead == 0xF0 && a <= 0x8F
  {
    Lead(lead);
    Low(a);
  }

  lemma OverlongShift(s: bytes, k: nat, i: nat)
    requires k <= i && k <= |s|
    ensures OverlongAt(s[k..], i - k) <==> OverlongAt(s, i)
  {
    assert forall j | k <= j < |s| :: s[k..][j - k] == s[j];
  }

  /** Inside a decoded unit no form starts. */
  lemma NotInside(s: bytes, i: nat)
    requires s != [] && Decode(s).Unit? && 0 < i < Decode(s).size
    ensures !OverlongAt(s, i)
  {
    var t := s[1..Decode(s).size];
    assert t[i - 1] == s[i] && Continuation(t[i - 1]);
  }

  /** The scan for overlong forms finds one exactly when one stands anywhere in the bytes. */
  lemma {:induction false} OverlongIff(s: bytes)
    ensures HasOverlong(s) <==> exists i: nat :: OverlongAt(s, i)
    decreases |s|
  {
    hide Decode, Overlong, OverlongAt;
    if s == [] {
      NoneInNothing();
    } else {
      var d := Decode(s);
      var k := if d.Bad? then 1 else d.size;
      OverlongHead(s);
      OverlongIff(s[k..]);
      forall i: nat | k <= i
        ensures OverlongAt(s[k..], i - k) <==> OverlongAt(s, i)
      {
        OverlongShift(s, k, i);
      }
      forall i: nat | 0 < i < k
        ensures !OverlongAt(s, i)
      {
        NotInside(s, i);
      }
      if exists i: nat :: OverlongAt(s[k..], i) {
        var i: nat :| OverlongAt(s[k..], i);
        assert OverlongAt(s[k..], (i + k) - k) <==> OverlongAt(s, i + k);
      }
    }
  }

  lemma NoneInNothing()
    ensures forall i: nat :: !OverlongAt([], i)
  {
  }
}
