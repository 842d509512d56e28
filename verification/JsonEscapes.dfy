/**
 * What string texts denote by section 7 of RFC 8259, where two escapes that form a surrogate pair stand for one
 * character, and where the claim reader of src/jwt_validator.cpp, which takes every escape by itself, agrees.
 */
module JsonEscapes {
  import opened Common
  import opened Json
  import opened JsonGrammar
  import Utf8

  /** An escape is written out as valid UTF-8 exactly when it is not half of a surrogate pair. */
  lemma {:induction false} EscapeValidIff(cp: nat)
    requires cp < 0x10000
    ensures Utf8Unit(cp) == Utf8.Encode(cp)
    ensures Utf8.IsValid(Utf8Unit(cp)) <==> !Utf8.Surrogate(cp)
  {
    hide Utf8.Decode;
    Utf8.DecodeEncode(cp, []);
    assert Utf8.Encode(cp) + [] == Utf8.Encode(cp) && Utf8.Encode(cp)[|Utf8.Encode(cp)|..] == [];
  }

  // ----- The denotation -----

  /** The code unit of an escape; anything else is no code unit of interest. */
  function CodeUnit(p: Piece): (u: nat)
    requires p.Valid()
    ensures u < 0x10000
  {
    if p.Unit? then p.Code() else 0
  }

  predicate High(p: Piece)
    requires p.Valid()
  {
    0xD800 <= CodeUnit(p) <= 0xDBFF
  }

  predicate Low(p: Piece)
    requires p.Valid()
  {
    0xDC00 <= CodeUnit(p) <= 0xDFFF
  }

  predicate PairAt(t: Chars, i: nat)
    requires ValidChars(t)
  {
    i + 1 < |t| && High(t[i]) && Low(t[i + 1])
  }

  predicate NoPair(t: Chars)
    requires ValidChars(t)
  {
    forall i: nat | i < |t| :: !PairAt(t, i)
  }

  /** The character outside the basic plane that a surrogate pair stands for. */
  function Combined(high: nat, low: nat): nat
    requires 0xD800 <= high <= 0xDBFF && 0xDC00 <= low <= 0xDFFF
  {
    0x10000 + (high - 0xD800) * 0x400 + (low - 0xDC00)
  }

  /** The text's characters in UTF-8, pairs combined. A lone surrogate, of which the RFC says nothing, is left as it is. */
  function Denotes(t: Chars): bytes
    requires ValidChars(t)
    decreases |t|
  {
    if t == [] then []
    else if PairAt(t, 0) then Utf8.Encode(Combined(CodeUnit(t[0]), CodeUnit(t[1]))) + Denotes(t[2..])
    else t[0].Reading() + Denotes(t[1..])
  }

  /** Every character outside the basic plane is denoted by the pair of escapes that section 7 gives for it. */
  lemma {:induction false} PairDenotes(cp: nat, high: Piece, low: Piece)
    requires 0x10000 <= cp <= 0x10FFFF && high.Valid() && low.Valid()
    requires CodeUnit(high) == 0xD800 + (cp - 0x10000) / 0x400 && CodeUnit(low) == 0xDC00 + (cp - 0x10000) % 0x400
    ensures Denotes([high, low]) == Utf8.Encode(cp) && Utf8.IsValid(Denotes([high, low]))
  {
    hide Utf8.Decode, Utf8.Encode, CodeUnit;
    var t := [high, low];
    assert PairAt(t, 0) && t[2..] == [] && Denotes([]) == [];
    assert Combined(CodeUnit(high), CodeUnit(low)) == cp;
    Utf8.DecodeEncode(cp, []);
    assert Utf8.Encode(cp) + [] == Utf8.Encode(cp) && Utf8.Encode(cp)[|Utf8.Encode(cp)|..] == [];
  }

  // ----- Where the reader agrees -----

  lemma {:induction false} SurrogateReading(p: Piece)
    requires p.Valid() && (High(p) || Low(p))
    ensures |p.Reading()| == 3 && p.Reading()[0] == 0xED && 0xA0 <= p.Reading()[1]
  {
    hide Piece.Code, Utf8.Encode;
    EncodedSurrogate(p.Code());
  }

  lemma EncodedSurrogate(cp: nat)
    requires 0xD800 <= cp <= 0xDFFF
    ensures var s := Utf8.Encode(cp); |s| == 3 && s[0] == 0xED && 0xA0 <= s[1]
  {
  }

  lemma {:induction false} TwoReadings(t: Chars)
    requires ValidChars(t) && |t| >= 2
    ensures ValidChars(t[2..]) && Reading(t) == t[0].Reading() + (t[1].Reading() + Reading(t[2..]))
  {
    hide Piece.Reading;
    assert t[1..][0] == t[1] && t[1..][1..] == t[2..];
  }

  lemma {:induction false} NoPairTail(t: Chars)
    requires ValidChars(t) && t != [] && !PairAt(t, 0)
    ensures NoPair(t) <==> NoPair(t[1..])
  {
    hide High, Low;
    var s := t[1..];
    forall i: nat | i < |s|
      ensures PairAt(s, i) <==> PairAt(t, i + 1)
    {
      assert s[i] == t[i + 1];
    }
    if NoPair(s) {
      forall i: nat | i < |t|
        ensures !PairAt(t, i)
      {
        assert i > 0 ==> !PairAt(s, i - 1);
      }
    }
  }

  /** Taking escapes one by one gives the denotation when there is no pair, and something longer otherwise. */
  lemma {:induction false} ReadingDenotes(t: Chars)
    requires ValidChars(t)
    ensures NoPair(t) ==> Reading(t) == Denotes(t)
    ensures !NoPair(t) ==> |Denotes(t)| < |Reading(t)|
    decreases |t|
  {
    hide Piece.Reading, High, Low, Utf8.Encode, NoPair;
    if t == [] {
      Empty();
    } else if PairAt(t, 0) {
      SurrogateReading(t[0]);
      SurrogateReading(t[1]);
      TwoReadings(t);
      ReadingDenotes(t[2..]);
      HasPair(t);
    } else {
      NoPairTail(t);
      ReadingDenotes(t[1..]);
    }
  }

  lemma Empty()
    ensures NoPair([])
  {
  }

  lemma HasPair(t: Chars)
    requires ValidChars(t) && PairAt(t, 0)
    ensures !NoPair(t)
  {
  }

  /** A quoted string is read as what it denotes exactly when no two of its escapes form a surrogate pair. */
  lemma {:induction false} StringDenotedIff(t: Chars, rest: bytes)
    requires ValidChars(t)
    ensures ParseString(Quoted(t) + rest) == Read(Denotes(t), rest) <==> NoPair(t)
  {
    hide ParseString, Quoted, NoPair, Denotes, JsonGrammar.Reading;
    StringParsed(t, rest);
    ReadingDenotes(t);
  }

  /** The escapes d83d and de00, written with hexadecimal digits. */
  function FaceEscapes(): (t: Chars)
    ensures |t| == 2
  {
    [Unit(Hex(13, false), Hex(8, false), Hex(3, false), Hex(13, false)),
     Unit(Hex(13, false), Hex(14, false), Hex(0, false), Hex(0, false))]
  }

  lemma FaceUnits()
    ensures ValidChars(FaceEscapes())
    ensures CodeUnit(FaceEscapes()[0]) == 0xD83D && CodeUnit(FaceEscapes()[1]) == 0xDE00
    ensures FaceEscapes()[0].Reading() == [0xED, 0xA0, 0xBD] && FaceEscapes()[1].Reading() == [0xED, 0xB8, 0x80]
  {
  }

  /** The escapes of U+1F600 are read as two surrogates, six bytes that are not UTF-8. */
  lemma {:induction false} PairMisread()
    ensures ValidChars(FaceEscapes()) && !NoPair(FaceEscapes())
    ensures Denotes(FaceEscapes()) == [0xF0, 0x9F, 0x98, 0x80]
    ensures ParseString(Quoted(FaceEscapes())) == Read([0xED, 0xA0, 0xBD, 0xED, 0xB8, 0x80], [])
  {
    hide ParseString, Quoted, Denotes, JsonGrammar.Reading, Piece.Reading, FaceEscapes, CodeUnit, NoPair;
    var t := FaceEscapes();
    FaceUnits();
    HasPair(t);
    PairDenotes(0x1F600, t[0], t[1]);
    assert t == [t[0], t[1]] && t[2..] == [];
    EncodedFace();
    TwoReadings(t);
    NothingRead();
    assert Reading(t) == [0xED, 0xA0, 0xBD] + ([0xED, 0xB8, 0x80] + []);
    assert [0xED, 0xA0, 0xBD] + ([0xED, 0xB8, 0x80] + []) == [0xED, 0xA0, 0xBD, 0xED, 0xB8, 0x80];
    StringParsed(t, []);
    assert Quoted(t) + [] == Quoted(t);
  }

  lemma EncodedFace()
    ensures Utf8.Encode(0x1F600) == [0xF0, 0x9F, 0x98, 0x80]
  {
  }

  lemma NothingRead()
    ensures Reading([]) == []
  {
  }

  // ----- Looking up a name -----

  /** A surrogate written out by itself occurs in no valid UTF-8. */
  lemma {:induction false} NoSurrogateBytes(s: bytes, i: nat)
    requires Utf8.IsValid(s) && i + 1 < |s| && s[i] == 0xED
    ensures s[i + 1] < 0xA0
    decreases |s|
  {
    hide Utf8.Accumulate;
    var d := Utf8.Decode(s);
    NoLeadInside(s);
    if i >= d.size {
      NoSurrogateBytes(s[d.size..], i - d.size);
    } else if i == 0 {
      assert d.size == 3;
      NotSurrogate(s);
    }
  }

  lemma {:induction false} NoLeadInside(s: bytes)
    requires Utf8.Decode(s).Unit?
    ensures forall k | 0 < k < Utf8.Decode(s).size :: s[k] < 0xC0
  {
    hide Utf8.Accumulate, Utf8.LeadBits;
    var n := Utf8.Expected(s[0]);
    forall k | 0 < k < n
      ensures s[k] < 0xC0
    {
      assert s[1..n][k - 1] == s[k];
    }
  }

  lemma {:induction false} NotSurrogate(s: bytes)
    requires |s| >= 3 && s[0] == 0xED && Utf8.Decode(s).Unit? && !Utf8.Surrogate(Utf8.Decode(s).cp)
    ensures s[1] < 0xA0
  {
    hide Utf8.Accumulate;
    assert Utf8.LeadBits(0xED) == 13 && Utf8.Expected(0xED) == 3;
    assert s[1..3] == [s[1], s[2]];
    assert s[1..3][0] == s[1];
    Utf8.Accumulate2(13, s[1], s[2]);
  }

  lemma {:induction false} PairShows(t: Chars)
    requires ValidChars(t) && !NoPair(t)
    ensures exists i: nat :: i + 1 < |Reading(t)| && Reading(t)[i] == 0xED && Reading(t)[i + 1] >= 0xA0
    decreases |t|
  {
    hide Piece.Reading, High, Low, NoPair;
    if t == [] {
      Empty();
    } else if PairAt(t, 0) {
      SurrogateReading(t[0]);
      var r := Reading(t);
      assert r[0] == t[0].Reading()[0] && r[1] == t[0].Reading()[1];
    } else {
      NoPairTail(t);
      PairShows(t[1..]);
      var r, k := Reading(t[1..]), |t[0].Reading()|;
      var i: nat :| i + 1 < |r| && r[i] == 0xED && r[i + 1] >= 0xA0;
      assert Reading(t)[k + i] == r[i] && Reading(t)[k + i + 1] == r[i + 1];
    }
  }

  /** A text is read as a given name in valid UTF-8 exactly when it denotes that name and has no pair. */
  lemma {:induction false} NameReadIff(t: Chars, name: bytes)
    requires ValidChars(t) && Utf8.IsValid(name)
    ensures Reading(t) == name <==> NoPair(t) && Denotes(t) == name
  {
    hide NoPair, Denotes, JsonGrammar.Reading, Utf8.IsValid;
    ReadingDenotes(t);
    if !NoPair(t) && Reading(t) == name {
      PairShows(t);
      var i: nat :| i + 1 < |name| && name[i] == 0xED && name[i + 1] >= 0xA0;
      NoSurrogateBytes(name, i);
    }
  }

  /** What a value is worth by the RFC. */
  function DenotedClaim(v: Value): bytes
    requires Valid(v)
  {
    if v.Str? then Denotes(v.chars) else Text(v)
  }

  /** The first top-level member with that name, by the RFC. */
  function NamedMember(ms: seq<Member>, name: bytes): Option<bytes>
    requires ValidMembers(ms)
  {
    if ms == [] then None
    else if Denotes(ms[0].key) == name then Some(DenotedClaim(ms[0].value))
    else NamedMember(ms[1..], name)
  }

  /** The first member with that name among those whose key is written without a pair, read as the reader reads it. */
  function PlainlyNamed(ms: seq<Member>, name: bytes): Option<bytes>
    requires ValidMembers(ms)
  {
    if ms == [] then None
    else if NoPair(ms[0].key) && Denotes(ms[0].key) == name then Some(Claim(ms[0].value))
    else PlainlyNamed(ms[1..], name)
  }

  lemma {:induction false} FirstIsPlainlyNamed(ms: seq<Member>, name: bytes)
    requires ValidMembers(ms) && Utf8.IsValid(name)
    ensures FirstMember(ms, name) == PlainlyNamed(ms, name)
    decreases |ms|
  {
    hide NoPair, Denotes, JsonGrammar.Reading, Utf8.IsValid, Claim;
    if ms != [] {
      NameReadIff(ms[0].key, name);
      FirstIsPlainlyNamed(ms[1..], name);
    }
  }

  /** On every object text: the lookup passes over members whose key is written with a pair, and reads the rest rightly. */
  lemma {:induction false} LookupPassesPairs(before: bytes, v: Value, rest: bytes, name: bytes)
    requires AllSpace(before) && Valid(v) && v.Obj? && Utf8.IsValid(name)
    ensures GetString(before + Text(v) + rest, name) == PlainlyNamed(v.members, name)
  {
    hide GetString, Text, PlainlyNamed, FirstMember, Utf8.IsValid;
    GetStringCorrect(before, v, rest, name);
    FirstIsPlainlyNamed(v.members, name);
  }

  /** Neither the key nor a string value of this member is written with a pair. */
  predicate Plain(m: Member)
    requires ValidMember(m) && Valid(m.value)
  {
    NoPair(m.key) && (m.value.Str? ==> NoPair(m.value.chars))
  }

  /** Names occur once, as section 4 recommends. */
  predicate AtMostOne(ms: seq<Member>, name: bytes)
    requires ValidMembers(ms)
    decreases |ms|
  {
    ms == [] || (AtMostOne(ms[1..], name) && (Denotes(ms[0].key) == name ==> NamedMember(ms[1..], name).None?))
  }

  predicate PlainWhereNamed(ms: seq<Member>, name: bytes)
    requires ValidMembers(ms)
  {
    ms == [] || ((Denotes(ms[0].key) == name ==> Plain(ms[0])) && PlainWhereNamed(ms[1..], name))
  }

  lemma {:induction false} ClaimDenotedIff(v: Value)
    requires Valid(v)
    ensures Claim(v) == DenotedClaim(v) <==> (v.Str? ==> NoPair(v.chars))
  {
    hide Text, NoPair, Denotes, JsonGrammar.Reading;
    if v.Str? {
      ReadingDenotes(v.chars);
    }
  }

  lemma {:induction false} Unnamed(ms: seq<Member>, name: bytes)
    requires ValidMembers(ms) && NamedMember(ms, name).None?
    ensures PlainlyNamed(ms, name).None? && PlainWhereNamed(ms, name)
    decreases |ms|
  {
    hide Denotes, NoPair, Plain;
    if ms != [] {
      Unnamed(ms[1..], name);
    }
  }

  lemma {:induction false} PlainlyNamedIff(ms: seq<Member>, name: bytes)
    requires ValidMembers(ms) && AtMostOne(ms, name)
    ensures PlainlyNamed(ms, name) == NamedMember(ms, name) <==> PlainWhereNamed(ms, name)
    decreases |ms|
  {
    hide Denotes, NoPair, Claim, DenotedClaim;
    if ms != [] {
      if Denotes(ms[0].key) == name {
        ClaimDenotedIff(ms[0].value);
        Unnamed(ms[1..], name);
      } else {
        PlainlyNamedIff(ms[1..], name);
      }
    }
  }

  /** A name that occurs at most once is looked up as the RFC means it exactly when its key and value have no pair. */
  lemma {:induction false} LookupDenotedIff(before: bytes, v: Value, rest: bytes, name: bytes)
    requires AllSpace(before) && Valid(v) && v.Obj? && Utf8.IsValid(name) && AtMostOne(v.members, name)
    ensures GetString(before + Text(v) + rest, name) == NamedMember(v.members, name) <==> PlainWhereNamed(v.members, name)
  {
    hide GetString, Text, PlainlyNamed, NamedMember, PlainWhereNamed, AtMostOne, Utf8.IsValid;
    LookupPassesPairs(before, v, rest, name);
    PlainlyNamedIff(v.members, name);
  }
}
