/** The index loops of src/unicode.cpp, each proved to compute the corresponding function of module Utf8. */
module Utf8Scanner {
  import opened Common
  import opened Utf8

  method DecodeCodepoint(data: bytes) returns (size: nat, cp: nat)
    ensures match Decode(data)
            case Bad => size == 0
            case Unit(c, n) => size == n && cp == c
  {
    hide Accumulate, AllContinue;
    size, cp := 0, 0;
    if |data| == 0 {
      return;
    }
    var lead := data[0];
    if lead < 0x80 {
      NoneContinue(lead, data[1..1]);
      return 1, lead;
    }
    var expected;
    if lead / 32 == 6 {
      expected, cp := 2, lead % 32;
    } else if lead / 16 == 14 {
      expected, cp := 3, lead % 16;
    } else if lead / 8 == 30 {
      expected, cp := 4, lead % 8;
    } else {
      return;
    }
    if |data| < expected {
      return;
    }
    var ok;
    ok, cp := ContinuationBytes(data, expected, cp);
    if ok {
      size := expected;
    }
  }

  lemma NoneContinue(cp: nat, s: bytes)
    requires s == []
    ensures AllContinue(s) && Accumulate(cp, s) == cp
  {
  }

  /** The loop over the bytes behind the lead byte. */
  method ContinuationBytes(data: bytes, expected: nat, start: nat) returns (ok: bool, cp: nat)
    requires 1 <= expected <= |data|
    ensures ok <==> AllContinue(data[1..expected])
    ensures ok ==> cp == Accumulate(start, data[1..expected])
  {
    hide Accumulate;
    cp := start;
    NoneContinue(start, data[1..1]);
    for i := 1 to expected
      invariant cp == Accumulate(start, data[1..i]) && AllContinue(data[1..i])
    {
      if data[i] / 64 != 2 {
        assert data[1..expected][i - 1] == data[i];
        return false, cp;
      }
      assert data[1..i + 1] == data[1..i] + [data[i]];
      OneByteMore(start, data[1..i], data[i]);
      cp := cp * 64 + data[i] as int % 64;
    }
    ok := true;
  }

  lemma OneByteMore(cp: nat, s: bytes, b: byte)
    ensures Accumulate(cp, s + [b]) == Accumulate(cp, s) * 64 + b as int % 64
  {
    assert (s + [b])[..|s|] == s;
  }

  method IsValidUtf8(data: bytes) returns (ok: bool)
    ensures ok == IsValid(data)
  {
    hide Decode;
    var i := 0;
    assert data[0..] == data;
    while i < |data|
      invariant 0 <= i <= |data| && IsValid(data[i..]) == IsValid(data)
    {
      var size, cp := DecodeCodepoint(data[i..]);
      if size == 0 || Overlong(cp, size) || (0xD800 <= cp <= 0xDFFF) || cp > 0x10FFFF {
        return false;
      }
      assert data[i..][size..] == data[i + size..];
      i := i + size;
    }
    return true;
  }

  /** One unit moved from the input to the result. */
  lemma {:induction false} OneUnitMore(done: bytes, s: bytes)
    requires s != []
    ensures Decode(s).Bad? ==> Normalize(s) == Normalize(s[1..])
    ensures Decode(s).Unit? ==>
              var d := Decode(s);
              var piece := if Dangerous(d.cp) then [] else if Overlong(d.cp, d.size) then Encode(d.cp) else s[..d.size];
              done + Normalize(s) == done + piece + Normalize(s[d.size..])
  {
    hide Decode, Encode, Dangerous, Overlong;
    if Decode(s).Unit? && Dangerous(Decode(s).cp) {
      assert done + [] == done;
    }
  }

  lemma NormalizeNothing(done: bytes)
    ensures done + Normalize([]) == done
  {
  }

  method NormalizeUtf8(input: bytes) returns (result: bytes)
    ensures result == Normalize(input)
  {
    hide Decode, Encode, Dangerous, Overlong, Normalize;
    result := [];
    var i := 0;
    assert input[0..] == input && [] + Normalize(input) == Normalize(input);
    while i < |input|
      invariant 0 <= i <= |input| && result + Normalize(input[i..]) == Normalize(input)
    {
      var rest := input[i..];
      OneUnitMore(result, rest);
      var size, cp := DecodeCodepoint(rest);
      if size == 0 {
        assert rest[1..] == input[i + 1..];
        i := i + 1;
        continue;
      }
      assert rest[size..] == input[i + size..] && rest[..size] == input[i..i + size];
      if !Dangerous(cp) {
        result := result + if Overlong(cp, size) then Encode(cp) else input[i..i + size];
      }
      i := i + size;
    }
    assert input[i..] == [];
    NormalizeNothing(result);
  }

  method DetectMultibyteBypass(data: bytes) returns (suspicious: bool)
    ensures suspicious == Suspicious(data)
  {
    hide Decode, Overlong, Dangerous;
    var i := 0;
    assert data[0..] == data;
    while i < |data|
      invariant 0 <= i <= |data| && Suspicious(data[i..]) == Suspicious(data)
    {
      var size, cp := DecodeCodepoint(data[i..]);
      if size == 0 || Overlong(cp, size) || Dangerous(cp) {
        return true;
      }
      if 0xFF01 <= cp <= 0xFF5E {
        var ascii := cp - 0xFF01 + 0x21;
        if ascii in {0x2F, 0x5C, 0x2E, 0x3C, 0x3E, 0x27, 0x22, 0x26} {
          return true;
        }
      }
      assert data[i..][size..] == data[i + size..];
      i := i + size;
    }
    return false;
  }

  method HasOverlongEncoding(data: bytes) returns (found: bool)
    ensures found == HasOverlong(data)
  {
    hide Decode, Overlong;
    var i := 0;
    assert data[0..] == data;
    while i < |data|
      invariant 0 <= i <= |data| && HasOverlong(data[i..]) == HasOverlong(data)
    {
      var rest := data[i..];
      var size, cp := DecodeCodepoint(rest);
      if size == 0 {
        assert rest[1..] == data[i + 1..];
        i := i + 1;
      } else {
        if Overlong(cp, size) {
          return true;
        }
        assert rest[size..] == data[i + size..];
        i := i + size;
      }
    }
    return false;
  }
}
