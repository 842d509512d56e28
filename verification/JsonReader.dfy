/** The cursor-driven form of the claim reader of src/jwt_validator.cpp, proved against module Json. */
module JsonReader {
  import opened Common
  import opened Json

  /** Reading one more byte of the text that starts at `pos`. */
  lemma Peek(json: bytes, pos: nat)
    requires pos < |json|
    ensures json[pos..] != [] && json[pos..][0] == json[pos] && json[pos..][1..] == json[pos + 1..]
  {
  }

  method ParseJsonString(json: bytes, start: nat) returns (r: Option<bytes>, pos: nat)
    requires start <= |json|
    ensures match ParseString(json[start..])
            case Failed => r == None
            case Read(v, rest) => r == Some(v) && pos <= |json| && rest == json[pos..]
  {
    hide ParseEscape;
    pos := start;
    if pos >= |json| || json[pos] != QUOTE { return None, pos; }
    Peek(json, pos);
    pos := pos + 1;
    var result: bytes := [];
    while pos < |json|
      invariant start < pos <= |json|
      invariant ParseChars(json[pos..], result) == ParseString(json[start..])
      decreases |json| - pos
    {
      Peek(json, pos);
      var c := json[pos];
      if c == QUOTE { return Some(result), pos + 1; }
      if c == BACKSLASH {
        var b, next := ReadEscape(json, pos);
        if b.None? { return None, pos; }
        result := result + b.value;
        pos := next;
        continue;
      } else if c < 0x20 {
        return None, pos;
      } else {
        result := result + [c];
      }
      pos := pos + 1;
    }
    assert json[pos..] == [];
    return None, pos;
  }

  /** The switch over what follows a backslash. */
  method ReadEscape(json: bytes, start: nat) returns (r: Option<bytes>, pos: nat)
    requires start < |json|
    ensures match ParseEscape(json[start..])
            case Failed => r == None
            case Read(b, rest) => r == Some(b) && pos <= |json| && rest == json[pos..]
  {
    hide HexNumber, Utf8Unit, Unescaped;
    ghost var s := json[start..];
    pos := start + 1;
    if pos >= |json| { return None, pos; }
    var esc := json[pos];
    assert s[1] == esc;
    if esc == 0x75 {
      if pos + 4 >= |json| { return None, pos; }
      assert s[2..6] == json[pos + 1..pos + 5] && s[6..] == json[pos + 5..];
      var cp := HexDigits(json[pos + 1..pos + 5]);
      if cp.None? { return None, pos; }
      FitsUnit(json[pos + 1..pos + 5]);
      return Some(Utf8Unit(cp.value)), pos + 5;
    }
    assert s[2..] == json[pos + 1..];
    var b := Unescaped(esc);
    if b.None? { return None, pos; }
    return Some([b.value]), pos + 1;
  }

  lemma FitsUnit(s: bytes)
    requires |s| == 4 && HexNumber(s).Some?
    ensures HexNumber(s).value < 0x10000
  {
    HexNumberBound(s);
    assert Power16(4) == 0x10000;
  }

  /** The four-digit loop of the unicode escape. */
  method HexDigits(s: bytes) returns (cp: Option<nat>)
    ensures cp == HexNumber(s)
  {
    var v: nat := 0;
    for i := 0 to |s|
      invariant HexNumber(s[..i]) == Some(v)
    {
      assert s[..i + 1][..i] == s[..i];
      var d := HexValue(s[i]);
      if d.None? {
        NoHex(s, i + 1);
        return None;
      }
      v := 16 * v + d.value;
    }
    assert s[..|s|] == s;
    return Some(v);
  }

  /** A bad digit spoils every longer run. */
  lemma {:induction false} NoHex(s: bytes, k: nat)
    requires k <= |s| && HexNumber(s[..k]).None?
    ensures HexNumber(s).None?
    decreases |s| - k
  {
    if k == |s| {
      assert s[..k] == s;
    } else {
      assert s[..k + 1][..k] == s[..k];
      NoHex(s, k + 1);
    }
  }

  method SkipWs(json: bytes, start: nat) returns (pos: nat)
    requires start <= |json|
    ensures start <= pos <= |json| && json[pos..] == SkipSpace(json[start..])
  {
    pos := start;
    while pos < |json| && IsSpace(json[pos])
      invariant start <= pos <= |json| && SkipSpace(json[pos..]) == SkipSpace(json[start..])
    {
      Peek(json, pos);
      pos := pos + 1;
    }
    if pos < |json| {
      Peek(json, pos);
    }
  }

  method SkipRun(json: bytes, start: nat) returns (pos: nat)
    requires start <= |json|
    ensures start <= pos <= |json| && json[pos..] == SkipDigits(json[start..])
  {
    pos := start;
    while pos < |json| && IsDigit(json[pos])
      invariant start <= pos <= |json| && SkipDigits(json[pos..]) == SkipDigits(json[start..])
    {
      Peek(json, pos);
      pos := pos + 1;
    }
    if pos < |json| {
      Peek(json, pos);
    }
  }

  /** The depth-counting loop for one kind of bracket; `start` is just inside. */
  method SkipBrackets(json: bytes, start: nat, open: byte, close: byte) returns (ok: bool, pos: nat)
    requires start <= |json| && open != QUOTE && close != QUOTE && open != close
    ensures match SkipNested(json[start..], open, close, 1)
            case None => !ok
            case Some(rest) => ok && pos <= |json| && rest == json[pos..]
  {
    hide ParseString;
    var depth := 1;
    pos := start;
    while pos < |json| && depth > 0
      invariant start <= pos <= |json| && 0 <= depth
      invariant SkipNested(json[pos..], open, close, depth) == SkipNested(json[start..], open, close, 1)
      decreases |json| - pos
    {
      Peek(json, pos);
      if json[pos] == QUOTE {
        var s, next := ParseJsonString(json, pos);
        if s.None? { return false, pos; }
        pos := next;
        continue;
      }
      if json[pos] == open {
        depth := depth + 1;
      } else if json[pos] == close {
        depth := depth - 1;
      }
      pos := pos + 1;
    }
    assert pos == |json| ==> json[pos..] == [];
    ok := depth == 0;
  }

  method SkipJsonNumber(json: bytes, start: nat) returns (ok: bool, pos: nat)
    requires start < |json|
    ensures match SkipNumber(json[start..])
            case None => !ok
            case Some(rest) => ok && pos <= |json| && rest == json[pos..]
  {
    hide SkipDigits, IsDigit;
    pos := start;
    Peek(json, pos);
    if json[pos] == MINUS { pos := pos + 1; }
    if pos >= |json| { return false, pos; }
    pos := SkipRun(json, pos);
    ghost var digits := json[pos..];
    if pos < |json| && json[pos] == DOT {
      Peek(json, pos);
      pos := SkipRun(json, pos + 1);
    }
    assert json[pos..] == SkipFraction(digits);
    hide SkipFraction;
    if pos < |json| && (json[pos] == 0x65 || json[pos] == 0x45) {
      Peek(json, pos);
      pos := pos + 1;
      if pos < |json| && (json[pos] == 0x2B || json[pos] == MINUS) {
        Peek(json, pos);
        pos := pos + 1;
      }
      pos := SkipRun(json, pos);
    }
    ok := true;
  }

  method SkipJsonValue(json: bytes, start: nat) returns (ok: bool, pos: nat)
    requires start <= |json|
    ensures match SkipValue(json[start..])
            case None => !ok
            case Some(rest) => ok && pos <= |json| && rest == json[pos..]
  {
    hide ParseString, SkipNested, SkipNumber, SkipSpace, Raw;
    pos := SkipWs(json, start);
    if pos >= |json| { return false, pos; }
    Peek(json, pos);
    var c := json[pos];
    if c == QUOTE {
      var s;
      s, pos := ParseJsonString(json, pos);
      ok := s.Some?;
    } else if c == OPEN_BRACE {
      ok, pos := SkipBrackets(json, pos + 1, OPEN_BRACE, CLOSE_BRACE);
    } else if c == OPEN_BRACKET {
      ok, pos := SkipBrackets(json, pos + 1, OPEN_BRACKET, CLOSE_BRACKET);
    } else if c == MINUS || IsDigit(c) {
      ok, pos := SkipJsonNumber(json, pos);
    } else if Raw("true") <= json[pos..] {
      assert json[pos..][4..] == json[pos + 4..];
      return true, pos + 4;
    } else if Raw("false") <= json[pos..] {
      assert json[pos..][5..] == json[pos + 5..];
      return true, pos + 5;
    } else if Raw("null") <= json[pos..] {
      assert json[pos..][4..] == json[pos + 4..];
      return true, pos + 4;
    } else {
      ok := false;
    }
  }

  /** The part of json_get_string that runs once the key has been found. */
  method ReadClaim(json: bytes, start: nat) returns (r: Option<bytes>)
    requires start <= |json|
    ensures r == MemberValue(json[start..])
  {
    hide ParseString, SkipValue;
    if start >= |json| { return None; }
    Peek(json, start);
    var pos: nat;
    if json[start] == QUOTE {
      r, pos := ParseJsonString(json, start);
      return;
    }
    var ok;
    ok, pos := SkipJsonValue(json, start);
    if !ok { return None; }
    ghost var s := json[start..];
    assert |json[pos..]| <= |s|;
    assert json[start..pos] == s[..|s| - |json[pos..]|];
    return Some(json[start..pos]);
  }

  method JsonGetString(json: bytes, key: bytes) returns (r: Option<bytes>)
    ensures r == GetString(json, key)
  {
    hide ParseString, SkipValue, SkipSpace, MemberValue;
    assert json[0..] == json;
    var pos := SkipWs(json, 0);
    if pos >= |json| { return None; }
    Peek(json, pos);
    if json[pos] != OPEN_BRACE { return None; }
    pos := pos + 1;
    while pos < |json|
      invariant pos <= |json| && FindMember(json[pos..], key) == GetString(json, key)
    {
      ghost var whole := GetString(json, key);
      ghost var start := pos;
      pos := SkipWs(json, pos);
      if pos >= |json| { return None; }
      Peek(json, pos);
      if json[pos] == CLOSE_BRACE { return None; }
      var name, next := ParseJsonString(json, pos);
      if name.None? { return None; }
      pos := SkipWs(json, next);
      if pos >= |json| { return None; }
      Peek(json, pos);
      if json[pos] != COLON { return None; }
      pos := SkipWs(json, pos + 1);
      if name.value == key {
        r := ReadClaim(json, pos);
        return;
      }
      var ok, after := SkipJsonValue(json, pos);
      if !ok { return None; }
      pos := SkipWs(json, after);
      if pos >= |json| { return None; }
      Peek(json, pos);
      if json[pos] != COMMA { return None; }
      pos := pos + 1;
    }
    assert json[pos..] == [];
    EmptyMembers(key);
    return None;
  }

  lemma EmptyMembers(key: bytes)
    ensures FindMember([], key) == None
  {
  }
}
