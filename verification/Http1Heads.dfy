/**
 * Which heads the HTTP/1.1 parser accepts, and what it makes of them, told by the lines of the head themselves
 * (section 3 of RFC 7230): on every list of lines, with both directions of acceptance.
 */
module Http1Heads {
  import opened Common
  import opened Http1
  import opened Http1Text
  import opened HttpText

  // ----- Lines -----

  /** No line end inside. */
  predicate OneLine(line: bytes) {
    forall i | 0 <= i < |line| - 1 :: !(line[i] == 13 && line[i + 1] == 10)
  }

  function Join(ls: seq<bytes>): bytes
    requires ls != []
  {
    if |ls| == 1 then ls[0] else ls[0] + [13, 10] + Join(ls[1..])
  }

  predicate AllLines(ls: seq<bytes>) {
    forall i | 0 <= i < |ls| :: OneLine(ls[i])
  }

  // ----- The request line -----

  predicate Parts(line: bytes, m: bytes, u: bytes, v: bytes) {
    line == m + [32] + u + [32] + v && 32 !in m && 32 !in u
  }

  predicate Supported(v: bytes) {
    v == Raw("HTTP/1.0") || v == Raw("HTTP/1.1")
  }

  ghost predicate GoodStart(line: bytes) {
    0 !in line && exists m: bytes, u: bytes, v: bytes :: Parts(line, m, u, v) && Supported(v)
  }

  predicate VerbSpelled(verb: Method, text: bytes) {
    && (verb == GET <==> text == Raw("GET")) && (verb == POST <==> text == Raw("POST"))
    && (verb == PUT <==> text == Raw("PUT")) && (verb == DELETE <==> text == Raw("DELETE"))
    && (verb == HEAD <==> text == Raw("HEAD")) && (verb == OPTIONS <==> text == Raw("OPTIONS"))
    && (verb == PATCH <==> text == Raw("PATCH"))
  }

  // ----- Header lines -----

  /** The name is everything before the first colon. */
  predicate Named(line: bytes, n: bytes) {
    n + [58] <= line && 58 !in n
  }

  predicate IsBlank(b: byte) {
    b == 32 || b == 9
  }

  /** From the first to the last byte that is no blank. */
  predicate Core(raw: bytes, a: nat, b: nat) {
    && a < b <= |raw| && !IsBlank(raw[a]) && !IsBlank(raw[b - 1])
    && (forall i | 0 <= i < a :: IsBlank(raw[i])) && (forall i | b <= i < |raw| :: IsBlank(raw[i]))
  }

  /** Blanks around a text taken away; a text of blanks only is left as it is. */
  ghost predicate Stripped(raw: bytes, v: bytes) {
    if forall i | 0 <= i < |raw| :: IsBlank(raw[i]) then v == raw
    else exists a: nat, b: nat :: Core(raw, a, b) && v == raw[a..b]
  }

  ghost predicate FieldIs(line: bytes, n: bytes, v: bytes) {
    Named(line, n) && Stripped(line[|n| + 1..], v)
  }

  predicate LengthName(n: bytes) {
    IsLower(n, Raw("content-length"))
  }

  predicate EncodingName(n: bytes) {
    IsLower(n, Raw("transfer-encoding"))
  }

  predicate Decimal(b: byte) {
    48 <= b <= 57
  }

  /** A text that starts with decimal digits, as many as there are, for this number. */
  ghost predicate StartsWithNumber(s: bytes, k: nat) {
    exists d: nat :: 0 < d <= |s| && NumberPrefix(s, d, k)
  }

  predicate NumberPrefix(s: bytes, d: nat, k: nat)
    requires d <= |s|
  {
    && (forall i | 0 <= i < d :: Decimal(s[i])) && (d < |s| ==> !Decimal(s[d]))
    && NumberOf(s[..d]) == k
  }

  ghost predicate MentionsChunked(v: bytes) {
    exists i: nat :: ChunkedAt(v, i)
  }

  predicate ChunkedAt(v: bytes, i: nat) {
    i + 7 <= |v| && IsLower(v[i..i + 7], Raw("chunked"))
  }

  /** A header line that is fine by itself. */
  ghost predicate GoodLine(line: bytes) {
    0 !in line && exists n: bytes :: Named(line, n) && 32 !in n && 9 !in n
  }

  ghost predicate IsLengthLine(line: bytes) {
    exists n: bytes :: Named(line, n) && LengthName(n)
  }

  /** The length a line gives. */
  ghost predicate GivesLength(line: bytes, k: nat) {
    exists n: bytes, v: bytes :: FieldIs(line, n, v) && LengthName(n) && StartsWithNumber(v, k) && k < 0x1_0000_0000_0000_0000
  }

  ghost predicate IsChunkedLine(line: bytes) {
    exists n: bytes, v: bytes :: FieldIs(line, n, v) && EncodingName(n) && MentionsChunked(v)
  }

  // ----- Facts about one line -----

  lemma SameName(line: bytes, n: bytes, m: bytes)
    requires Named(line, n) && Named(line, m)
    ensures n == m
  {
    assert (n + [58])[|n|] == 58 == line[|n|] && (m + [58])[|m|] == 58 == line[|m|];
    assert n == line[..|n|] && m == line[..|m|];
    FirstColon(line, |n|, |m|);
  }

  lemma FirstColon(line: bytes, i: nat, j: nat)
    requires i < |line| && line[i] == 58 && 58 !in line[..i]
    requires j < |line| && line[j] == 58 && 58 !in line[..j]
    ensures i == j
  {
  }

  /** The parser's search for a colon finds the name. */
  lemma {:induction false} ColonFound(line: bytes)
    ensures Find(line, [58], 0).Some? ==> Named(line, line[..Find(line, [58], 0).value])
    ensures Find(line, [58], 0).None? ==> forall n: bytes :: !Named(line, n)
  {
    hide Find;
    var f := Find(line, [58], 0);
    if f.Some? {
      var i := f.value;
      assert line[i..i + 1][0] == 58;
      NoneBefore(line, 58, i);
      assert line[..i] + [58] == line[..i + 1];
    } else {
      forall n: bytes
        ensures !Named(line, n)
      {
        if Named(line, n) {
          assert (n + [58])[|n|] == 58 == line[|n|];
          assert line[|n|..|n| + 1] == [58];
          FindFirst(line, [58], 0, |n|);
        }
      }
    }
  }

  lemma {:induction false} NoneBefore(s: bytes, b: byte, i: nat)
    requires Find(s, [b], 0) == Some(i)
    ensures b !in s[..i]
  {
    hide Find;
    forall k | 0 <= k < i
      ensures s[k] != b
    {
      if s[k] == b {
        assert s[k..k + 1] == [b];
        FindFirst(s, [b], 0, k);
      }
    }
  }

  lemma {:induction false} FrontDropped(s: bytes) returns (a: nat)
    ensures a <= |s| && DropFront(s) == s[a..] && (forall i | 0 <= i < a :: IsBlank(s[i]))
    ensures a < |s| ==> !IsBlank(s[a])
    decreases |s|
  {
    a := 0;
    if s != [] && Blank(s[0]) {
      a := FrontDropped(s[1..]);
      a := a + 1;
      assert s[1..][a - 1..] == s[a..];
      forall i | 0 <= i < a
        ensures IsBlank(s[i])
      {
        if i > 0 {
          assert s[i] == s[1..][i - 1];
        }
      }
    }
  }

  lemma {:induction false} BackDropped(s: bytes) returns (b: nat)
    ensures b <= |s| && DropBack(s) == s[..b] && (forall i | b <= i < |s| :: IsBlank(s[i]))
    ensures b > 0 ==> !IsBlank(s[b - 1])
    decreases |s|
  {
    b := |s|;
    var n := |s| - 1;
    if s != [] && Blank(s[n]) {
      b := BackDropped(s[..n]);
      assert s[..n][..b] == s[..b];
      forall i | b <= i < |s|
        ensures IsBlank(s[i])
      {
        if i < n {
          assert s[i] == s[..n][i];
        }
      }
    }
  }

  lemma {:induction false} TrimStrips(raw: bytes)
    ensures Stripped(raw, Trim(raw))
  {
    hide DropFront, DropBack;
    if !AllBlank(raw) {
      var f := DropFront(raw);
      var a := FrontDropped(raw);
      var k := BackDropped(f);
      CoreFound(raw, a, k);
      assert raw[a..a + k] == f[..k];
    }
  }

  lemma CoreFound(raw: bytes, a: nat, k: nat)
    requires !AllBlank(raw) && a + k <= |raw|
    requires (forall i | 0 <= i < a :: IsBlank(raw[i])) && (a < |raw| ==> !IsBlank(raw[a]))
    requires (forall i | k <= i < |raw[a..]| :: IsBlank(raw[a..][i])) && (k > 0 ==> !IsBlank(raw[a..][k - 1]))
    ensures Core(raw, a, a + k)
  {
    forall i | a + k <= i < |raw|
      ensures IsBlank(raw[i])
    {
      assert raw[i] == raw[a..][i - a];
    }
    var i :| 0 <= i < |raw| && !Blank(raw[i]);
    assert a <= i < a + k;
    assert raw[a..][k - 1] == raw[a + k - 1];
  }

  lemma {:induction false} SameStrip(raw: bytes, v: bytes, w: bytes)
    requires Stripped(raw, v) && Stripped(raw, w)
    ensures v == w
  {
    if !(forall i | 0 <= i < |raw| :: IsBlank(raw[i])) {
      var a: nat, b: nat :| Core(raw, a, b) && v == raw[a..b];
      var c: nat, d: nat :| Core(raw, c, d) && w == raw[c..d];
      SameCore(raw, a, b, c, d);
    }
  }

  lemma SameCore(raw: bytes, a: nat, b: nat, c: nat, d: nat)
    requires Core(raw, a, b) && Core(raw, c, d)
    ensures a == c && b == d
  {
  }

  // ----- Numbers and words in a value -----

  lemma {:induction false} DecimalValue(s: bytes)
    requires forall i | 0 <= i < |s| :: Decimal(s[i])
    ensures (forall i | 0 <= i < |s| :: Digit(s[i], 10).Some?) && Value(s, 10) == NumberOf(s)
    decreases |s|
  {
    if s != [] {
      DecimalValue(s[..|s| - 1]);
    }
  }

  lemma {:induction false} NumberRead(s: bytes, k: nat)
    ensures Number(s, 10) == Some(k) <==> StartsWithNumber(s, k) && k < 0x1_0000_0000_0000_0000
  {
    hide NumberOf, Value, DigitRun;
    var n := DigitRun(s, 10);
    assert forall i | 0 <= i < n :: Decimal(s[..n][i]) by {
      forall i | 0 <= i < n ensures Decimal(s[..n][i]) { assert Digit(s[i], 10).Some?; }
    }
    DecimalValue(s[..n]);
    if n > 0 {
      assert NumberPrefix(s, n, NumberOf(s[..n])) by { RunPrefix(s, n); }
    }
    if StartsWithNumber(s, k) {
      var d: nat :| 0 < d <= |s| && NumberPrefix(s, d, k);
      SameRun(s, n, d, k);
    }
  }

  lemma RunPrefix(s: bytes, n: nat)
    requires n <= |s| && (forall i | 0 <= i < n :: Digit(s[i], 10).Some?) && (n < |s| ==> Digit(s[n], 10).None?)
    ensures (forall i | 0 <= i < n :: Decimal(s[i])) && (n < |s| ==> !Decimal(s[n]))
  {
  }

  lemma SameRun(s: bytes, n: nat, d: nat, k: nat)
    requires n <= |s| && (forall i | 0 <= i < n :: Digit(s[i], 10).Some?) && (n < |s| ==> Digit(s[n], 10).None?)
    requires 0 < d <= |s| && NumberPrefix(s, d, k)
    ensures n == d
  {
    hide NumberOf;
    assert n < d ==> Decimal(s[n]);
    assert d < n ==> Digit(s[d], 10).Some?;
  }

  lemma {:induction false} ChunkedFound(v: bytes)
    ensures Find(Lower(v), Raw("chunked"), 0).Some? <==> MentionsChunked(v)
  {
    hide Find, Lower, Raw;
    var low, w := Lower(v), Raw("chunked");
    assert |w| == 7;
    forall i: nat | i + 7 <= |v|
      ensures ChunkedAt(v, i) <==> low[i..i + 7] == w
    {
      LowerIs(v[i..i + 7], w);
      LowerSlice(v, i, i + 7);
    }
    if Find(low, w, 0).Some? {
      assert ChunkedAt(v, Find(low, w, 0).value);
    }
    if MentionsChunked(v) {
      var i: nat :| ChunkedAt(v, i);
      FindFirst(low, w, 0, i);
    }
  }

  lemma LowerSlice(v: bytes, i: nat, j: nat)
    requires i <= j <= |v|
    ensures Lower(v[i..j]) == Lower(v)[i..j]
  {
  }

  // ----- One header line -----

  /** What an accepted line does to the head. */
  ghost predicate LineDoes(h: Head, line: bytes, r: Head) {
    && (exists n: bytes, v: bytes :: FieldIs(line, n, v) && r.request == h.request.(headers := h.request.headers[n := v]))
    && r.problem == h.problem && r.useChunked == h.useChunked
    && (r.chunkedSeen <==> h.chunkedSeen || IsChunkedLine(line))
    && (if IsLengthLine(line) then r.lengthCount == h.lengthCount + 1 && r.hasLength && GivesLength(line, r.contentLength)
        else r.lengthCount == h.lengthCount && r.hasLength == h.hasLength && r.contentLength == h.contentLength)
  }

  ghost predicate LineAccepted(h: Head, line: bytes) {
    GoodLine(line) && (IsLengthLine(line) ==> h.lengthCount == 0 && exists k: nat :: GivesLength(line, k))
  }

  lemma LengthLineIff(line: bytes, n: bytes, v: bytes)
    requires FieldIs(line, n, v)
    ensures IsLengthLine(line) <==> Lower(n) == Raw("content-length")
    ensures forall k: nat :: GivesLength(line, k) <==> Lower(n) == Raw("content-length") && Number(v, 10) == Some(k)
  {
    hide Lower, Raw, Number, Stripped, StartsWithNumber;
    LowerIs(n, Raw("content-length"));
    if IsLengthLine(line) {
      var m: bytes :| Named(line, m) && LengthName(m);
      SameName(line, n, m);
    }
    forall k: nat
      ensures GivesLength(line, k) <==> Lower(n) == Raw("content-length") && Number(v, 10) == Some(k)
    {
      NumberRead(v, k);
      if GivesLength(line, k) {
        var m: bytes, w: bytes :| FieldIs(line, m, w) && LengthName(m) && StartsWithNumber(w, k) && k < 0x1_0000_0000_0000_0000;
        SameName(line, n, m);
        SameStrip(line[|n| + 1..], v, w);
      }
    }
  }

  lemma ChunkedLineIff(line: bytes, n: bytes, v: bytes)
    requires FieldIs(line, n, v)
    ensures IsChunkedLine(line) <==> Lower(n) == Raw("transfer-encoding") && Find(Lower(v), Raw("chunked"), 0).Some?
  {
    hide Lower, Raw, Find, Stripped, MentionsChunked;
    LowerIs(n, Raw("transfer-encoding"));
    ChunkedFound(v);
    if IsChunkedLine(line) {
      var m: bytes, w: bytes :| FieldIs(line, m, w) && EncodingName(m) && MentionsChunked(w);
      SameName(line, n, m);
      SameStrip(line[|n| + 1..], v, w);
    }
  }

  lemma TwoNames()
    ensures Raw("content-length") != Raw("transfer-encoding")
  {
    assert |Raw("content-length")| == 14 && |Raw("transfer-encoding")| == 17;
  }

  lemma GoodLineIff(line: bytes, n: bytes)
    requires Named(line, n)
    ensures GoodLine(line) <==> 0 !in line && 32 !in n && 9 !in n
  {
    hide Named;
    if GoodLine(line) {
      var m: bytes :| Named(line, m) && 32 !in m && 9 !in m;
      SameName(line, n, m);
    }
  }

  /** A line is accepted exactly when it is well formed and is not a second or unreadable length; then this is its effect. */
  lemma {:induction false} LineIff(h: Head, line: bytes)
    ensures ParseHeaderLine(h, line).1 <==> LineAccepted(h, line)
    ensures ParseHeaderLine(h, line).1 ==> LineDoes(h, line, ParseHeaderLine(h, line).0)
  {
    hide Lower, Raw, Find, Stripped, Number, Trim, GivesLength, IsLengthLine, IsChunkedLine, GoodLine, Named;
    ColonFound(line);
    if Find(line, [58], 0).Some? {
      var i := Find(line, [58], 0).value;
      var n, v := line[..i], Trim(line[i + 1..]);
      TrimStrips(line[i + 1..]);
      assert FieldIs(line, n, v);
      GoodLineIff(line, n);
      LengthLineIff(line, n, v);
      ChunkedLineIff(line, n, v);
      TwoNames();
    } else {
      NoGoodLine(line);
    }
  }

  lemma NoGoodLine(line: bytes)
    requires forall n: bytes :: !Named(line, n)
    ensures !GoodLine(line)
  {
  }

  // ----- The request line, read -----

  lemma {:induction false} SpaceFound(s: bytes)
    ensures Find(s, [32], 0).Some? ==> var i := Find(s, [32], 0).value; s == s[..i] + [32] + s[i + 1..] && 32 !in s[..i]
    ensures Find(s, [32], 0).None? ==> 32 !in s
  {
    hide Find;
    var f := Find(s, [32], 0);
    if f.Some? {
      assert s[f.value..f.value + 1][0] == 32;
      NoneBefore(s, 32, f.value);
    } else {
      forall k | 0 <= k < |s|
        ensures s[k] != 32
      {
        if s[k] == 32 {
          assert s[k..k + 1] == [32];
          FindFirst(s, [32], 0, k);
        }
      }
    }
  }

  lemma {:induction false} SpaceAt(m: bytes, rest: bytes)
    requires 32 !in m
    ensures Find(m + [32] + rest, [32], 0) == Some(|m|)
    ensures (m + [32] + rest)[..|m|] == m && (m + [32] + rest)[|m| + 1..] == rest
  {
    hide Find;
    var s := m + [32] + rest;
    assert s[|m|..|m| + 1] == [32];
    FindFirst(s, [32], 0, |m|);
    var e := Find(s, [32], 0).value;
    assert s[e..e + 1][0] == 32;
    assert forall k | 0 <= k < |m| :: s[k] == m[k];
  }

  lemma VerbOf(text: bytes)
    ensures VerbSpelled(MethodOf(text), text)
  {
    hide Raw;
    VerbNames();
  }

  lemma VerbNames()
    ensures var g, p, u, d, h, o, a := Raw("GET"), Raw("POST"), Raw("PUT"), Raw("DELETE"), Raw("HEAD"), Raw("OPTIONS"), Raw("PATCH");
            && g != p && g != u && g != d && g != h && g != o && g != a && p != u && p != d && p != h && p != o && p != a
            && u != d && u != h && u != o && u != a && d != h && d != o && d != a && h != o && h != a && o != a
  {
    assert |Raw("GET")| == 3 && |Raw("POST")| == 4 && |Raw("PUT")| == 3 && |Raw("DELETE")| == 6;
    assert |Raw("HEAD")| == 4 && |Raw("OPTIONS")| == 7 && |Raw("PATCH")| == 5;
    assert Raw("GET")[0] == 71 && Raw("PUT")[0] == 80 && Raw("POST")[0] == 80 && Raw("HEAD")[0] == 72;
  }

  /** The request line's three parts, and nothing else yet. */
  ghost predicate Started(line: bytes, h: Head) {
    && h == FRESH_HEAD.(request := h.request)
    && h.request == Request(h.request.verb, h.request.methodText, h.request.uri, [], [], h.request.version, map[])
    && Parts(line, h.request.methodText, h.request.uri, h.request.version) && Supported(h.request.version)
    && VerbSpelled(h.request.verb, h.request.methodText)
  }

  lemma {:induction false} StartRead(line: bytes)
    requires ParseRequestLine(FRESH_HEAD, line).1
    ensures 0 !in line && Started(line, ParseRequestLine(FRESH_HEAD, line).0)
  {
    hide Find, Raw, MethodOf, VerbSpelled, Parts;
    var i := Find(line, [32], 0).value;
    VerbOf(line[..i]);
    PartsFound(line);
  }

  lemma {:induction false} PartsFound(line: bytes)
    requires Find(line, [32], 0).Some? && Find(line[Find(line, [32], 0).value + 1..], [32], 0).Some?
    ensures var i := Find(line, [32], 0).value;
            var rest := line[i + 1..];
            var j := Find(rest, [32], 0).value;
            Parts(line, line[..i], rest[..j], rest[j + 1..])
  {
    hide Find, Parts;
    SpaceFound(line);
    var i := Find(line, [32], 0).value;
    var rest := line[i + 1..];
    SpaceFound(rest);
    var j := Find(rest, [32], 0).value;
    ThreeParts(line, line[..i], rest, rest[..j], rest[j + 1..]);
  }

  lemma ThreeParts(line: bytes, m: bytes, rest: bytes, u: bytes, v: bytes)
    requires line == m + [32] + rest && rest == u + [32] + v && 32 !in m && 32 !in u
    ensures Parts(line, m, u, v)
  {
    assert m + [32] + (u + [32] + v) == m + [32] + u + [32] + v;
  }

  lemma {:induction false} StartAccepted(line: bytes)
    requires GoodStart(line)
    ensures ParseRequestLine(FRESH_HEAD, line).1
  {
    hide Find, Raw, MethodOf;
    var m: bytes, u: bytes, v: bytes :| Parts(line, m, u, v) && Supported(v);
    assert line == m + [32] + (u + [32] + v);
    SpaceAt(m, u + [32] + v);
    SpaceAt(u, v);
  }

  /** A request line is accepted exactly when it has three parts and a version that is supported. */
  lemma {:induction false} RequestLineIff(line: bytes)
    ensures ParseRequestLine(FRESH_HEAD, line).1 <==> GoodStart(line)
    ensures ParseRequestLine(FRESH_HEAD, line).1 ==> Started(line, ParseRequestLine(FRESH_HEAD, line).0)
  {
    hide ParseRequestLine, Parts, Supported, VerbSpelled;
    if ParseRequestLine(FRESH_HEAD, line).1 {
      StartRead(line);
    }
    if GoodStart(line) {
      StartAccepted(line);
    }
  }

  // ----- All the lines -----

  /** The lines taken one after the other, empty ones passed over. */
  function TakeLines(h: Head, ls: seq<bytes>): (Head, bool)
    decreases |ls|
  {
    if ls == [] then (h, true)
    else if ls[0] == [] then TakeLines(h, ls[1..])
    else
      var (r, ok) := ParseHeaderLine(h, ls[0]);
      if ok then TakeLines(r, ls[1..]) else (r, false)
  }

  lemma NoEndInside(line: bytes)
    ensures OneLine(line) ==> Find(line, CRLF, 0).None?
  {
    hide Find;
    if Find(line, CRLF, 0).Some? {
      var e := Find(line, CRLF, 0).value;
      assert line[e..e + 2][0] == 13 && line[e..e + 2][1] == 10;
    }
  }

  lemma {:induction false} LinesTaken(h: Head, ls: seq<bytes>)
    requires ls != [] && AllLines(ls)
    ensures ParseLines(h, Join(ls)) == TakeLines(h, ls)
    decreases |ls|
  {
    hide Find, ParseHeaderLine, OneLine;
    var line := ls[0];
    NoEndInside(line);
    if |ls| == 1 {
      assert ls[1..] == [];
      LastTaken(h, line);
    } else {
      var rest := Join(ls[1..]);
      LineFound([], line, rest);
      var s := line + [13, 10] + rest;
      assert [] + line + CRLF + rest == s && s[..|line|] == line && s[|line| + 2..] == rest;
      assert CutLine(s) == (line, rest);
      if line == [] {
        LinesTaken(h, ls[1..]);
      } else if ParseHeaderLine(h, line).1 {
        LinesTaken(ParseHeaderLine(h, line).0, ls[1..]);
      }
    }
  }

  lemma LastTaken(h: Head, line: bytes)
    requires Find(line, CRLF, 0).None?
    ensures ParseLines(h, line) == if line == [] then (h, true) else ParseHeaderLine(h, line)
  {
    hide Find, ParseHeaderLine;
    if line != [] {
      assert CutLine(line) == (line, []);
      var r := ParseHeaderLine(h, line);
      assert ParseLines(r.0, []) == (r.0, true);
    }
  }

  lemma {:induction false} OneLineMore(h: Head, ls: seq<bytes>, line: bytes)
    ensures TakeLines(h, ls + [line])
         == if !TakeLines(h, ls).1 || line == [] then TakeLines(h, ls) else ParseHeaderLine(TakeLines(h, ls).0, line)
    decreases |ls|
  {
    hide ParseHeaderLine;
    if ls == [] {
      assert ls + [line] == [line] && [line][1..] == [];
      var r := ParseHeaderLine(h, line);
      assert TakeLines(r.0, []) == (r.0, true);
    } else {
      assert (ls + [line])[0] == ls[0] && (ls + [line])[1..] == ls[1..] + [line];
      if ls[0] == [] {
        OneLineMore(h, ls[1..], line);
      } else if ParseHeaderLine(h, ls[0]).1 {
        OneLineMore(ParseHeaderLine(h, ls[0]).0, ls[1..], line);
      }
    }
  }

  // ----- What the lines say together -----

  ghost predicate LastNamed(ls: seq<bytes>, n: bytes, i: nat) {
    i < |ls| && Named(ls[i], n) && forall j | i < j < |ls| :: !Named(ls[j], n)
  }

  ghost predicate SomeNamed(ls: seq<bytes>, n: bytes) {
    exists i :: 0 <= i < |ls| && Named(ls[i], n)
  }

  /** Each name has the stripped value of its last line, and there are no other names. */
  ghost predicate FieldsSpelled(fields: map<bytes, bytes>, ls: seq<bytes>) {
    && (forall n: bytes :: n in fields <==> SomeNamed(ls, n))
    && (forall n: bytes, i: nat | n in fields && LastNamed(ls, n, i) :: Stripped(ls[i][|n| + 1..], fields[n]))
  }

  ghost predicate SomeLength(ls: seq<bytes>) {
    exists i :: 0 <= i < |ls| && IsLengthLine(ls[i])
  }

  ghost predicate SomeChunked(ls: seq<bytes>) {
    exists i :: 0 <= i < |ls| && IsChunkedLine(ls[i])
  }

  ghost predicate SomeGives(ls: seq<bytes>, k: nat) {
    exists i :: 0 <= i < |ls| && GivesLength(ls[i], k)
  }

  /** Every line is fine by itself, and at most one gives a length, which can be read. */
  ghost predicate LinesGood(ls: seq<bytes>) {
    && (forall i | 0 <= i < |ls| && ls[i] != [] :: GoodLine(ls[i]))
    && (forall i | 0 <= i < |ls| && IsLengthLine(ls[i]) :: Readable(ls[i]))
    && (forall i, j | 0 <= i < j < |ls| :: !(IsLengthLine(ls[i]) && IsLengthLine(ls[j])))
  }

  ghost predicate Readable(line: bytes) {
    exists k: nat :: GivesLength(line, k)
  }

  /** The head after these lines. */
  ghost predicate LinesDo(start: Head, ls: seq<bytes>, h: Head) {
    && h.request == start.request.(headers := h.request.headers) && FieldsSpelled(h.request.headers, ls)
    && h.problem == start.problem && h.useChunked == start.useChunked
    && (h.chunkedSeen <==> SomeChunked(ls))
    && (h.hasLength <==> SomeLength(ls)) && h.lengthCount == (if SomeLength(ls) then 1 else 0)
    && (if SomeLength(ls) then SomeGives(ls, h.contentLength) else h.contentLength == 0)
  }

  lemma SomeMore(ls: seq<bytes>, line: bytes)
    ensures SomeLength(ls + [line]) <==> SomeLength(ls) || IsLengthLine(line)
    ensures SomeChunked(ls + [line]) <==> SomeChunked(ls) || IsChunkedLine(line)
  {
    hide IsLengthLine, IsChunkedLine;
    var all := ls + [line];
    assert all[|ls|] == line && forall i | 0 <= i < |ls| :: all[i] == ls[i];
  }

  lemma SomeGivesMore(ls: seq<bytes>, line: bytes, k: nat)
    ensures SomeGives(ls + [line], k) <==> SomeGives(ls, k) || GivesLength(line, k)
  {
    hide GivesLength;
    var all := ls + [line];
    assert all[|ls|] == line && forall i | 0 <= i < |ls| :: all[i] == ls[i];
  }

  lemma GoodMore(ls: seq<bytes>, line: bytes)
    ensures LinesGood(ls + [line])
       <==> LinesGood(ls) && (line != [] ==> GoodLine(line))
            && (IsLengthLine(line) ==> Readable(line) && !SomeLength(ls))
  {
    hide IsLengthLine, GoodLine, Readable;
    var all := ls + [line];
    assert all[|ls|] == line && forall i | 0 <= i < |ls| :: all[i] == ls[i];
    if LinesGood(all) {
      forall i, j | 0 <= i < j < |ls|
        ensures !(IsLengthLine(ls[i]) && IsLengthLine(ls[j]))
      {
        assert all[i] == ls[i] && all[j] == ls[j];
      }
      forall i | 0 <= i < |ls|
        ensures !(IsLengthLine(ls[i]) && IsLengthLine(line))
        ensures IsLengthLine(ls[i]) ==> Readable(ls[i])
        ensures ls[i] != [] ==> GoodLine(ls[i])
      {
        assert all[i] == ls[i] && all[|ls|] == line;
      }
    }
  }

  lemma NamedMore(ls: seq<bytes>, line: bytes, n: bytes)
    ensures SomeNamed(ls + [line], n) <==> SomeNamed(ls, n) || Named(line, n)
    ensures forall i: nat :: LastNamed(ls + [line], n, i) && !Named(line, n) ==> LastNamed(ls, n, i)
    ensures forall i: nat :: LastNamed(ls + [line], n, i) && Named(line, n) ==> i == |ls|
  {
    hide Named;
    var all := ls + [line];
    assert all[|ls|] == line && forall i | 0 <= i < |ls| :: all[i] == ls[i];
    forall i: nat | LastNamed(all, n, i) && !Named(line, n)
      ensures LastNamed(ls, n, i)
    {
      forall j | i < j < |ls| ensures !Named(ls[j], n) { assert all[j] == ls[j]; }
    }
  }

  lemma FieldsMore(ls: seq<bytes>, line: bytes, n: bytes, v: bytes, fields: map<bytes, bytes>)
    requires FieldsSpelled(fields, ls) && FieldIs(line, n, v)
    ensures FieldsSpelled(fields[n := v], ls + [line])
  {
    hide Named, Stripped, LastNamed, SomeNamed;
    var all, more := ls + [line], fields[n := v];
    forall x: bytes
      ensures x in more <==> SomeNamed(all, x)
    {
      NamedMore(ls, line, x);
      if Named(line, x) {
        SameName(line, n, x);
      }
    }
    forall x: bytes, i: nat | x in more && LastNamed(all, x, i)
      ensures LastIn(all, x, i) && Stripped(all[i][|x| + 1..], more[x])
    {
      LastIs(all, x, i);
      NamedMore(ls, line, x);
      if Named(line, x) {
        SameName(line, n, x);
        assert all[|ls|] == line;
      } else {
        LastIs(ls, x, i);
        assert all[i] == ls[i];
      }
    }
  }

  ghost predicate LastIn(ls: seq<bytes>, n: bytes, i: nat) {
    i < |ls| && |n| + 1 <= |ls[i]|
  }

  lemma LastIs(ls: seq<bytes>, n: bytes, i: nat)
    requires LastNamed(ls, n, i)
    ensures LastIn(ls, n, i)
  {
  }

  lemma FieldsSame(ls: seq<bytes>, fields: map<bytes, bytes>)
    requires FieldsSpelled(fields, ls)
    ensures FieldsSpelled(fields, ls + [[]])
  {
    hide Stripped, LastNamed, SomeNamed;
    var all := ls + [[]];
    forall x: bytes
      ensures !Named([], x)
      ensures x in fields <==> SomeNamed(all, x)
    {
      NamedMore(ls, [], x);
    }
    forall x: bytes, i: nat | x in fields && LastNamed(all, x, i)
      ensures LastIn(all, x, i) && Stripped(all[i][|x| + 1..], fields[x])
    {
      LastIs(all, x, i);
      NamedMore(ls, [], x);
      LastIs(ls, x, i);
      assert all[i] == ls[i];
    }
  }

  lemma EmptyLine()
    ensures !IsLengthLine([]) && !IsChunkedLine([]) && forall k: nat :: !GivesLength([], k)
  {
  }

  /** The lines are accepted exactly when they are good, and then this is what they do together. */
  lemma {:induction false} LinesIff(start: Head, ls: seq<bytes>)
    requires start.request.headers == map[] && !start.chunkedSeen && !start.hasLength
    requires start.lengthCount == 0 && start.contentLength == 0
    ensures TakeLines(start, ls).1 <==> LinesGood(ls)
    ensures TakeLines(start, ls).1 ==> LinesDo(start, ls, TakeLines(start, ls).0)
    decreases |ls|
  {
    hide TakeLines, ParseHeaderLine, GoodLine, IsLengthLine, IsChunkedLine, GivesLength, FieldsSpelled, LinesGood,
         SomeLength, SomeChunked, SomeGives, FieldIs, Readable;
    if ls == [] {
      NoLines(start);
    } else {
      var before, line := ls[..|ls| - 1], ls[|ls| - 1];
      assert ls == before + [line];
      LinesIff(start, before);
      OneLineMore(start, before, line);
      GoodMore(before, line);
      SomeMore(before, line);
      if TakeLines(start, before).1 {
        var h := TakeLines(start, before).0;
        SomeGivesMore(before, line, TakeLines(start, ls).0.contentLength);
        EmptyLine();
        if line == [] {
          FieldsSame(before, h.request.headers);
        } else {
          LineMore(start, before, line, h);
        }
      }
    }
  }

  lemma NoLines(start: Head)
    requires start.request.headers == map[] && !start.chunkedSeen && !start.hasLength
    requires start.lengthCount == 0 && start.contentLength == 0
    ensures TakeLines(start, []) == (start, true) && LinesGood([]) && LinesDo(start, [], start)
  {
  }

  lemma LineMore(start: Head, before: seq<bytes>, line: bytes, h: Head)
    requires LinesDo(start, before, h) && line != []
    ensures ParseHeaderLine(h, line).1
       <==> GoodLine(line) && (IsLengthLine(line) ==> Readable(line) && !SomeLength(before))
    ensures ParseHeaderLine(h, line).1 ==> LinesDo(start, before + [line], ParseHeaderLine(h, line).0)
  {
    hide ParseHeaderLine, GoodLine, IsLengthLine, IsChunkedLine, GivesLength, FieldsSpelled, SomeLength, SomeChunked, SomeGives, FieldIs;
    LineIff(h, line);
    SomeMore(before, line);
    if ParseHeaderLine(h, line).1 {
      var r := ParseHeaderLine(h, line).0;
      SomeGivesMore(before, line, r.contentLength);
      var n: bytes, v: bytes :| FieldIs(line, n, v) && r.request == h.request.(headers := h.request.headers[n := v]);
      FieldsMore(before, line, n, v, h.request.headers);
    }
  }

  // ----- The whole head -----

  /** What an accepted head comes to: request line, target, fields, and how the body is framed. */
  ghost predicate HeadSpelled(ls: seq<bytes>, h: Head)
    requires ls != []
  {
    var q, fields := h.request, ls[1..];
    && Parts(ls[0], q.methodText, q.uri, q.version) && Supported(q.version) && VerbSpelled(q.verb, q.methodText)
    && IsPath(q.uri, q.path) && (if 63 in q.uri then IsQuery(q.uri, q.query) else q.query == [])
    && FieldsSpelled(q.headers, fields)
    && (h.useChunked <==> SomeChunked(fields))
    && (h.hasLength <==> SomeLength(fields) && !SomeChunked(fields))
    && (if h.hasLength then SomeGives(fields, h.contentLength) else h.contentLength == 0)
  }

  lemma {:induction false} TargetSplit(h: Head)
    ensures var q := SplitUri(h).request;
            && SplitUri(h) == h.(request := h.request.(path := q.path, query := q.query))
            && IsPath(q.uri, q.path) && (if 63 in q.uri then IsQuery(q.uri, q.query) else q.query == h.request.query)
  {
    hide Find;
    var uri := h.request.uri;
    var f := Find(uri, [63], 0);
    if f.Some? {
      assert uri[f.value..f.value + 1][0] == 63;
      NoneBefore(uri, 63, f.value);
      SplitAt(uri, f.value);
    } else {
      forall k | 0 <= k < |uri|
        ensures uri[k] != 63
      {
        if uri[k] == 63 {
          assert uri[k..k + 1] == [63];
          FindFirst(uri, [63], 0, k);
        }
      }
    }
  }

  /**
   * On every list of at least two lines: the head is accepted exactly when its request line and all its header lines
   * are good, and then it is what they spell.
   */
  lemma {:induction false} HeadIff(ls: seq<bytes>)
    requires |ls| >= 2 && AllLines(ls)
    ensures ParseHead(FRESH_HEAD, Join(ls)).1 <==> GoodStart(ls[0]) && LinesGood(ls[1..])
    ensures ParseHead(FRESH_HEAD, Join(ls)).1 ==>
              HeadSpelled(ls, ParseHead(FRESH_HEAD, Join(ls)).0) && ParseHead(FRESH_HEAD, Join(ls)).0.problem == NoProblem
  {
    hide Find, ParseRequestLine, ParseLines, SplitUri, GoodStart, LinesGood, Parts, Supported, VerbSpelled, IsPath, IsQuery,
         FieldsSpelled, SomeLength, SomeChunked, SomeGives, OneLine;
    var line, rest := ls[0], Join(ls[1..]);
    var s := Join(ls);
    NoEndInside(line);
    LineFound([], line, rest);
    assert [] + line + CRLF + rest == s && s[..|line|] == line && s[|line| + 2..] == rest;
    RequestLineIff(line);
    if ParseRequestLine(FRESH_HEAD, line).1 {
      var h := ParseRequestLine(FRESH_HEAD, line).0;
      LinesTaken(h, ls[1..]);
      LinesIff(h, ls[1..]);
      if ParseLines(h, rest).1 {
        TargetSplit(Validate(ParseLines(h, rest).0));
      }
    }
  }
}
