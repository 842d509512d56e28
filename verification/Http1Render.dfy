/** Requests written out and read back: the head, its fields, and where it ends. */
module Http1Render {
  import opened Common
  import opened Http1
  import opened Http1Text
  import opened Http1Split
  import opened Http1Chunks
  import opened HttpText
  import Http1Heads

  datatype Field = Field(name: bytes, value: bytes)

  /** A line that does not end early. */
  predicate Unbroken(line: bytes) {
    line != [] && Find(line, CRLF, 0).None?
  }

  function FieldLine(f: Field): bytes {
    f.name + [58, 32] + f.value
  }

  predicate GoodField(f: Field) {
    && 58 !in f.name && 32 !in f.name && 9 !in f.name && 0 !in f.name
    && f.value != [] && !Blank(f.value[0]) && !Blank(f.value[|f.value| - 1]) && 0 !in f.value
    && Unbroken(FieldLine(f))
  }

  predicate GoodFields(fields: seq<Field>) {
    forall f | f in fields :: GoodField(f)
  }

  function RequestLine(verb: bytes, uri: bytes, version: bytes): bytes {
    verb + [32] + (uri + [32] + version)
  }

  predicate GoodRequestLine(verb: bytes, uri: bytes, version: bytes) {
    && 32 !in verb && 32 !in uri && 0 !in RequestLine(verb, uri, version)
    && (version == Raw("HTTP/1.0") || version == Raw("HTTP/1.1"))
    && Unbroken(RequestLine(verb, uri, version))
  }

  function Lines(fields: seq<Field>): bytes
    requires fields != []
  {
    if |fields| == 1 then FieldLine(fields[0]) else FieldLine(fields[0]) + [13, 10] + Lines(fields[1..])
  }

  function RenderHead(verb: bytes, uri: bytes, version: bytes, fields: seq<Field>): bytes
    requires fields != []
  {
    RequestLine(verb, uri, version) + [13, 10] + Lines(fields)
  }

  // ----- What the fields mean -----

  /** A field taken into the head: lengths are counted and read, encodings noted, the value stored. */
  function Take(h: Head, f: Field): (Head, bool) {
    var (h1, ok) := if Lower(f.name) == Raw("content-length") then NoteLength(h, f.value) else (h, true);
    if !ok then (h1, false)
    else
      var h2 := if Lower(f.name) == Raw("transfer-encoding") then NoteEncoding(h1, f.value) else h1;
      (h2.(request := h2.request.(headers := h2.request.headers[f.name := f.value])), true)
  }

  function TakeAll(h: Head, fields: seq<Field>): (Head, bool)
    decreases |fields|
  {
    if fields == [] then (h, true)
    else
      var (h1, ok) := Take(h, fields[0]);
      if ok then TakeAll(h1, fields[1..]) else (h1, false)
  }

  function LineTaken(verb: bytes, uri: bytes, version: bytes): Head {
    FRESH_HEAD.(request := NO_REQUEST.(methodText := verb, verb := MethodOf(verb), uri := uri, version := version))
  }

  // ----- Lines -----

  lemma {:induction false} FindByte(s: bytes, b: byte, i: nat)
    requires i < |s| && s[i] == b && b !in s[..i]
    ensures Find(s, [b], 0) == Some(i)
  {
    hide Find;
    assert s[i..i + 1] == [b];
    FindFirst(s, [b], 0, i);
    var e := Find(s, [b], 0).value;
    assert s[e..e + 1][0] == b;
    forall k | 0 <= k < i
      ensures s[k] != b
    {
      assert s[..i][k] == s[k];
    }
  }

  lemma {:induction false} TrimValue(value: bytes)
    requires value != [] && !Blank(value[0]) && !Blank(value[|value| - 1])
    ensures Trim([32] + value) == value
  {
    var s := [32] + value;
    assert s[1] == value[0] && s[1..] == value;
    assert !AllBlank(s);
    assert DropFront(value) == value;
    assert DropFront(s) == value;
  }

  lemma {:induction false} FieldParsed(h: Head, f: Field)
    requires GoodField(f)
    ensures ParseHeaderLine(h, FieldLine(f)) == Take(h, f)
  {
    hide Find, Trim, Lower, Raw, NoteLength, NoteEncoding, Blank;
    var line := FieldLine(f);
    var i := |f.name|;
    assert line[..i] == f.name && line[i + 1..] == [32] + f.value;
    NoNull(f);
    FindByte(line, 58, i);
    TrimValue(f.value);
  }

  lemma NoNull(f: Field)
    requires 0 !in f.name && 0 !in f.value
    ensures 0 !in FieldLine(f)
  {
  }

  lemma {:induction false} RequestLineParsed(verb: bytes, uri: bytes, version: bytes)
    requires GoodRequestLine(verb, uri, version)
    ensures ParseRequestLine(FRESH_HEAD, RequestLine(verb, uri, version)) == (LineTaken(verb, uri, version), true)
  {
    hide Find, Raw, MethodOf;
    var rest := uri + [32] + version;
    var line := RequestLine(verb, uri, version);
    assert line[..|verb|] == verb && line[|verb| + 1..] == rest;
    assert rest[..|uri|] == uri && rest[|uri| + 1..] == version;
    FindByte(line, 32, |verb|);
    FindByte(rest, 32, |uri|);
  }

  lemma {:induction false} FirstLine(line: bytes, s: bytes)
    requires Unbroken(line)
    ensures Find(line + CRLF + s, CRLF, 0) == Some(|line|)
    ensures (line + CRLF + s)[..|line|] == line && (line + CRLF + s)[|line| + 2..] == s
  {
    hide Find;
    LineFound([], line, s);
    assert [] + line == line;
  }

  lemma {:induction false} LinesParsed(h: Head, fields: seq<Field>)
    requires fields != [] && GoodFields(fields)
    ensures ParseLines(h, Lines(fields)) == TakeAll(h, fields)
    decreases |fields|
  {
    hide Find, ParseHeaderLine, Take, GoodField, FieldLine;
    var f := fields[0];
    assert f in fields;
    FieldParsed(h, f);
    FieldUnbroken(f);
    if |fields| == 1 {
      assert fields[1..] == [];
      LastLineCut(h, FieldLine(f));
      assert TakeAll(Take(h, f).0, []) == (Take(h, f).0, true);
    } else {
      assert forall x | x in fields[1..] :: x in fields;
      FirstLine(FieldLine(f), Lines(fields[1..]));
      if Take(h, f).1 {
        LinesParsed(Take(h, f).0, fields[1..]);
      }
    }
  }

  lemma FieldUnbroken(f: Field)
    requires GoodField(f)
    ensures Unbroken(FieldLine(f))
  {
  }

  lemma LastLineCut(h: Head, line: bytes)
    requires Unbroken(line)
    ensures ParseLines(h, line) == ParseHeaderLine(h, line)
  {
    hide Find, ParseHeaderLine;
    var r := ParseHeaderLine(h, line);
    assert CutLine(line) == (line, []);
    assert ParseLines(r.0, []) == (r.0, true);
  }

  /** Reading back a written head gives the request line and the fields, taken one after the other. */
  lemma {:induction false} HeadRoundTrip(verb: bytes, uri: bytes, version: bytes, fields: seq<Field>)
    requires GoodRequestLine(verb, uri, version) && fields != [] && GoodFields(fields)
    ensures var (h, ok) := TakeAll(LineTaken(verb, uri, version), fields);
            ParseHead(FRESH_HEAD, RenderHead(verb, uri, version, fields)) == if ok then (SplitUri(Validate(h)), true) else (h, false)
  {
    hide Find, ParseRequestLine, ParseLines, TakeAll, RequestLine, Lines, GoodFields, Validate, SplitUri, LineTaken;
    FirstLine(RequestLine(verb, uri, version), Lines(fields));
    RequestLineParsed(verb, uri, version);
    LinesParsed(LineTaken(verb, uri, version), fields);
  }

  /** A request line with no field after it is refused. */
  lemma {:induction false} NoFieldsRefused(line: bytes)
    requires Unbroken(line)
    ensures !ParseHead(FRESH_HEAD, line).1
    ensures var (p, status) := Feed(FRESH, line + [13, 10, 13, 10]);
            status == Failed && p.head.problem == InvalidRequestLine
  {
    hide Find;
    OneLineEnd(line);
    assert [] + (line + END_OF_HEAD) == line + END_OF_HEAD && (line + END_OF_HEAD)[..|line|] == line;
  }

  // ----- What is stored -----

  lemma {:induction false} TakeKeeps(h: Head, f: Field)
    ensures Take(h, f).1 ==>
              && Take(h, f).0.request == h.request.(headers := h.request.headers[f.name := f.value])
              && (h.chunkedSeen ==> Take(h, f).0.chunkedSeen)
              && (Lower(f.name) == Raw("transfer-encoding") && f.value == Raw("chunked") ==> Take(h, f).0.chunkedSeen)
  {
    hide Find, Lower, Raw, Number;
    ChunkedFound();
  }

  lemma {:induction false} ChunkedFound()
    ensures Find(Lower(Raw("chunked")), Raw("chunked"), 0) == Some(0)
  {
    var s := Raw("chunked");
    assert Lower(s) == s;
    assert s[0..7] == s;
  }

  /** After accepted fields with distinct names every field is stored under its name. */
  lemma {:induction false} FieldsStored(h: Head, fields: seq<Field>)
    requires TakeAll(h, fields).1
    requires forall i, j | 0 <= i < j < |fields| :: fields[i].name != fields[j].name
    ensures var r := TakeAll(h, fields).0;
            && r.request == h.request.(headers := r.request.headers)
            && (forall f | f in fields :: f.name in r.request.headers && r.request.headers[f.name] == f.value)
            && (forall n | n in h.request.headers && (forall f | f in fields :: f.name != n) ::
                  n in r.request.headers && r.request.headers[n] == h.request.headers[n])
            && (h.chunkedSeen ==> r.chunkedSeen)
            && ((exists f :: f in fields && Lower(f.name) == Raw("transfer-encoding") && f.value == Raw("chunked")) ==> r.chunkedSeen)
    decreases |fields|
  {
    hide Take, Lower, Raw;
    if fields != [] {
      var f, tail := fields[0], fields[1..];
      TakeKeeps(h, f);
      FieldsStored(Take(h, f).0, tail);
      assert fields == [f] + tail;
      forall g | g in tail
        ensures g.name != f.name
      {
        var k :| 0 <= k < |tail| && tail[k] == g;
        assert fields[k + 1] == g;
      }
    }
  }

  // ----- Where the head ends -----

  /** No end of head begins inside a line or at its line end, if a nonempty line follows. */
  lemma {:induction false} NoEndInLine(line: bytes, rest: bytes, i: nat)
    requires Unbroken(line) && i < |line| && i + 4 <= |line + rest| && 2 <= |rest| && rest[..2] == CRLF
    ensures (line + rest)[i..i + 4] != END_OF_HEAD
  {
    hide Find;
    var t := line + rest;
    assert [] + line + rest == t;
    assert rest[0] == CRLF[0];
    InsideLine([], line, rest, i);
    assert t[i..i + 2] == t[i..i + 4][..2];
    assert END_OF_HEAD[..2] == CRLF;
  }

  lemma {:induction false} NoEndAtBreak(line: bytes, next: bytes, i: nat)
    requires next != [] && |line| <= i < |line| + 2 && i + 4 <= |line + CRLF + next|
    requires 2 <= |next| && next[..2] != CRLF
    ensures (line + CRLF + next)[i..i + 4] != END_OF_HEAD
  {
    var t := line + CRLF + next;
    if i == |line| {
      var u := t[i..i + 4];
      assert u[2] == t[i + 2] == next[0] && u[3] == t[i + 3] == next[1];
      assert next[..2] == [next[0], next[1]];
    } else {
      assert t[i..i + 4][0] == 10;
    }
  }

  lemma {:induction false} StartsWell(line: bytes, rest: bytes)
    requires Unbroken(line) && 2 <= |rest| && rest[0] == 13
    ensures (line + rest)[..2] != CRLF
  {
    hide Find;
    assert [] + line + rest == line + rest;
    InsideLine([], line, rest, 0);
    assert (line + rest)[0..0 + 2] == (line + rest)[..2];
  }

  /** Two lines in front of the rest of a head do not end it early. */
  lemma {:induction false} SkipLine(line: bytes, next: bytes)
    requires Unbroken(line) && 4 <= |next| && next[..2] != CRLF
    ensures var k := |line| + 2;
            Find(line + CRLF + next, END_OF_HEAD, 0) == match Find(next, END_OF_HEAD, 0) case None => None case Some(i) => Some(k + i)
  {
    hide Find;
    var t := line + CRLF + next;
    assert t == line + (CRLF + next) && (CRLF + next)[..2] == CRLF;
    forall i | 0 <= i < |line| + 2
      ensures !Occurs(t, END_OF_HEAD, i)
    {
      if i < |line| {
        NoEndInLine(line, CRLF + next, i);
      } else {
        NoEndAtBreak(line, next, i);
      }
    }
    FindSkip(t, END_OF_HEAD, 0, |line| + 2);
    FindShift(line + CRLF, next, END_OF_HEAD, 0);
  }

  lemma {:induction false} LinesEnd(fields: seq<Field>)
    requires fields != [] && GoodFields(fields)
    ensures EndsWell(Lines(fields))
    decreases |fields|
  {
    hide Find, GoodField, FieldLine, EndsWell;
    assert fields[0] in fields;
    FieldUnbroken(fields[0]);
    if |fields| == 1 {
      OneLineEnd(FieldLine(fields[0]));
    } else {
      assert forall x | x in fields[1..] :: x in fields;
      LinesEnd(fields[1..]);
      OneMoreLine(FieldLine(fields[0]), Lines(fields[1..]));
    }
  }

  /** Its end is found where it is, and it does not begin with an empty line. */
  predicate EndsWell(text: bytes) {
    Find(text + END_OF_HEAD, END_OF_HEAD, 0) == Some(|text|) && (text + END_OF_HEAD)[..2] != CRLF
  }

  lemma {:induction false} OneMoreLine(line: bytes, text: bytes)
    requires Unbroken(line) && EndsWell(text)
    ensures EndsWell(line + CRLF + text)
  {
    hide Find;
    var next := text + END_OF_HEAD;
    assert line + CRLF + text + END_OF_HEAD == line + CRLF + next;
    SkipLine(line, next);
    assert line + CRLF + next == line + (CRLF + next) && (CRLF + next)[0] == 13;
    StartsWell(line, CRLF + next);
  }

  lemma {:induction false} OneLineEnd(line: bytes)
    requires Unbroken(line)
    ensures EndsWell(line)
  {
    hide Find;
    var t := line + END_OF_HEAD;
    assert END_OF_HEAD[..2] == CRLF;
    forall i | 0 <= i < |line|
      ensures !Occurs(t, END_OF_HEAD, i)
    {
      NoEndInLine(line, END_OF_HEAD, i);
    }
    FindSkip(t, END_OF_HEAD, 0, |line|);
    assert t[|line|..|line| + 4] == END_OF_HEAD;
    FindFirst(t, END_OF_HEAD, |line|, |line|);
    StartsWell(line, END_OF_HEAD);
  }

  /** The parser finds the end of a written head where it is. */
  lemma {:induction false} HeadEnds(verb: bytes, uri: bytes, version: bytes, fields: seq<Field>)
    requires GoodRequestLine(verb, uri, version) && fields != [] && GoodFields(fields)
    ensures var head := RenderHead(verb, uri, version, fields);
            Find(head + END_OF_HEAD, END_OF_HEAD, 0) == Some(|head|)
  {
    hide Find, RequestLine, Lines, GoodFields;
    var line, next := RequestLine(verb, uri, version), Lines(fields) + END_OF_HEAD;
    LinesEnd(fields);
    assert RenderHead(verb, uri, version, fields) + END_OF_HEAD == line + CRLF + next;
    SkipLine(line, next);
  }

  // ----- Whole requests -----

  /** The request line's parts, its method among those known, and its target cut at the first question mark. */
  predicate RequestSpelled(q: Request, verb: bytes, uri: bytes, version: bytes) {
    && q.methodText == verb && q.uri == uri && q.version == version && Http1Heads.VerbSpelled(q.verb, verb)
    && IsPath(uri, q.path) && if 63 in uri then IsQuery(uri, q.query) else q.query == []
  }

  lemma LineSpelled(verb: bytes, uri: bytes, version: bytes, h: Head)
    requires h.request == LineTaken(verb, uri, version).request.(headers := h.request.headers)
    ensures RequestSpelled(SplitUri(h).request, verb, uri, version)
  {
    hide SplitUri, MethodOf, Raw, IsPath, IsQuery, Http1Heads.VerbSpelled;
    Http1Heads.TargetSplit(h);
    Http1Heads.VerbOf(verb);
  }

  /**
   * A request with a chunked transfer encoding, written with any chunks and fed in pieces that end at good
   * positions, comes back complete: request line, every field, and the chunks' data as its body.
   */
  lemma {:induction false} ChunkedRequestReadBack(verb: bytes, uri: bytes, version: bytes, fields: seq<Field>,
                                                  chunks: seq<Chunk>, last: bytes, pieces: seq<bytes>)
    requires GoodRequestLine(verb, uri, version) && fields != [] && GoodFields(fields)
    requires forall i, j | 0 <= i < j < |fields| :: fields[i].name != fields[j].name
    requires exists f :: f in fields && Lower(f.name) == Raw("transfer-encoding") && f.value == Raw("chunked")
    requires TakeAll(LineTaken(verb, uri, version), fields).1
    requires AllWellFormed(chunks) && LastLine(last)
    requires pieces != [] && Concat(pieces) == RenderHead(verb, uri, version, fields) + [13, 10, 13, 10] + Render(chunks, last)
    requires forall k | 0 < k < |pieces| :: GoodEnd(RenderHead(verb, uri, version, fields), chunks, last, |Concat(pieces[..k])|)
    ensures var (p, status) := FeedAll(FRESH, pieces);
            && status == Complete && p.body == Data(chunks)
            && RequestSpelled(p.head.request, verb, uri, version)
            && forall f | f in fields :: f.name in p.head.request.headers && p.head.request.headers[f.name] == f.value
  {
    hide FeedAll, TakeAll, RenderHead, Render, GoodEnd, LastLine, GoodFields, GoodRequestLine, ParseHead, Find, Raw, Lower;
    var head := RenderHead(verb, uri, version, fields);
    var h := TakeAll(LineTaken(verb, uri, version), fields).0;
    HeadRoundTrip(verb, uri, version, fields);
    HeadEnds(verb, uri, version, fields);
    FieldsStored(LineTaken(verb, uri, version), fields);
    LineSpelled(verb, uri, version, Validate(h));
    hide RequestSpelled;
    RequestDecodedInPieces(head, SplitUri(Validate(h)), chunks, last, pieces);
  }

  /** A request whose head gives a length and no chunking is complete with exactly that body, whatever follows it. */
  lemma {:induction false} SizedBodyRead(verb: bytes, uri: bytes, version: bytes, fields: seq<Field>, body: bytes, more: bytes)
    requires GoodRequestLine(verb, uri, version) && fields != [] && GoodFields(fields)
    requires TakeAll(LineTaken(verb, uri, version), fields).1
    requires var h := TakeAll(LineTaken(verb, uri, version), fields).0; !h.chunkedSeen && !h.useChunked && h.contentLength == |body|
    ensures var (p, status) := Feed(FRESH, RenderHead(verb, uri, version, fields) + END_OF_HEAD + (body + more));
            status == Complete && p.body == body && p.head == SplitUri(TakeAll(LineTaken(verb, uri, version), fields).0)
  {
    hide TakeAll, RenderHead, GoodFields, GoodRequestLine, ParseHead, Find, LineTaken;
    var head := RenderHead(verb, uri, version, fields);
    var h := TakeAll(LineTaken(verb, uri, version), fields).0;
    HeadRoundTrip(verb, uri, version, fields);
    HeadEnds(verb, uri, version, fields);
    hide Feed;
    var x := head + END_OF_HEAD + (body + more);
    FindExtend(head + END_OF_HEAD, body + more, END_OF_HEAD, 0);
    assert [] + x == x && x[..|head|] == head;
    UriKeeps(h);
    var q := BodyParser(head, SplitUri(h), body + more);
    assert Ready(FRESH, x) == Some(q);
    FeedReady(FRESH, x);
    SizedExact(head, SplitUri(h), body, more);
  }

  lemma {:induction false} SizedExact(head: bytes, h: Head, body: bytes, more: bytes)
    requires h.contentLength == |body|
    ensures var (p, status) := Sized(BodyParser(head, h, body + more)); status == Complete && p.body == body && p.head == h
  {
    var x := head + END_OF_HEAD + (body + more);
    assert x[|head| + 4..] == body + more && (body + more)[..|body|] == body;
  }

  lemma UriKeeps(h: Head)
    ensures SplitUri(h).contentLength == h.contentLength && SplitUri(h).useChunked == h.useChunked
  {
    hide Find;
  }

  // ----- A written length -----

  lemma {:induction false} DecimalRead(n: nat)
    requires n < SIZE_LIMIT
    ensures Number(Digits(n), 10) == Some(n)
  {
    DecimalDigits(n);
    assert Digits(n)[..|Digits(n)|] == Digits(n);
  }

  lemma {:induction false} DecimalDigits(n: nat)
    ensures Digits(n) != [] && forall i | 0 <= i < |Digits(n)| :: Digit(Digits(n)[i], 10).Some?
    ensures Value(Digits(n), 10) == n && DigitRun(Digits(n), 10) == |Digits(n)|
  {
    if n < 10 {
      var s: bytes := [48 + n];
      assert Digits(n) == s && s[..0] == [] && Value([], 10) == 0 && s[1..] == [];
    } else {
      DecimalDigits(n / 10);
      var t := Digits(n / 10);
      assert Digits(n)[..|t|] == t;
    }
  }

  predicate IsLength(f: Field) {
    Lower(f.name) == Raw("content-length")
  }

  predicate IsEncoding(f: Field) {
    Lower(f.name) == Raw("transfer-encoding")
  }

  /** What decides how the body is framed. */
  function Framing(h: Head): (nat, nat, bool, bool) {
    (h.contentLength, h.lengthCount, h.chunkedSeen, h.useChunked)
  }

  lemma {:induction false} TakeOther(h: Head, fields: seq<Field>)
    requires forall f | f in fields :: !IsLength(f) && !IsEncoding(f)
    ensures TakeAll(h, fields).1 && Framing(TakeAll(h, fields).0) == Framing(h)
    decreases |fields|
  {
    hide Lower, Raw;
    if fields != [] {
      assert fields[0] in fields && forall f | f in fields[1..] :: f in fields;
      TakeOther(Take(h, fields[0]).0, fields[1..]);
    }
  }

  lemma TakeLength(h: Head, f: Field, n: nat)
    requires IsLength(f) && f.value == Digits(n) && n < SIZE_LIMIT && h.lengthCount == 0
    ensures Take(h, f).1 && Framing(Take(h, f).0) == (n, 1, h.chunkedSeen, h.useChunked)
  {
    hide Lower, Number, Digits;
    DecimalRead(n);
    assert |Raw("content-length")| == 14 && |Raw("transfer-encoding")| == 17;
  }

  /** One length among fields that are neither lengths nor encodings is the length of the body. */
  lemma {:induction false} TakeSized(h: Head, fields: seq<Field>, k: nat, n: nat)
    requires k < |fields| && IsLength(fields[k]) && fields[k].value == Digits(n) && n < SIZE_LIMIT && h.lengthCount == 0
    requires forall i | 0 <= i < |fields| && i != k :: !IsLength(fields[i]) && !IsEncoding(fields[i])
    ensures TakeAll(h, fields).1 && Framing(TakeAll(h, fields).0) == (n, 1, h.chunkedSeen, h.useChunked)
    decreases |fields|
  {
    hide IsLength, IsEncoding, Take, Digits;
    var f, tail := fields[0], fields[1..];
    assert forall i | 0 <= i < |tail| :: tail[i] == fields[i + 1];
    if k == 0 {
      TakeLength(h, f, n);
      TakeOther(Take(h, f).0, tail);
    } else {
      OneOther(h, f);
      TakeSized(Take(h, f).0, tail, k - 1, n);
    }
  }

  lemma OneOther(h: Head, f: Field)
    requires !IsLength(f) && !IsEncoding(f)
    ensures Take(h, f).1 && Framing(Take(h, f).0) == Framing(h)
  {
    hide Lower, Raw;
  }

  /**
   * A request with one Content-Length field, whose value is the length of the body in decimal, and no transfer
   * encoding comes back complete: request line, every field, and exactly that body, whatever follows it.
   */
  lemma {:induction false} SizedRequestReadBack(verb: bytes, uri: bytes, version: bytes, fields: seq<Field>, k: nat,
                                                body: bytes, more: bytes)
    requires GoodRequestLine(verb, uri, version) && GoodFields(fields) && |body| < SIZE_LIMIT
    requires k < |fields| && IsLength(fields[k]) && fields[k].value == Digits(|body|)
    requires forall i | 0 <= i < |fields| && i != k :: !IsLength(fields[i]) && !IsEncoding(fields[i])
    requires forall i, j | 0 <= i < j < |fields| :: fields[i].name != fields[j].name
    ensures var (p, status) := Feed(FRESH, RenderHead(verb, uri, version, fields) + [13, 10, 13, 10] + (body + more));
            && status == Complete && p.body == body
            && RequestSpelled(p.head.request, verb, uri, version)
            && forall f | f in fields :: f.name in p.head.request.headers && p.head.request.headers[f.name] == f.value
  {
    hide Feed, TakeAll, RenderHead, GoodFields, GoodRequestLine, IsLength, IsEncoding, Digits, Find, MethodOf, Raw, Lower;
    var h := LineTaken(verb, uri, version);
    TakeSized(h, fields, k, |body|);
    FieldsStored(h, fields);
    SizedBodyRead(verb, uri, version, fields, body, more);
    LineSpelled(verb, uri, version, TakeAll(h, fields).0);
  }
}
