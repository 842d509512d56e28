/**
 * The HTTP/1.1 request parser of src/http_parser.cpp as a function of its state and the bytes fed to it. A state
 * carries the same fields as the parser object; `start` is the saved body position.
 */
module Http1 {
  import opened Common

  const CRLF: bytes := [13, 10]
  const END_OF_HEAD: bytes := [13, 10, 13, 10]
  const MAX_HEAD := 16 * 1024
  const SIZE_LIMIT: nat := 0x1_0000_0000_0000_0000

  datatype Status = Incomplete | Complete | Failed

  datatype Problem =
    | NoProblem | HeadTooLarge | InvalidRequestLine | NullInRequestLine | NoMethod | NoUri
    | UnsupportedVersion(version: bytes) | NullInHeader | InvalidHeaderLine | SpaceInName
    | DuplicateLength | InvalidLength | InvalidChunkSize

  datatype Method = GET | POST | PUT | DELETE | HEAD | OPTIONS | PATCH | UNKNOWN

  datatype Request = Request(verb: Method, methodText: bytes, uri: bytes, path: bytes, query: bytes,
                             version: bytes, headers: map<bytes, bytes>)

  datatype Head = Head(request: Request, problem: Problem, contentLength: nat, hasLength: bool,
                       chunkedSeen: bool, useChunked: bool, lengthCount: nat)

  datatype Parser = Parser(buffer: bytes, head: Head, headersDone: bool, start: nat, received: nat,
                           body: bytes, remaining: nat, reading: bool, done: bool)

  const NO_REQUEST := Request(UNKNOWN, [], [], [], [], [], map[])
  const FRESH_HEAD := Head(NO_REQUEST, NoProblem, 0, false, false, false, 0)
  const FRESH := Parser([], FRESH_HEAD, false, 0, 0, [], 0, true, false)

  // ----- Searching -----

  /** First occurrence of a pattern at or after a position. */
  function Find(s: bytes, pat: bytes, from: nat): (r: Option<nat>)
    ensures r.Some? ==> from <= r.value && r.value + |pat| <= |s| && s[r.value..r.value + |pat|] == pat
    decreases |s| - from
  {
    if from + |pat| > |s| then None
    else if s[from..from + |pat|] == pat then Some(from)
    else if from == |s| then None
    else Find(s, pat, from + 1)
  }

  lemma {:induction false} FindExtend(s: bytes, t: bytes, pat: bytes, from: nat)
    requires Find(s, pat, from).Some?
    ensures Find(s + t, pat, from) == Find(s, pat, from)
    decreases |s| - from
  {
    assert (s + t)[from..from + |pat|] == s[from..from + |pat|];
    if s[from..from + |pat|] != pat {
      FindExtend(s, t, pat, from + 1);
    }
  }

  /** No occurrence starts before the one found. */
  lemma {:induction false} FindFirst(s: bytes, pat: bytes, from: nat, i: nat)
    requires from <= i && i + |pat| <= |s| && s[i..i + |pat|] == pat
    ensures Find(s, pat, from).Some? && Find(s, pat, from).value <= i
    decreases i - from
  {
    if from < i && s[from..from + |pat|] != pat {
      FindFirst(s, pat, from + 1, i);
    }
  }

  // ----- Numbers, as std::from_chars reads them -----

  function Digit(b: byte, base: nat): Option<nat> {
    if 48 <= b <= 57 then Some(b - 48)
    else if base == 16 && 97 <= b <= 102 then Some(b - 87)
    else if base == 16 && 65 <= b <= 70 then Some(b - 55)
    else None
  }

  function DigitRun(s: bytes, base: nat): (n: nat)
    ensures n <= |s| && forall i | 0 <= i < n :: Digit(s[i], base).Some?
    ensures n < |s| ==> Digit(s[n], base).None?
  {
    if s == [] || Digit(s[0], base).None? then 0 else 1 + DigitRun(s[1..], base)
  }

  function Value(digits: bytes, base: nat): nat
    requires forall i | 0 <= i < |digits| :: Digit(digits[i], base).Some?
  {
    if digits == [] then 0
    else Value(digits[..|digits| - 1], base) * base + Digit(digits[|digits| - 1], base).value
  }

  /** The longest run of digits in front; an error if there is none or it does not fit. */
  function Number(s: bytes, base: nat): Option<nat> {
    var n := DigitRun(s, base);
    if n == 0 || Value(s[..n], base) >= SIZE_LIMIT then None else Some(Value(s[..n], base))
  }

  // ----- The head -----

  predicate Blank(b: byte) {
    b == 32 || b == 9
  }

  predicate AllBlank(s: bytes) {
    forall i | 0 <= i < |s| :: Blank(s[i])
  }

  function DropFront(s: bytes): bytes {
    if s != [] && Blank(s[0]) then DropFront(s[1..]) else s
  }

  function DropBack(s: bytes): bytes {
    if s != [] && Blank(s[|s| - 1]) then DropBack(s[..|s| - 1]) else s
  }

  /** Blanks around a value go, but a value of only blanks is kept. */
  function Trim(s: bytes): bytes {
    if AllBlank(s) then s else DropBack(DropFront(s))
  }

  function MethodOf(text: bytes): Method {
    if text == Raw("GET") then GET
    else if text == Raw("POST") then POST
    else if text == Raw("PUT") then PUT
    else if text == Raw("DELETE") then DELETE
    else if text == Raw("HEAD") then HEAD
    else if text == Raw("OPTIONS") then OPTIONS
    else if text == Raw("PATCH") then PATCH
    else UNKNOWN
  }

  function ParseRequestLine(h: Head, line: bytes): (Head, bool) {
    if 0 in line then (h.(problem := NullInRequestLine), false)
    else
      match Find(line, [32], 0)
      case None => (h.(problem := NoMethod), false)
      case Some(i) =>
        var h1 := h.(request := h.request.(methodText := line[..i], verb := MethodOf(line[..i])));
        var rest := line[i + 1..];
        match Find(rest, [32], 0)
        case None => (h1.(problem := NoUri), false)
        case Some(j) =>
          var h2 := h1.(request := h1.request.(uri := rest[..j], version := rest[j + 1..]));
          if rest[j + 1..] != Raw("HTTP/1.0") && rest[j + 1..] != Raw("HTTP/1.1")
          then (h2.(problem := UnsupportedVersion(rest[j + 1..])), false)
          else (h2, true)
  }

  /** Content-Length is remembered once; a second one is refused. */
  function NoteLength(h: Head, value: bytes): (Head, bool) {
    var h1 := h.(lengthCount := h.lengthCount + 1);
    if h1.lengthCount > 1 then (h1.(problem := DuplicateLength), false)
    else
      match Number(value, 10)
      case None => (h1.(hasLength := true, problem := InvalidLength), false)
      case Some(n) => (h1.(hasLength := true, contentLength := n), true)
  }

  function NoteEncoding(h: Head, value: bytes): Head {
    if Find(Lower(value), Raw("chunked"), 0).Some? then h.(chunkedSeen := true) else h
  }

  function ParseHeaderLine(h: Head, line: bytes): (Head, bool) {
    if 0 in line then (h.(problem := NullInHeader), false)
    else
      match Find(line, [58], 0)
      case None => (h.(problem := InvalidHeaderLine), false)
      case Some(i) =>
        var name, value := line[..i], Trim(line[i + 1..]);
        if 32 in name || 9 in name then (h.(problem := SpaceInName), false)
        else
          var (h1, ok) := if Lower(name) == Raw("content-length") then NoteLength(h, value) else (h, true);
          if !ok then (h1, false)
          else
            var h2 := if Lower(name) == Raw("transfer-encoding") then NoteEncoding(h1, value) else h1;
            (h2.(request := h2.request.(headers := h2.request.headers[name := value])), true)
  }

  function ParseLines(h: Head, remaining: bytes): (Head, bool)
    decreases |remaining|
  {
    if remaining == [] then (h, true)
    else
      var (line, rest) := CutLine(remaining);
      var (h1, ok) := if line == [] then (h, true) else ParseHeaderLine(h, line);
      if !ok then (h1, false) else ParseLines(h1, rest)
  }

  function CutLine(remaining: bytes): (r: (bytes, bytes))
    requires remaining != []
    ensures |r.1| < |remaining|
  {
    match Find(remaining, CRLF, 0)
    case None => (remaining, [])
    case Some(i) => (remaining[..i], remaining[i + 2..])
  }

  /** Chunked encoding wins over a content length. */
  function Validate(h: Head): Head {
    if h.chunkedSeen && h.hasLength then h.(useChunked := true, contentLength := 0, hasLength := false)
    else if h.chunkedSeen then h.(useChunked := true)
    else h
  }

  function SplitUri(h: Head): Head {
    match Find(h.request.uri, [63], 0)
    case None => h.(request := h.request.(path := h.request.uri))
    case Some(i) => h.(request := h.request.(path := h.request.uri[..i], query := h.request.uri[i + 1..]))
  }

  function ParseHead(h: Head, section: bytes): (Head, bool) {
    match Find(section, CRLF, 0)
    case None => (h.(problem := InvalidRequestLine), false)
    case Some(i) =>
      var (h1, ok1) := ParseRequestLine(h, section[..i]);
      if !ok1 then (h1, false)
      else
        var (h2, ok2) := ParseLines(h1, section[i + 2..]);
        if !ok2 then (h2, false) else (SplitUri(Validate(h2)), true)
  }

  // ----- The body -----

  /** The loop variables of the chunk reader. */
  datatype Cursor = Cursor(pos: nat, body: bytes, remaining: nat, reading: bool)

  /** How the loop ends: input used up, no complete size line, no complete CRLF after data, last chunk, bad size. */
  datatype Exit = AtEnd | NoLine | NoCrlf | Last(ended: bool) | BadSize

  function UpToSemicolon(s: bytes): bytes {
    match Find(s, [59], 0)
    case None => s
    case Some(i) => s[..i]
  }

  function TakeData(buf: bytes, c: Cursor): (r: Cursor)
    requires c.pos < |buf|
    ensures c.pos <= r.pos <= |buf|
  {
    var n := if |buf| - c.pos < c.remaining then |buf| - c.pos else c.remaining;
    Cursor(c.pos + n, c.body + buf[c.pos..c.pos + n], c.remaining - n, false)
  }

  function Loop(buf: bytes, c: Cursor): (Cursor, Exit)
    decreases |buf| - c.pos
  {
    if c.pos >= |buf| then (c, AtEnd)
    else if c.reading then
      match Find(buf, CRLF, c.pos)
      case None => (c, NoLine)
      case Some(e) =>
        match Number(UpToSemicolon(buf[c.pos..e]), 16)
        case None => (c, BadSize)
        case Some(n) =>
          if n == 0 then (c, Last(e + 4 <= |buf|))
          else Loop(buf, Cursor(e + 2, c.body, n, false))
    else
      var d := TakeData(buf, c);
      if d.remaining > 0 then (d, AtEnd)
      else if d.pos + 2 > |buf| then (d, NoCrlf)
      else Loop(buf, d.(pos := d.pos + 2, reading := true))
  }

  function CursorOf(p: Parser): Cursor {
    Cursor(p.start, p.body, p.remaining, p.reading)
  }

  /** What is kept of the loop variables. Only the exit at the end of input saves the position. */
  function Outcome(p: Parser, c: Cursor, exit: Exit): (Parser, Status) {
    var q := p.(body := c.body, remaining := c.remaining, reading := c.reading);
    match exit
    case AtEnd => (q.(start := c.pos), Incomplete)
    case NoLine => (q, Incomplete)
    case NoCrlf => (q, Incomplete)
    case Last(ended) => (q.(done := true), if ended then Complete else Incomplete)
    case BadSize => (q.(head := q.head.(problem := InvalidChunkSize)), Failed)
  }

  function Chunked(p: Parser): (Parser, Status) {
    if p.done then (p, Complete)
    else
      var (c, exit) := Loop(p.buffer, CursorOf(p));
      Outcome(p, c, exit)
  }

  function Filled(p: Parser): Parser {
    if p.start < |p.buffer| then p.(received := |p.buffer| - p.start, body := p.buffer[p.start..]) else p
  }

  function Capped(p: Parser): (Parser, Status) {
    if p.received < p.head.contentLength then (p, Incomplete)
    else if |p.body| > p.head.contentLength then (p.(body := p.body[..p.head.contentLength]), Complete)
    else (p, Complete)
  }

  function Sized(p: Parser): (Parser, Status) {
    Capped(Filled(p))
  }

  function Body(p: Parser): (Parser, Status) {
    if p.head.useChunked then Chunked(p) else Sized(p)
  }

  // ----- feed -----

  function Feed(p: Parser, data: bytes): (Parser, Status) {
    var q := p.(buffer := p.buffer + data);
    if q.headersDone then Body(q)
    else
      match Find(q.buffer, END_OF_HEAD, 0)
      case None =>
        if |q.buffer| > MAX_HEAD then (q.(head := q.head.(problem := HeadTooLarge)), Failed) else (q, Incomplete)
      case Some(e) =>
        var (h, ok) := ParseHead(q.head, q.buffer[..e]);
        if !ok then (q.(head := h), Failed)
        else Body(q.(head := h, headersDone := true, start := e + 4))
  }
}

/** Framing decisions that hold for every accepted head. */
module Http1Head {
  import opened Common
  import opened Http1

  /** At most one Content-Length was seen. */
  predicate LengthOnce(h: Head) {
    h.lengthCount <= 1 && (h.hasLength ==> h.lengthCount == 1) && !h.useChunked
  }

  lemma {:induction false} LineKeeps(h: Head, line: bytes)
    requires LengthOnce(h)
    ensures ParseHeaderLine(h, line).1 ==> LengthOnce(ParseHeaderLine(h, line).0)
  {
    hide Find, Number, Lower, Trim, Raw;
  }

  lemma {:induction false} LinesKeep(h: Head, remaining: bytes)
    requires LengthOnce(h)
    ensures ParseLines(h, remaining).1 ==> LengthOnce(ParseLines(h, remaining).0)
    decreases |remaining|
  {
    hide ParseHeaderLine, LengthOnce;
    if remaining != [] {
      var (line, rest) := CutLine(remaining);
      LineKeeps(h, line);
      if line == [] {
        LinesKeep(h, rest);
      } else if ParseHeaderLine(h, line).1 {
        LinesKeep(ParseHeaderLine(h, line).0, rest);
      }
    }
  }

  /** An accepted head is framed one way: chunked without a length, or by at most one length. */
  lemma {:induction false} OneFraming(section: bytes)
    requires ParseHead(FRESH_HEAD, section).1
    ensures var h := ParseHead(FRESH_HEAD, section).0;
            && h.lengthCount <= 1
            && (h.useChunked <==> h.chunkedSeen)
            && (h.useChunked ==> !h.hasLength && h.contentLength == 0)
  {
    hide Find, ParseLines, LengthOnce;
    var i := Find(section, CRLF, 0).value;
    var h1 := ParseRequestLine(FRESH_HEAD, section[..i]).0;
    RequestLineKeeps(FRESH_HEAD, section[..i]);
    LinesKeep(h1, section[i + 2..]);
    LinesLength(h1, section[i + 2..]);
    ValidateFrames(ParseLines(h1, section[i + 2..]).0);
  }

  lemma RequestLineKeeps(h: Head, line: bytes)
    requires h == FRESH_HEAD
    ensures var r := ParseRequestLine(h, line).0; LengthOnce(r) && !r.hasLength && r.contentLength == 0
  {
    hide Find, Raw, MethodOf;
  }

  lemma {:induction false} LineLength(h: Head, line: bytes)
    requires !h.hasLength ==> h.contentLength == 0
    ensures var (r, ok) := ParseHeaderLine(h, line); ok && !r.hasLength ==> r.contentLength == 0
  {
    hide Find, Number, Lower, Trim, Raw;
  }

  lemma {:induction false} LinesLength(h: Head, remaining: bytes)
    requires !h.hasLength ==> h.contentLength == 0
    ensures var (r, ok) := ParseLines(h, remaining); ok && !r.hasLength ==> r.contentLength == 0
    decreases |remaining|
  {
    hide ParseHeaderLine;
    if remaining != [] {
      var (line, rest) := CutLine(remaining);
      LineLength(h, line);
      if line == [] {
        LinesLength(h, rest);
      } else if ParseHeaderLine(h, line).1 {
        LinesLength(ParseHeaderLine(h, line).0, rest);
      }
    }
  }

  lemma ValidateFrames(h: Head)
    requires LengthOnce(h) && (!h.hasLength ==> h.contentLength == 0)
    ensures var r := SplitUri(Validate(h));
            && r.lengthCount <= 1
            && (r.useChunked <==> r.chunkedSeen)
            && (r.useChunked ==> !r.hasLength && r.contentLength == 0)
  {
    hide Find;
  }
}
