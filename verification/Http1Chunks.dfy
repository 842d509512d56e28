/** Chunked bodies as section 4.1 of RFC 7230 writes them, read back by the parser in one feed and in pieces. */
module Http1Chunks {
  import opened Common
  import opened Http1
  import opened Http1Text
  import opened Http1Split
  import opened HttpText

  /** A size in hexadecimal digits of either case and any number of leading zeros, an extension, and the data. */
  datatype Chunk = Chunk(digits: bytes, ext: bytes, data: bytes)

  predicate SizeLine(digits: bytes, ext: bytes, size: nat) {
    && digits != [] && IsHex(digits, size) && size < 0x1_0000_0000_0000_0000
    && (ext == [] || ext[0] == 59)
    && Find(digits + ext, CRLF, 0).None?
  }

  predicate WellFormed(c: Chunk) {
    c.data != [] && SizeLine(c.digits, c.ext, |c.data|)
  }

  predicate AllWellFormed(chunks: seq<Chunk>) {
    forall c | c in chunks :: WellFormed(c)
  }

  function Line(c: Chunk): bytes {
    c.digits + c.ext
  }

  function RenderChunk(c: Chunk): bytes {
    Line(c) + [13, 10] + c.data + [13, 10]
  }

  /** The chunks, then a line of size zero and an empty line. */
  function Render(chunks: seq<Chunk>, last: bytes): bytes {
    if chunks == [] then last + [13, 10] + [13, 10] else RenderChunk(chunks[0]) + Render(chunks[1..], last)
  }

  predicate LastLine(last: bytes) {
    exists k: nat :: k <= |last| && SizeLine(last[..k], last[k..], 0)
  }

  function Data(chunks: seq<Chunk>): bytes {
    if chunks == [] then [] else chunks[0].data + Data(chunks[1..])
  }

  // ----- One size line -----

  lemma HexDigitRead(d: byte, v: nat)
    requires IsHexDigit(d, v)
    ensures Digit(d, 16) == Some(v)
  {
    var low, high := "0123456789abcdef", "0123456789ABCDEF";
    assert Raw(low)[v] == low[v] as int % 256 && Raw(high)[v] == high[v] as int % 256;
  }

  lemma {:induction false} HexRead(digits: bytes, n: nat)
    requires IsHex(digits, n)
    ensures AllHex(digits) && Value(digits, 16) == n
    decreases |digits|
  {
    hide IsHexDigit, Digit;
    if digits != [] {
      HexDigitRead(digits[|digits| - 1], n % 16);
      HexRead(digits[..|digits| - 1], n / 16);
      assert forall i | 0 <= i < |digits| - 1 :: digits[i] == digits[..|digits| - 1][i];
    }
  }

  lemma {:induction false} SizeRead(digits: bytes, ext: bytes, size: nat)
    requires SizeLine(digits, ext, size)
    ensures Number(UpToSemicolon(digits + ext), 16) == Some(size)
  {
    hide Find, Value, DigitRun, IsHex;
    HexRead(digits, size);
    UpTo(digits, ext);
    FullRun(digits);
    assert digits[..|digits|] == digits;
  }

  lemma {:induction false} UpTo(digits: bytes, ext: bytes)
    requires AllHex(digits) && (ext == [] || ext[0] == 59)
    ensures UpToSemicolon(digits + ext) == digits
  {
    hide Find;
    var s := digits + ext;
    if ext != [] {
      assert s[|digits|..|digits| + 1] == [59];
      FindFirst(s, [59], 0, |digits|);
    }
    if Find(s, [59], 0).Some? {
      var i := Find(s, [59], 0).value;
      assert s[i..i + 1][0] == 59;
      forall k | 0 <= k < |digits|
        ensures s[k] != 59
      {
        assert s[k] == digits[k];
      }
    }
  }

  /** A line cut short has no line end yet. */
  lemma {:induction false} LineCut(pre: bytes, line: bytes, n: nat)
    requires Find(line, CRLF, 0).None? && n < |line| + 2
    ensures Find(pre + (line + CRLF)[..n], CRLF, |pre|).None?
  {
    hide Find;
    var t := pre + (line + CRLF)[..n];
    if Find(t, CRLF, |pre|).Some? {
      var e := Find(t, CRLF, |pre|).value;
      var whole := pre + line + CRLF;
      assert whole[e..e + 2] == t[e..e + 2];
      InsideLine(pre, line, CRLF, e);
    }
  }

  // ----- One chunk -----

  function At(pos: nat, body: bytes): Cursor {
    Cursor(pos, body, 0, true)
  }

  lemma {:induction false} LineStep(pre: bytes, c: Chunk, s: bytes, body: bytes)
    requires WellFormed(c)
    ensures var buf := pre + Line(c) + CRLF + s;
            var pos := |pre + Line(c)| + 2;
            Loop(buf, At(|pre|, body)) == Loop(buf, Cursor(pos, body, |c.data|, false))
  {
    hide Find, Number, UpToSemicolon, TakeData;
    var buf := pre + Line(c) + CRLF + s;
    LineFound(pre, Line(c), s);
    SizeRead(c.digits, c.ext, |c.data|);
    assert buf[|pre|..|pre| + |Line(c)|] == Line(c);
  }

  lemma {:induction false} ChunkStep(pre: bytes, c: Chunk, s: bytes, body: bytes)
    requires WellFormed(c)
    ensures var buf := pre + RenderChunk(c) + s;
            Loop(buf, At(|pre|, body)) == Loop(buf, At(|pre + RenderChunk(c)|, body + c.data))
  {
    hide Find, Number, UpToSemicolon, SizeLine;
    var buf := pre + RenderChunk(c) + s;
    assert buf == pre + Line(c) + CRLF + (c.data + CRLF + s);
    LineStep(pre, c, c.data + CRLF + s, body);
    var pos := |pre + Line(c)| + 2;
    assert buf[pos..pos + |c.data|] == c.data;
  }

  /** A chunk cut after its size line, or strictly inside its data, leaves the loop at the end of input. */
  lemma {:induction false} DataCut(pre: bytes, c: Chunk, n: nat, body: bytes)
    requires WellFormed(c) && n < |c.data|
    ensures Loop(pre + Line(c) + CRLF + c.data[..n], At(|pre|, body)).1 == AtEnd
  {
    hide Find, Number, UpToSemicolon, SizeLine;
    LineStep(pre, c, c.data[..n], body);
  }

  lemma {:induction false} CrlfCut(pre: bytes, c: Chunk, n: nat, body: bytes)
    requires WellFormed(c) && n < 2
    ensures var (d, exit) := Loop(pre + Line(c) + CRLF + c.data + CRLF[..n], At(|pre|, body));
            exit == NoCrlf && d.pos > |pre|
  {
    hide Find, Number, UpToSemicolon, SizeLine;
    var buf := pre + Line(c) + CRLF + c.data + CRLF[..n];
    assert buf == pre + Line(c) + CRLF + (c.data + CRLF[..n]);
    LineStep(pre, c, c.data + CRLF[..n], body);
  }

  lemma {:induction false} LastStep(pre: bytes, last: bytes, s: bytes, body: bytes)
    requires LastLine(last)
    ensures Loop(pre + last + CRLF + s, At(|pre|, body)) == (At(|pre|, body), Last(|s| >= 2))
  {
    hide Find, Number, UpToSemicolon;
    var buf := pre + last + CRLF + s;
    var k: nat :| k <= |last| && SizeLine(last[..k], last[k..], 0);
    assert last[..k] + last[k..] == last;
    LineFound(pre, last, s);
    SizeRead(last[..k], last[k..], 0);
    assert buf[|pre|..|pre| + |last|] == last;
  }

  // ----- A whole body -----

  /** Any list of chunks decodes in one feed to the concatenation of its data. */
  lemma {:induction false} BodyDecoded(pre: bytes, chunks: seq<Chunk>, last: bytes, body: bytes)
    requires AllWellFormed(chunks) && LastLine(last)
    ensures var (d, exit) := Loop(pre + Render(chunks, last), At(|pre|, body));
            exit == Last(true) && d.body == body + Data(chunks)
    decreases |chunks|
  {
    hide Loop, WellFormed, LastLine;
    if chunks == [] {
      assert pre + Render(chunks, last) == pre + last + CRLF + CRLF;
      LastStep(pre, last, CRLF, body);
    } else {
      var c, rest := chunks[0], Render(chunks[1..], last);
      assert pre + Render(chunks, last) == pre + RenderChunk(c) + rest;
      assert c in chunks && forall x | x in chunks[1..] :: x in chunks;
      ChunkStep(pre, c, rest, body);
      BodyDecoded(pre + RenderChunk(c), chunks[1..], last, body + c.data);
      assert body + c.data + Data(chunks[1..]) == body + (c.data + Data(chunks[1..]));
    }
  }

  /** How the loop ends when the body is cut after n bytes. */
  function CutExit(chunks: seq<Chunk>, last: bytes, n: nat): Exit
    decreases |chunks|
  {
    if n == 0 then AtEnd
    else if chunks == [] then
      if n < |last| + 2 then NoLine else Last(n >= |last| + 4)
    else
      var line, data := |Line(chunks[0])| + 2, |chunks[0].data|;
      if n < line then NoLine
      else if n < line + data then AtEnd
      else if n < line + data + 2 then NoCrlf
      else CutExit(chunks[1..], last, n - line - data - 2)
  }

  /** The cut lies inside the first size line. */
  predicate InFirstLine(chunks: seq<Chunk>, last: bytes, n: nat) {
    n < (if chunks == [] then |last| else |Line(chunks[0])|) + 2
  }

  lemma {:induction false} CutInChunk(pre: bytes, c: Chunk, rest: bytes, n: nat, body: bytes)
    requires WellFormed(c) && 0 < n < |RenderChunk(c)|
    ensures var line, data := |Line(c)| + 2, |c.data|;
            var (d, exit) := Loop(pre + (RenderChunk(c) + rest)[..n], At(|pre|, body));
            && exit == (if n < line then NoLine else if n < line + data then AtEnd else NoCrlf)
            && (exit.NoLine? ==> d.pos == |pre|) && (exit.NoCrlf? ==> d.pos > |pre|)
  {
    hide Loop, SizeLine, Find;
    var line, data := |Line(c)| + 2, |c.data|;
    var t := (RenderChunk(c) + rest)[..n];
    if n < line {
      assert t == (Line(c) + CRLF)[..n];
      assert Find(Line(c), CRLF, 0).None? by { LineClear(c); }
      LineCut(pre, Line(c), n);
      NoLineExit(pre + t, At(|pre|, body));
    } else if n < line + data {
      assert pre + t == pre + Line(c) + CRLF + c.data[..n - line];
      DataCut(pre, c, n - line, body);
    } else {
      assert pre + t == pre + Line(c) + CRLF + c.data + CRLF[..n - line - data];
      CrlfCut(pre, c, n - line - data, body);
    }
  }

  lemma LineClear(c: Chunk)
    requires WellFormed(c)
    ensures Find(Line(c), CRLF, 0).None?
  {
  }

  lemma NoLineExit(buf: bytes, c: Cursor)
    requires c.pos < |buf| && c.reading && Find(buf, CRLF, c.pos).None?
    ensures Loop(buf, c) == (c, NoLine)
  {
  }

  lemma {:induction false} CutInLast(pre: bytes, last: bytes, n: nat, body: bytes)
    requires LastLine(last) && 0 < n <= |last| + 4
    ensures var (d, exit) := Loop(pre + (last + CRLF + CRLF)[..n], At(|pre|, body));
            exit == (if n < |last| + 2 then NoLine else Last(n >= |last| + 4)) && d.pos == |pre|
  {
    hide Loop, SizeLine, Find;
    var t := (last + CRLF + CRLF)[..n];
    if n < |last| + 2 {
      assert t == (last + CRLF)[..n];
      LastClear(last);
      LineCut(pre, last, n);
      NoLineExit(pre + t, At(|pre|, body));
    } else {
      assert pre + t == pre + last + CRLF + CRLF[..n - |last| - 2];
      LastStep(pre, last, CRLF[..n - |last| - 2], body);
    }
  }

  lemma LastClear(last: bytes)
    requires LastLine(last)
    ensures Find(last, CRLF, 0).None?
  {
    var k: nat :| k <= |last| && SizeLine(last[..k], last[k..], 0);
    assert last[..k] + last[k..] == last;
  }

  lemma {:induction false} CutEnds(pre: bytes, chunks: seq<Chunk>, last: bytes, n: nat, body: bytes)
    requires AllWellFormed(chunks) && LastLine(last) && n <= |Render(chunks, last)|
    ensures var (d, exit) := Loop(pre + Render(chunks, last)[..n], At(|pre|, body));
            && exit == CutExit(chunks, last, n)
            && (exit.NoLine? ==> (d.pos == |pre| <==> InFirstLine(chunks, last, n)))
            && (exit.NoCrlf? ==> d.pos > |pre|)
    decreases |chunks|
  {
    hide Loop, WellFormed, LastLine;
    if n == 0 {
      assert pre + Render(chunks, last)[..0] == pre;
      EndExit(pre, At(|pre|, body));
    } else if chunks == [] {
      CutInLast(pre, last, n, body);
    } else {
      var c, rest := chunks[0], Render(chunks[1..], last);
      assert c in chunks && forall x | x in chunks[1..] :: x in chunks;
      if n < |RenderChunk(c)| {
        CutInChunk(pre, c, rest, n, body);
      } else {
        var m := n - |RenderChunk(c)|;
        assert Render(chunks, last)[..n] == RenderChunk(c) + rest[..m];
        assert pre + Render(chunks, last)[..n] == pre + RenderChunk(c) + rest[..m];
        ChunkStep(pre, c, rest[..m], body);
        CutEnds(pre + RenderChunk(c), chunks[1..], last, m, body + c.data);
        LoopAdvances(pre + RenderChunk(c) + rest[..m], At(|pre + RenderChunk(c)|, body + c.data));
      }
    }
  }

  // ----- A whole request -----

  /** A head that the parser accepts as chunked, and the parser after it. */
  ghost predicate ChunkedHead(head: bytes, h: Head) {
    Find(head + END_OF_HEAD, END_OF_HEAD, 0) == Some(|head|) && ParseHead(FRESH_HEAD, head) == (h, true) && h.useChunked
  }

  function BodyParser(head: bytes, h: Head, x: bytes): Parser {
    FRESH.(buffer := head + END_OF_HEAD + x, head := h, headersDone := true, start := |head| + 4)
  }

  lemma {:induction false} HeadRead(head: bytes, h: Head, x: bytes)
    requires ChunkedHead(head, h)
    ensures Ready(FRESH, head + END_OF_HEAD + x) == Some(BodyParser(head, h, x))
    ensures CursorOf(BodyParser(head, h, x)) == At(|head + END_OF_HEAD|, [])
  {
    hide Find, ParseHead;
    FindExtend(head + END_OF_HEAD, x, END_OF_HEAD, 0);
    var s := head + END_OF_HEAD + x;
    assert [] + s == s && s[..|head|] == head;
  }

  /** In one feed the request is complete and its body is the chunks' data. */
  lemma {:induction false} RequestDecoded(head: bytes, h: Head, chunks: seq<Chunk>, last: bytes)
    requires ChunkedHead(head, h) && AllWellFormed(chunks) && LastLine(last)
    ensures var (p, status) := Feed(FRESH, head + END_OF_HEAD + Render(chunks, last));
            status == Complete && p.body == Data(chunks) && p.head == h
  {
    hide Feed, Ready, Loop, Render, ChunkedHead, LastLine;
    var x := Render(chunks, last);
    HeadRead(head, h, x);
    FeedReady(FRESH, head + END_OF_HEAD + x);
    BodyDecoded(head + END_OF_HEAD, chunks, last, []);
    assert [] + Data(chunks) == Data(chunks);
    HeadChunked(head, h);
  }

  lemma HeadChunked(head: bytes, h: Head)
    requires ChunkedHead(head, h)
    ensures h.useChunked
  {
  }

  /** Where a feed may end: inside a head of at most 16 KB, after a size line, strictly inside data, or after a chunk. */
  predicate GoodEnd(head: bytes, chunks: seq<Chunk>, last: bytes, m: nat) {
    if m < |head| + 4 then m <= 16384 else CutExit(chunks, last, m - |head| - 4) == AtEnd
  }

  lemma {:induction false} GoodEndSaved(head: bytes, h: Head, chunks: seq<Chunk>, last: bytes, m: nat)
    requires ChunkedHead(head, h) && AllWellFormed(chunks) && LastLine(last)
    requires m <= |head + END_OF_HEAD + Render(chunks, last)| && GoodEnd(head, chunks, last, m)
    ensures Saved(FRESH, (head + END_OF_HEAD + Render(chunks, last))[..m])
  {
    hide Loop, Find, ParseHead, Render, LastLine;
    var total := head + END_OF_HEAD + Render(chunks, last);
    var x := total[..m];
    if m < |head| + 4 {
      HeadCut(head, h, Render(chunks, last), m);
    } else {
      var n := m - |head| - 4;
      assert x == head + END_OF_HEAD + Render(chunks, last)[..n];
      HeadRead(head, h, Render(chunks, last)[..n]);
      FeedReady(FRESH, x);
      CutEnds(head + END_OF_HEAD, chunks, last, n, []);
    }
  }

  lemma {:induction false} HeadCut(head: bytes, h: Head, rest: bytes, m: nat)
    requires ChunkedHead(head, h) && m < |head| + 4 && m <= MAX_HEAD
    ensures var x := (head + END_OF_HEAD + rest)[..m]; Ready(FRESH, x).None? && Feed(FRESH, x).1 == Incomplete
  {
    hide Find, ParseHead;
    var whole := head + END_OF_HEAD;
    var x := (whole + rest)[..m];
    assert x == whole[..m];
    assert whole == x + whole[m..] && [] + x == x;
    if Find(x, END_OF_HEAD, 0).Some? {
      FindExtend(x, whole[m..], END_OF_HEAD, 0);
    }
  }

  /** Fed in pieces that end at good positions, the request is decoded as in one feed. */
  lemma {:induction false} RequestDecodedInPieces(head: bytes, h: Head, chunks: seq<Chunk>, last: bytes, pieces: seq<bytes>)
    requires ChunkedHead(head, h) && AllWellFormed(chunks) && LastLine(last)
    requires pieces != [] && Concat(pieces) == head + END_OF_HEAD + Render(chunks, last)
    requires forall k | 0 < k < |pieces| :: GoodEnd(head, chunks, last, |Concat(pieces[..k])|)
    ensures var (p, status) := FeedAll(FRESH, pieces);
            status == Complete && p.body == Data(chunks) && p.head == h
  {
    hide Feed, FeedAll, Saved, Render, GoodEnd, ChunkedHead, LastLine;
    var total := head + END_OF_HEAD + Render(chunks, last);
    forall k | 0 < k < |pieces|
      ensures Saved(FRESH, Concat(pieces[..k]))
    {
      ConcatAppend(pieces[..k], pieces[k..]);
      assert pieces[..k] + pieces[k..] == pieces;
      var x := Concat(pieces[..k]);
      assert x == total[..|x|];
      GoodEndSaved(head, h, chunks, last, |x|);
    }
    PiecesAsOne(FRESH, pieces);
    RequestDecoded(head, h, chunks, last);
  }

  /**
   * For a body cut after n bytes, continuing is right whatever follows exactly when the cut is at a saved
   * position, inside the first size line, or after the whole body.
   */
  lemma {:induction false} CutResumableIff(head: bytes, h: Head, chunks: seq<Chunk>, last: bytes, n: nat)
    requires ChunkedHead(head, h) && AllWellFormed(chunks) && LastLine(last) && n <= |Render(chunks, last)|
    ensures var x := head + END_OF_HEAD + Render(chunks, last)[..n];
            (forall b :: Same(Feed(Feed(FRESH, x).0, b), Feed(FRESH, x + b))) <==>
            (InFirstLine(chunks, last, n) || CutExit(chunks, last, n) in {AtEnd, Last(true)})
  {
    hide Feed, Ready, Loop, Render, ChunkedHead, LastLine, Same, Resumable, InFirstLine, CutExit;
    var x := head + END_OF_HEAD + Render(chunks, last)[..n];
    HeadRead(head, h, Render(chunks, last)[..n]);
    FeedReady(FRESH, x);
    CutResumable(head, h, chunks, last, n);
    ResumableIff(FRESH, x);
  }

  lemma {:induction false} CutResumable(head: bytes, h: Head, chunks: seq<Chunk>, last: bytes, n: nat)
    requires ChunkedHead(head, h) && AllWellFormed(chunks) && LastLine(last) && n <= |Render(chunks, last)|
    ensures var q := BodyParser(head, h, Render(chunks, last)[..n]);
            && Chunked(q).1 != Failed && h.useChunked
            && (Resumable(q) <==> InFirstLine(chunks, last, n) || CutExit(chunks, last, n) in {AtEnd, Last(true)})
  {
    hide Loop, Render, ChunkedHead, LastLine, Find, InFirstLine, CutExit;
    var text := Render(chunks, last)[..n];
    HeadChunked(head, h);
    HeadRead(head, h, text);
    CutEnds(head + END_OF_HEAD, chunks, last, n, []);
    FirstLineExit(chunks, last, n);
    var buf, c := head + END_OF_HEAD + text, At(|head + END_OF_HEAD|, []);
    if Loop(buf, c).1.NoLine? && Loop(buf, c).0.pos != c.pos {
      MovedPastLine(buf, c);
    }
  }

  lemma {:induction false} FirstLineExit(chunks: seq<Chunk>, last: bytes, n: nat)
    ensures InFirstLine(chunks, last, n) ==> CutExit(chunks, last, n) in {AtEnd, NoLine}
    ensures !CutExit(chunks, last, n).BadSize?
    decreases |chunks|
  {
    if chunks != [] && n >= |RenderChunk(chunks[0])| {
      FirstLineExit(chunks[1..], last, n - |RenderChunk(chunks[0])|);
    }
  }
}
