/** What happens when a request arrives in pieces. */
module Http1Split {
  import opened Common
  import opened Http1
  import opened Http1Text

  /** The parser as it enters the body code, once the head is complete. */
  function Ready(p: Parser, data: bytes): Option<Parser> {
    var q := p.(buffer := p.buffer + data);
    if q.headersDone then Some(q)
    else
      match Find(q.buffer, END_OF_HEAD, 0)
      case None => None
      case Some(e) =>
        var (h, ok) := ParseHead(q.head, q.buffer[..e]);
        if ok then Some(q.(head := h, headersDone := true, start := e + 4)) else None
  }

  lemma {:induction false} FeedReady(p: Parser, data: bytes)
    requires Ready(p, data).Some?
    ensures Feed(p, data) == Body(Ready(p, data).value)
  {
    hide Find, ParseHead, Body;
  }

  function Grown(p: Parser, more: bytes): Parser {
    p.(buffer := p.buffer + more)
  }

  /** More input does not change how the head was read. */
  lemma {:induction false} ReadyGrows(p: Parser, a: bytes, b: bytes)
    requires Ready(p, a).Some?
    ensures Ready(p, a + b) == Some(Grown(Ready(p, a).value, b))
  {
    hide Find, ParseHead;
    assert p.buffer + a + b == p.buffer + (a + b);
    if !p.headersDone {
      var e := Find(p.buffer + a, END_OF_HEAD, 0).value;
      FindExtend(p.buffer + a, b, END_OF_HEAD, 0);
      assert (p.buffer + a + b)[..e] == (p.buffer + a)[..e];
    }
  }

  lemma {:induction false} FeedNotReady(p: Parser, a: bytes, b: bytes)
    requires Ready(p, a).None? && Feed(p, a).1 != Failed
    ensures Feed(Feed(p, a).0, b) == Feed(p, a + b)
  {
    hide Find, ParseHead, Body;
    assert p.buffer + a + b == p.buffer + (a + b);
  }

  // ----- Bodies with a length -----

  lemma {:induction false} SizedSplit(q: Parser, b: bytes)
    ensures Sized(Grown(Sized(q).0, b)) == Sized(Grown(q, b))
  {
    if q.start < |q.buffer + b| {
      Refilled(q, Sized(q).0, b);
    } else {
      CappedTwice(q, b);
    }
  }

  lemma Refilled(q: Parser, r: Parser, b: bytes)
    requires q.start < |q.buffer + b| && r == q.(received := r.received, body := r.body)
    ensures Filled(Grown(r, b)) == Filled(Grown(q, b))
  {
  }

  lemma CappedTwice(q: Parser, b: bytes)
    requires q.start >= |q.buffer + b|
    ensures Sized(Grown(Sized(q).0, b)) == Sized(Grown(q, b))
  {
    assert Filled(q) == q && Filled(Grown(q, b)) == Grown(q, b);
    var r := Capped(q).0;
    assert Filled(Grown(r, b)) == Grown(r, b);
  }

  /** Without chunking, two feeds leave the same parser and answer as one feed of both. */
  lemma {:induction false} SplitUnchunked(p: Parser, a: bytes, b: bytes)
    requires Feed(p, a).1 != Failed
    requires Ready(p, a).Some? ==> !Ready(p, a).value.head.useChunked
    ensures Feed(Feed(p, a).0, b) == Feed(p, a + b)
  {
    hide Feed, Ready, Sized;
    if Ready(p, a).Some? {
      var q := Ready(p, a).value;
      ReadyFacts(p, a);
      FeedReady(p, a);
      ReadyGrows(p, a, b);
      FeedReady(p, a + b);
      SizedSplit(q, b);
      SizedKeeps(q);
      Resumed(Sized(q).0, b);
    } else {
      FeedNotReady(p, a, b);
    }
  }

  lemma ReadyFacts(p: Parser, a: bytes)
    requires Ready(p, a).Some?
    ensures Ready(p, a).value.headersDone
  {
    hide Find, ParseHead;
  }

  lemma SizedKeeps(q: Parser)
    ensures Sized(q).0.headersDone == q.headersDone && Sized(q).0.head == q.head
  {
  }

  lemma Resumed(q: Parser, b: bytes)
    requires q.headersDone
    ensures Feed(q, b) == Body(Grown(q, b))
  {
    hide Body;
  }

  // ----- Chunked bodies: the loop over a longer buffer -----

  lemma {:induction false} TakeMore(buf: bytes, b: bytes, c: Cursor)
    requires c.pos < |buf| && TakeData(buf, c).remaining > 0 && b != []
    ensures TakeData(buf, c).pos == |buf| && TakeData(buf + b, c) == TakeData(buf + b, TakeData(buf, c))
  {
    var d := TakeData(buf, c);
    var r := TakeData(buf + b, c);
    assert (buf + b)[c.pos..r.pos] == buf[c.pos..] + (buf + b)[|buf|..r.pos];
  }

  lemma {:induction false} TakeAll(buf: bytes, b: bytes, c: Cursor)
    requires c.pos < |buf| && TakeData(buf, c).remaining == 0
    ensures TakeData(buf + b, c) == TakeData(buf, c)
  {
    assert (buf + b)[c.pos..c.pos + c.remaining] == buf[c.pos..c.pos + c.remaining];
  }

  lemma {:induction false} TakeNone(buf: bytes, c: Cursor)
    requires c.pos < |buf| && c.remaining == 0 && !c.reading
    ensures TakeData(buf, c) == c
  {
    assert buf[c.pos..c.pos] == [] && c.body + [] == c.body;
  }

  lemma {:induction false} SameLine(buf: bytes, b: bytes, c: Cursor)
    requires c.pos < |buf| && Find(buf, CRLF, c.pos).Some?
    ensures Find(buf + b, CRLF, c.pos) == Find(buf, CRLF, c.pos)
    ensures var e := Find(buf, CRLF, c.pos).value; (buf + b)[c.pos..e] == buf[c.pos..e]
  {
    FindExtend(buf, b, CRLF, c.pos);
  }

  /** With more input the loop goes on from where it stopped, and a final verdict stands. */
  ghost predicate Continues(whole: bytes, more: bool, c: Cursor, d: Cursor, exit: Exit) {
    match exit
    case AtEnd => Loop(whole, c) == Loop(whole, d)
    case NoLine => Loop(whole, c) == Loop(whole, d)
    case NoCrlf => more ==> Loop(whole, c) == Loop(whole, d)
    case Last(ended) => Loop(whole, c).0 == d && Loop(whole, c).1.Last? && (ended ==> Loop(whole, c).1.ended)
    case BadSize => Loop(whole, c) == (d, BadSize)
  }

  /** Had the loop kept its true position, more input would always continue from there. */
  lemma {:induction false} LoopResumes(buf: bytes, b: bytes, c: Cursor)
    ensures var (d, exit) := Loop(buf, c); Continues(buf + b, b != [], c, d, exit)
    decreases |buf| - c.pos, 1
  {
    hide Find, Number, UpToSemicolon, TakeData;
    if c.pos >= |buf| {
    } else if c.reading {
      LineResumes(buf, b, c);
    } else {
      var d := TakeData(buf, c);
      if d.remaining > 0 {
        DataResumes(buf, b, c);
      } else if d.pos + 2 > |buf| {
        CrlfResumes(buf, b, c);
      } else {
        TakeAll(buf, b, c);
        LoopResumes(buf, b, d.(pos := d.pos + 2, reading := true));
      }
    }
  }

  lemma {:induction false} LineResumes(buf: bytes, b: bytes, c: Cursor)
    requires c.pos < |buf| && c.reading
    ensures var (d, exit) := Loop(buf, c); Continues(buf + b, b != [], c, d, exit)
    decreases |buf| - c.pos, 0
  {
    hide Find, Number, UpToSemicolon, TakeData;
    if Find(buf, CRLF, c.pos).Some? {
      var e := Find(buf, CRLF, c.pos).value;
      SameLine(buf, b, c);
      var n := Number(UpToSemicolon(buf[c.pos..e]), 16);
      if n.Some? && n.value > 0 {
        LoopResumes(buf, b, Cursor(e + 2, c.body, n.value, false));
      }
    }
  }

  lemma {:induction false} DataResumes(buf: bytes, b: bytes, c: Cursor)
    requires c.pos < |buf| && !c.reading && TakeData(buf, c).remaining > 0
    ensures Loop(buf + b, c) == Loop(buf + b, TakeData(buf, c))
  {
    hide Find, Number, UpToSemicolon;
    if b == [] {
      assert buf + b == buf;
    } else {
      hide TakeData;
      TakeMore(buf, b, c);
      TookData(buf, c);
    }
  }

  lemma TookData(buf: bytes, c: Cursor)
    requires c.pos < |buf|
    ensures !TakeData(buf, c).reading
  {
  }

  lemma {:induction false} CrlfResumes(buf: bytes, b: bytes, c: Cursor)
    requires c.pos < |buf| && !c.reading && TakeData(buf, c).remaining == 0
    ensures b != [] ==> Loop(buf + b, c) == Loop(buf + b, TakeData(buf, c))
  {
    hide Find, Number, UpToSemicolon, TakeData;
    TakeAll(buf, b, c);
    TookData(buf, c);
    if b != [] {
      TakeNone(buf + b, TakeData(buf, c));
    }
  }

  /** The loop only moves forward and only adds to the body; if it has not moved it has changed nothing. */
  lemma {:induction false} LoopAdvances(buf: bytes, c: Cursor)
    ensures var (d, exit) := Loop(buf, c);
            && c.pos <= d.pos && c.body <= d.body
            && (d.pos == c.pos && (exit.NoLine? || exit.NoCrlf?) ==> d == c)
            && (exit.AtEnd? && c.pos <= |buf| ==> d.pos == |buf|)
            && (exit.NoLine? ==> d.reading && d.pos < |buf| && Find(buf, CRLF, d.pos).None?)
            && (exit.NoCrlf? ==> !d.reading && d.remaining == 0 && d.pos <= |buf| < d.pos + 2)
    decreases |buf| - c.pos
  {
    hide Find, Number, UpToSemicolon;
    if c.pos >= |buf| {
    } else if c.reading {
      if Find(buf, CRLF, c.pos).Some? {
        var e := Find(buf, CRLF, c.pos).value;
        var n := Number(UpToSemicolon(buf[c.pos..e]), 16);
        if n.Some? && n.value > 0 {
          LoopAdvances(buf, Cursor(e + 2, c.body, n.value, false));
        }
      }
    } else {
      var d := TakeData(buf, c);
      if d.remaining == 0 && d.pos + 2 <= |buf| {
        LoopAdvances(buf, d.(pos := d.pos + 2, reading := true));
      }
      if c.remaining == 0 {
        TakeNone(buf, c);
      }
    }
  }

  lemma EndExit(buf: bytes, c: Cursor)
    requires c.pos >= |buf|
    ensures Loop(buf, c) == (c, AtEnd)
  {
  }

  // ----- Which feeds can be resumed -----

  /**
   * The loop saved its position, or has not moved, or has seen the whole last chunk; or it has moved into a size
   * line with no line end behind it, and from the old position the line reads as the same number.
   */
  predicate Resumable(q: Parser) {
    !q.head.useChunked || q.done ||
    var (d, exit) := Loop(q.buffer, CursorOf(q));
    match exit
    case AtEnd => true
    case NoLine => d.pos == q.start || Echoes(q.buffer, q.start, d.pos)
    case NoCrlf => d.pos == q.start
    case Last(ended) => ended
    case BadSize => false
  }

  predicate Echoes(buf: bytes, start: nat, pos: nat) {
    start <= pos <= |buf| && Find(buf, CRLF, start).None? && Echo(buf[start..], buf[pos..])
  }

  /** Equal answers and equal parsers, but for the saved position. */
  predicate Same(x: (Parser, Status), y: (Parser, Status)) {
    x.1 == y.1 && x.0.(start := 0) == y.0.(start := 0)
  }

  /** Outcomes depend on the loop's variables, not on where it started. */
  lemma OutcomeSame(p: Parser, r: Parser, x: (Cursor, Exit), y: (Cursor, Exit))
    requires r == p.(body := r.body, remaining := r.remaining, reading := r.reading, start := r.start)
    requires x.0.(pos := 0) == y.0.(pos := 0) && x.1 == y.1
    ensures Same(Outcome(r, x.0, x.1), Outcome(p, y.0, y.1))
  {
  }

  lemma {:induction false} ChunkedResumes(q: Parser, b: bytes)
    requires q.head.useChunked && Resumable(q)
    ensures Same(Chunked(Grown(Chunked(q).0, b)), Chunked(Grown(q, b)))
  {
    hide Loop, Same, Echoes;
    if q.done {
      SameSelf(Chunked(Grown(q, b)));
    } else {
      var c := CursorOf(q);
      var (d, exit) := Loop(q.buffer, c);
      LoopResumes(q.buffer, b, c);
      LoopAdvances(q.buffer, c);
      var r, after := Chunked(q).0, Loop(q.buffer + b, c);
      if exit.Last? {
        LastSame(q, b, d);
      } else {
        if exit.NoLine? && d.pos != q.start {
          EchoResumes(q.buffer, b, d, q.start);
        }
        OutcomeSame(Grown(q, b), Grown(r, b), Loop(q.buffer + b, CursorOf(r)), after);
      }
    }
  }

  lemma SameSelf(x: (Parser, Status))
    ensures Same(x, x)
  {
  }

  /** Once the whole last chunk has been seen, nothing more is read. */
  lemma LastSame(q: Parser, b: bytes, d: Cursor)
    requires !q.done && Loop(q.buffer, CursorOf(q)) == (d, Last(true)) && Loop(q.buffer + b, CursorOf(q)) == (d, Last(true))
    ensures Same(Chunked(Grown(Chunked(q).0, b)), Chunked(Grown(q, b)))
  {
    hide Loop;
  }

  /** Where the lines echo, a loop that restarts from the old position goes on as one that had kept its place. */
  lemma {:induction false} EchoResumes(buf: bytes, b: bytes, d: Cursor, start: nat)
    requires d.reading && d.pos < |buf| && Echoes(buf, start, d.pos)
    ensures var (x, y) := (Loop(buf + b, d.(pos := start)), Loop(buf + b, d));
            x.0.(pos := 0) == y.0.(pos := 0) && x.1 == y.1 && (x.1.AtEnd? ==> x.0 == y.0)
  {
    hide Find, Number, UpToSemicolon, TakeData, Echo;
    var s := buf + b;
    FindLater(buf, b, CRLF, start, d.pos);
    if Find(s, CRLF, d.pos).Some? {
      var e := Find(s, CRLF, d.pos).value;
      SemicolonIrrelevant(s[start..e]);
      SemicolonIrrelevant(s[d.pos..e]);
      EchoedLine(buf, b, start, d.pos, e);
    }
  }

  lemma {:induction false} EchoedLine(buf: bytes, b: bytes, start: nat, pos: nat, e: nat)
    requires pos < |buf| && Echoes(buf, start, pos) && pos <= e && Find(buf + b, CRLF, start) == Some(e)
    ensures Number((buf + b)[start..e], 16) == Number((buf + b)[pos..e], 16)
  {
    hide Find, Number;
    var s := buf + b;
    var u, y := buf[start..pos], buf[pos..];
    assert buf[start..] == u + y;
    assert s[e..e + 2][0] == 13;
    if e < |buf| - 1 {
      assert buf[e..e + 2] == s[e..e + 2];
      FindFirst(buf, CRLF, start, e);
    } else if e == |buf| - 1 {
      var line := s[pos..e];
      assert y == line + ([13] + []) && buf[start..] == u + line + ([13] + []) && s[start..e] == u + line;
      NumberEnd(line, 13, []);
      NumberEnd(u + line, 13, []);
    } else {
      var w := s[|buf|..e];
      assert s[pos..e] == y + w && s[start..e] == u + (y + w);
      EchoLasts(u, y, w);
    }
  }

  /** A loop that began with a size line and has moved has left a line end behind. */
  lemma MovedPastLine(buf: bytes, c: Cursor)
    requires c.reading && Loop(buf, c).1.NoLine? && Loop(buf, c).0.pos != c.pos
    ensures Find(buf, CRLF, c.pos).Some?
  {
    hide Find, Number, UpToSemicolon, TakeData;
  }

  lemma ChunkedKeeps(q: Parser)
    requires Chunked(q).1 != Failed
    ensures Chunked(q).0.headersDone == q.headersDone && Chunked(q).0.head == q.head && Chunked(q).0.buffer == q.buffer
  {
    hide Loop;
  }

  /** After a resumable feed, feeding the rest is as good as having fed everything at once. */
  lemma {:induction false} ResumeCorrect(p: Parser, a: bytes, b: bytes)
    requires Feed(p, a).1 != Failed
    requires Ready(p, a).Some? ==> Resumable(Ready(p, a).value)
    ensures Same(Feed(Feed(p, a).0, b), Feed(p, a + b))
  {
    hide Feed, Ready, Chunked, Resumable;
    if Ready(p, a).None? || !Ready(p, a).value.head.useChunked {
      SplitUnchunked(p, a, b);
    } else {
      var q := Ready(p, a).value;
      ReadyFacts(p, a);
      FeedReady(p, a);
      ReadyGrows(p, a, b);
      FeedReady(p, a + b);
      ChunkedKeeps(q);
      ChunkedResumes(q, b);
      Resumed(Chunked(q).0, b);
    }
  }

  // ----- And which cannot -----

  /** Reading a size line that ends before the last byte shows: more body, an error or the last chunk. */
  lemma {:induction false} LineShows(buf: bytes, c: Cursor)
    requires c.reading && c.pos < |buf| && Find(buf, CRLF, c.pos).Some? && Find(buf, CRLF, c.pos).value + 2 < |buf|
    ensures var (d, exit) := Loop(buf, c); d.body != c.body || exit.Last? || exit.BadSize?
  {
    hide Find, Number, UpToSemicolon;
    var e := Find(buf, CRLF, c.pos).value;
    var n := Number(UpToSemicolon(buf[c.pos..e]), 16);
    if n.Some? && n.value > 0 {
      var d := TakeData(buf, Cursor(e + 2, c.body, n.value, false));
      assert |d.body| > |c.body|;
      if d.remaining == 0 && d.pos + 2 <= |buf| {
        LoopAdvances(buf, d.(pos := d.pos + 2, reading := true));
      }
    }
  }

  /** After stopping in a later size line, the next feed starts at the old position and shows it. */
  lemma {:induction false} StuckAtLine(q: Parser) returns (b: bytes)
    requires q.head.useChunked && !q.done
    requires Loop(q.buffer, CursorOf(q)).1.NoLine?
    requires var pos := Loop(q.buffer, CursorOf(q)).0.pos; pos != q.start && !Echoes(q.buffer, q.start, pos)
    ensures !Same(Chunked(Grown(Chunked(q).0, b)), Chunked(Grown(q, b)))
  {
    hide Find, Loop, Number, UpToSemicolon;
    var c, buf := CursorOf(q), q.buffer;
    var d := Loop(buf, c).0;
    LoopAdvances(buf, c);
    var stale := d.(pos := q.start);
    assert CursorOf(Chunked(q).0) == stale;
    if Find(buf, CRLF, q.start).Some? {
      b := [];
      assert buf + [] == buf;
      LineRestarts(buf, stale);
    } else {
      var w := if Number(buf[q.start..], 16) != Number(buf[d.pos..], 16) then [] else [49];
      b := w + CRLF;
      LoopResumes(buf, b, c);
      assert buf + w + CRLF == buf + b;
      OneLineMore(buf, w, stale);
      OneLineMore(buf, w, d);
      assert buf[q.start..] + w == (buf + w)[q.start..] && buf[d.pos..] + w == (buf + w)[d.pos..];
      assert buf[q.start..] + [] == buf[q.start..] && buf[d.pos..] + [] == buf[d.pos..];
    }
  }

  /** A line end behind the old position: the line it ends is read. */
  lemma {:induction false} LineRestarts(buf: bytes, c: Cursor)
    requires c.reading && c.pos < |buf| && Find(buf, CRLF, c.pos).Some?
    ensures var (d, exit) := Loop(buf, c); d.body != c.body || !d.reading || exit.Last? || exit.BadSize?
  {
    hide Find, Number, UpToSemicolon;
    if Find(buf, CRLF, c.pos).value + 2 < |buf| {
      LineShows(buf, c);
    } else {
      LineAtEnd(buf, c);
    }
  }

  /** The line that ends with the buffer is read as its number. */
  lemma {:induction false} OneLineMore(buf: bytes, w: bytes, c: Cursor)
    requires c.reading && c.pos < |buf| && Find(buf, CRLF, c.pos).None? && (w == [] || w == [49])
    ensures var s := buf + w + CRLF;
            match Number((buf + w)[c.pos..], 16)
            case None => Loop(s, c) == (c, BadSize)
            case Some(n) => if n == 0 then Loop(s, c) == (c, Last(false)) else Loop(s, c) == (Cursor(|s|, c.body, n, false), AtEnd)
  {
    hide Find, Number, UpToSemicolon, Loop;
    var s := buf + w + CRLF;
    var line := buf[c.pos..] + w;
    NoneFrom(buf, CRLF, c.pos);
    if w == [] {
      assert line == buf[c.pos..];
    } else {
      StillNoEnd(buf[c.pos..], 49);
    }
    LineFound(buf[..c.pos], line, []);
    assert s == buf[..c.pos] + line + CRLF + [];
    assert s[c.pos..|s| - 2] == line == (buf + w)[c.pos..];
    LineAtEnd(s, c);
    SemicolonIrrelevant(line);
  }

  lemma {:induction false} EarlyComplete(q: Parser)
    requires q.head.useChunked && !q.done && Loop(q.buffer, CursorOf(q)).1 == Last(false)
    ensures !Same(Chunked(Grown(Chunked(q).0, [])), Chunked(Grown(q, [])))
  {
    hide Loop;
    assert q.buffer + [] == q.buffer;
  }

  /** What a size line says when nothing else is in the buffer after it. */
  lemma {:induction false} LineAtEnd(buf: bytes, c: Cursor)
    requires c.reading && c.pos < |buf| && Find(buf, CRLF, c.pos) == Some(|buf| - 2)
    ensures match Number(UpToSemicolon(buf[c.pos..|buf| - 2]), 16)
            case None => Loop(buf, c) == (c, BadSize)
            case Some(n) => if n == 0 then Loop(buf, c) == (c, Last(false)) else Loop(buf, c) == (Cursor(|buf|, c.body, n, false), AtEnd)
  {
    hide Find, Number, UpToSemicolon;
  }

  /** Bytes that complete the missing CRLF badly and then give a size line of one digit. */
  function Probe(missing: nat, digit: nat): (b: bytes)
    requires digit < 10
    ensures |b| == missing + 3
  {
    seq(missing, _ => 103) + [48 + digit] + CRLF
  }

  lemma {:induction false} OneDigit(digit: nat)
    requires digit < 10
    ensures Number(UpToSemicolon([48 + digit]), 16) == Some(digit)
  {
    var s: bytes := [48 + digit];
    assert s[0..1] == [48 + digit];
    assert Find(s, [59], 1).None?;
    assert Find(s, [59], 0).None?;
    assert s[1..] == [] && DigitRun(s[1..], 16) == 0;
    assert DigitRun(s, 16) == 1 && s[..1] == s;
    assert s[..0] == [] && Value([], 16) == 0;
  }

  /** The true continuation reads the probe's size. */
  lemma {:induction false} ProbeTrue(buf: bytes, d: Cursor, digit: nat)
    requires !d.reading && d.remaining == 0 && d.pos <= |buf| < d.pos + 2 && 0 < digit < 10
    ensures Loop(buf + Probe(d.pos + 2 - |buf|, digit), d) == (Cursor(d.pos + 5, d.body, digit, false), AtEnd)
  {
    hide Number, UpToSemicolon;
    var b := Probe(d.pos + 2 - |buf|, digit);
    var s := buf + b;
    var at := d.pos + 2;
    TakeNone(s, d);
    var c := d.(pos := at, reading := true);
    assert s[at] == 48 + digit && s[at + 1..at + 3] == CRLF && s[at..at + 1] == [48 + digit];
    assert s[at..at + 2] != CRLF;
    assert Find(s, CRLF, at) == Find(s, CRLF, at + 1) == Some(at + 1);
    LineAtEnd(s, c);
    OneDigit(digit);
  }

  /** The stale position starts a size line before the probe's digit. */
  lemma {:induction false} ProbeStale(buf: bytes, c: Cursor, pos: nat, digit: nat)
    requires !c.reading && c.remaining == 0 && c.pos < pos <= |buf| < pos + 2 && 0 < digit < 10
    ensures var s := buf + Probe(pos + 2 - |buf|, digit);
            var r := Loop(s, c);
            || r.0.body != c.body || r.1.BadSize? || r.1.Last?
            || (Find(s, CRLF, c.pos + 2) == Some(|s| - 2) && r.1.AtEnd?
                && Number(UpToSemicolon(s[c.pos + 2..|s| - 2]), 16) == Some(r.0.remaining))
  {
    hide Number, UpToSemicolon, Find;
    var s := buf + Probe(pos + 2 - |buf|, digit);
    TakeNone(s, c);
    var l := c.(pos := c.pos + 2, reading := true);
    assert s[|s| - 2..] == CRLF;
    assert s[|s| - 2..|s| - 2 + 2] == CRLF;
    FindFirst(s, CRLF, l.pos, |s| - 2);
    if Find(s, CRLF, l.pos).value + 2 < |s| {
      LineShows(s, l);
    } else {
      LineAtEnd(s, l);
    }
  }

  // ----- The missing CRLF -----

  /** Where the loop stopped and where it restarts agree on a probe only if the stale line reads as the digit sent. */
  lemma {:induction false} StuckProbe(q: Parser, missing: nat, digit: nat)
    requires q.head.useChunked && !q.done && 0 < digit < 10
    requires Loop(q.buffer, CursorOf(q)).1.NoCrlf? && q.start < Loop(q.buffer, CursorOf(q)).0.pos
    requires missing == Loop(q.buffer, CursorOf(q)).0.pos + 2 - |q.buffer| && missing in {1, 2}
    ensures var b := Probe(missing, digit);
            var s := q.buffer + b;
            Same(Chunked(Grown(Chunked(q).0, b)), Chunked(Grown(q, b)))
            ==> q.start + 4 <= |s| && Number(UpToSemicolon(s[q.start + 2..|s| - 2]), 16) == Some(digit)
  {
    hide Loop, Number, UpToSemicolon, Find, Probe;
    var c := CursorOf(q);
    var d := Loop(q.buffer, c).0;
    LoopAdvances(q.buffer, c);
    ProbeTrue(q.buffer, d, digit);
    ProbeStale(q.buffer, Cursor(q.start, d.body, 0, false), d.pos, digit);
    LoopResumes(q.buffer, Probe(missing, digit), c);
  }

  /** After stopping inside a CRLF, one of two probes gets a different answer from the stale position. */
  lemma {:induction false} StuckAtCrlf(q: Parser) returns (b: bytes)
    requires q.head.useChunked && !q.done
    requires Loop(q.buffer, CursorOf(q)).1.NoCrlf? && Loop(q.buffer, CursorOf(q)).0.pos != q.start
    ensures !Same(Chunked(Grown(Chunked(q).0, b)), Chunked(Grown(q, b)))
  {
    hide Loop, Number, UpToSemicolon, Find, Probe;
    var c := CursorOf(q);
    var d := Loop(q.buffer, c).0;
    LoopAdvances(q.buffer, c);
    var missing := d.pos + 2 - |q.buffer|;
    StuckProbe(q, missing, 1);
    StuckProbe(q, missing, 2);
    StaleAgree(q.buffer, q.start + 2, missing);
    hide Chunked, Same;
    b := Probe(missing, 1);
    if Same(Chunked(Grown(Chunked(q).0, b)), Chunked(Grown(q, b))) {
      b := Probe(missing, 2);
    }
  }

  lemma {:induction false} StaleAgree(buf: bytes, from: nat, missing: nat)
    requires missing in {1, 2} && from < |buf| + missing
    ensures var x, y := buf + Probe(missing, 1), buf + Probe(missing, 2);
            Number(UpToSemicolon(x[from..|x| - 2]), 16) == Number(UpToSemicolon(y[from..|y| - 2]), 16)
  {
    hide Number, UpToSemicolon, Probe;
    var x, y := buf + Probe(missing, 1), buf + Probe(missing, 2);
    var m := |buf| + missing - 1;
    ProbeBytes(missing, 1);
    ProbeBytes(missing, 2);
    assert x[from..m] == y[from..m];
    TwoMore(x, from, m);
    TwoMore(y, from, m);
    var t := x[from..m];
    SemicolonIrrelevant(x[from..|x| - 2]);
    SemicolonIrrelevant(y[from..|y| - 2]);
    assert t + [103, 49] == t + ([103] + [49]) && t + [103, 50] == t + ([103] + [50]);
    NumberEnd(t, 103, [49]);
    NumberEnd(t, 103, [50]);
  }

  lemma ProbeBytes(missing: nat, digit: nat)
    requires missing in {1, 2} && digit < 10
    ensures var b := Probe(missing, digit);
            b[missing - 1] == 103 && b[missing] == 48 + digit && (missing == 2 ==> b[0] == 103)
  {
  }

  lemma TwoMore(x: bytes, from: nat, m: nat)
    requires from <= m && m + 4 == |x|
    ensures x[from..|x| - 2] == x[from..m] + [x[m], x[m + 1]]
  {
  }

  /** Feeding in pieces is exact, whatever follows, if and only if the first feed is resumable. */
  lemma {:induction false} ResumableIff(p: Parser, a: bytes)
    requires Feed(p, a).1 != Failed
    ensures (Ready(p, a).Some? ==> Resumable(Ready(p, a).value)) <==>
            forall b :: Same(Feed(Feed(p, a).0, b), Feed(p, a + b))
  {
    hide Feed, Ready, Resumable, Same;
    if Ready(p, a).Some? && !Resumable(Ready(p, a).value) {
      var b := NotResumable(p, a);
    } else {
      forall b
        ensures Same(Feed(Feed(p, a).0, b), Feed(p, a + b))
      {
        ResumeCorrect(p, a, b);
      }
    }
  }

  lemma {:induction false} NotResumable(p: Parser, a: bytes) returns (b: bytes)
    requires Feed(p, a).1 != Failed && Ready(p, a).Some?
    requires !Resumable(Ready(p, a).value)
    ensures !Same(Feed(Feed(p, a).0, b), Feed(p, a + b))
  {
    hide Feed, Ready, Chunked, Same;
    var q := Ready(p, a).value;
    ReadyFacts(p, a);
    FeedReady(p, a);
    ChunkedKeeps(q);
    ChunkedFailed(q);
    b := NotResumableChunk(q);
    ReadyGrows(p, a, b);
    FeedReady(p, a + b);
    Resumed(Chunked(q).0, b);
  }

  lemma ChunkedFailed(q: Parser)
    ensures !q.done && Loop(q.buffer, CursorOf(q)).1.BadSize? ==> Chunked(q).1 == Failed
  {
    hide Loop;
  }

  lemma {:induction false} NotResumableChunk(q: Parser) returns (b: bytes)
    requires !Resumable(q) && Chunked(q).1 != Failed
    ensures !Same(Chunked(Grown(Chunked(q).0, b)), Chunked(Grown(q, b)))
  {
    hide Loop, Chunked, Same, Echoes;
    ChunkedFailed(q);
    var (d, exit) := Loop(q.buffer, CursorOf(q));
    if exit.NoLine? {
      b := StuckAtLine(q);
    } else if exit.NoCrlf? {
      b := StuckAtCrlf(q);
    } else {
      b := [];
      EarlyComplete(q);
    }
  }

  // ----- Any number of pieces -----

  function FeedAll(p: Parser, pieces: seq<bytes>): (Parser, Status)
    requires pieces != []
  {
    if |pieces| == 1 then Feed(p, pieces[0])
    else Feed(FeedAll(p, pieces[..|pieces| - 1]).0, pieces[|pieces| - 1])
  }

  /** The pieces end where the loop has saved its position, or inside the head. */
  predicate Saved(p: Parser, x: bytes) {
    && Feed(p, x).1 != Failed
    && (Ready(p, x).Some? ==>
          var q := Ready(p, x).value;
          !q.head.useChunked || (!q.done && Loop(q.buffer, CursorOf(q)).1.AtEnd? && q.start <= |q.buffer|))
  }

  lemma {:induction false} SavedResumable(p: Parser, x: bytes)
    requires Saved(p, x) && Ready(p, x).Some?
    ensures Resumable(Ready(p, x).value)
  {
    hide Feed, Ready, Loop;
  }

  /** At a saved end even the position agrees: it is the end of the input. */
  lemma {:induction false} SavedSame(p: Parser, x: bytes, y: bytes)
    requires Saved(p, x) && Saved(p, x + y)
    ensures Feed(Feed(p, x).0, y) == Feed(p, x + y)
  {
    hide Feed, Ready, Chunked, Resumable;
    if Ready(p, x).None? || !Ready(p, x).value.head.useChunked {
      SplitUnchunked(p, x, y);
    } else {
      SavedResumable(p, x);
      ResumeCorrect(p, x, y);
      var q := Ready(p, x).value;
      ReadyFacts(p, x);
      FeedReady(p, x);
      ReadyGrows(p, x, y);
      FeedReady(p, x + y);
      ChunkedKeeps(q);
      Resumed(Chunked(q).0, y);
      StartAtEnd(q, y);
    }
  }

  lemma {:induction false} StartAtEnd(q: Parser, y: bytes)
    requires !q.done && Loop(q.buffer, CursorOf(q)).1.AtEnd? && q.start <= |q.buffer|
    requires Loop(q.buffer + y, CursorOf(q)).1.AtEnd?
    ensures Chunked(Grown(q, y)).0.start == |q.buffer + y| == Chunked(Grown(Chunked(q).0, y)).0.start
  {
    hide Loop;
    var d := Loop(q.buffer, CursorOf(q)).0;
    LoopAdvances(q.buffer, CursorOf(q));
    LoopResumes(q.buffer, y, CursorOf(q));
    LoopAdvances(q.buffer + y, CursorOf(q));
    assert CursorOf(Grown(Chunked(q).0, y)) == d;
  }

  /** Pieces that end at saved positions are read as one, up to the last piece, which may end anywhere. */
  lemma {:induction false} PiecesAsOne(p: Parser, pieces: seq<bytes>)
    requires pieces != []
    requires forall k | 0 < k < |pieces| :: Saved(p, Concat(pieces[..k]))
    ensures Same(FeedAll(p, pieces), Feed(p, Concat(pieces)))
    ensures Saved(p, Concat(pieces)) ==> FeedAll(p, pieces) == Feed(p, Concat(pieces))
    decreases |pieces|
  {
    hide Feed, Saved;
    var n := |pieces| - 1;
    if n == 0 {
      ConcatOne(pieces[0]);
      assert pieces == [pieces[0]];
    } else {
      var init := pieces[..n];
      forall k | 0 < k < |init|
        ensures Saved(p, Concat(init[..k]))
      {
        assert init[..k] == pieces[..k];
      }
      PiecesAsOne(p, init);
      var x, y := Concat(init), pieces[n];
      assert pieces == init + [y];
      ConcatAppend(init, [y]);
      ConcatOne(y);
      SavedResumes(p, x, y);
    }
  }

  lemma {:induction false} SavedResumes(p: Parser, x: bytes, y: bytes)
    requires Saved(p, x)
    ensures Same(Feed(Feed(p, x).0, y), Feed(p, x + y))
    ensures Saved(p, x + y) ==> Feed(Feed(p, x).0, y) == Feed(p, x + y)
  {
    hide Feed, Ready, Resumable, Loop;
    if Ready(p, x).Some? {
      SavedResumable(p, x);
    }
    ResumeCorrect(p, x, y);
    if Saved(p, x + y) {
      SavedSame(p, x, y);
    }
  }

  lemma ConcatOne(x: bytes)
    ensures Concat([x]) == x
  {
    assert [x][1..] == [];
  }
}
