/**
 * What feeding the HTTP/1.1 parser answers: which complaint a bad head gets, how long a head is waited for, and when
 * a body of a given length is complete.
 */
module Http1Answers {
  import opened Common
  import opened Http1
  import opened Http1Text
  import opened Http1Heads
  import opened Http1Chunks
  import Http1Split

  // ----- Complaints about one line -----

  ghost predicate OneSpace(line: bytes) {
    exists m: bytes, rest: bytes :: line == m + [32] + rest && 32 !in m && 32 !in rest
  }

  ghost predicate BadVersion(line: bytes, version: bytes) {
    exists m: bytes, u: bytes :: Parts(line, m, u, version) && !Supported(version)
  }

  /** What a request line is refused for. */
  ghost predicate StartFault(line: bytes, p: Problem) {
    if 0 in line then p == NullInRequestLine
    else if 32 !in line then p == NoMethod
    else if OneSpace(line) then p == NoUri
    else p.UnsupportedVersion? && BadVersion(line, p.version)
  }

  /** What a header line is refused for, given whether there was a length before. */
  ghost predicate LineFault(line: bytes, again: bool, p: Problem) {
    if 0 in line then p == NullInHeader
    else if forall n: bytes :: !Named(line, n) then p == InvalidHeaderLine
    else if !GoodLine(line) then p == SpaceInName
    else if again then p == DuplicateLength
    else p == InvalidLength
  }

  lemma {:induction false} StartRefused(line: bytes)
    requires !ParseRequestLine(FRESH_HEAD, line).1
    ensures StartFault(line, ParseRequestLine(FRESH_HEAD, line).0.problem)
  {
    hide Find, Raw, MethodOf, OneSpace, BadVersion;
    SpaceFound(line);
    var f := Find(line, [32], 0);
    if 0 !in line && f.Some? {
      SpaceIn(line[..f.value], line[f.value + 1..]);
      RestRefused(line, line[..f.value], line[f.value + 1..]);
    }
  }

  lemma {:induction false} RestRefused(line: bytes, m: bytes, rest: bytes)
    requires line == m + [32] + rest && 32 !in m
    ensures var g := Find(rest, [32], 0);
            if g.None? then OneSpace(line)
            else !OneSpace(line) && (!Supported(rest[g.value + 1..]) ==> BadVersion(line, rest[g.value + 1..]))
  {
    hide Find, Raw;
    SpaceFound(rest);
    var g := Find(rest, [32], 0);
    if g.Some? {
      var u, v := rest[..g.value], rest[g.value + 1..];
      ThreeParts(line, m, rest, u, v);
      TwoSpaces(line, m, u, v);
    }
  }

  lemma SpaceIn(m: bytes, rest: bytes)
    ensures 32 in m + [32] + rest
  {
    assert (m + [32] + rest)[|m|] == 32;
  }

  lemma {:induction false} TwoSpaces(line: bytes, m: bytes, u: bytes, v: bytes)
    requires Parts(line, m, u, v)
    ensures !OneSpace(line)
  {
    if OneSpace(line) {
      var a: bytes, b: bytes :| line == a + [32] + b && 32 !in a && 32 !in b;
      assert line[|m|] == 32 && line[|m| + 1 + |u|] == 32;
      OnlySpace(a, b, |m|, |m| + 1 + |u|);
    }
  }

  lemma OnlySpace(a: bytes, b: bytes, j: nat, k: nat)
    requires 32 !in a && 32 !in b && j < |a + [32] + b| && (a + [32] + b)[j] == 32
    requires k < |a + [32] + b| && (a + [32] + b)[k] == 32
    ensures j == k
  {
    var line := a + [32] + b;
    assert forall i | 0 <= i < |a| :: line[i] == a[i];
    assert forall i | |a| < i < |line| :: line[i] == b[i - |a| - 1];
  }

  lemma {:induction false} LineRefused(h: Head, line: bytes)
    requires !ParseHeaderLine(h, line).1
    ensures LineFault(line, h.lengthCount > 0, ParseHeaderLine(h, line).0.problem)
  {
    hide Find, Raw, Lower, Trim, Number, Named;
    ColonFound(line);
    if Find(line, [58], 0).Some? {
      var n := line[..Find(line, [58], 0).value];
      GoodLineIff(line, n);
    }
  }

  // ----- Complaints about a head -----

  /** The first header line with which the lines are no longer good. */
  ghost predicate FirstBad(ls: seq<bytes>, i: nat) {
    i < |ls| && LinesGood(ls[..i]) && !LinesGood(ls[..i + 1])
  }

  ghost predicate LinesFault(ls: seq<bytes>, p: Problem) {
    exists i: nat :: FirstBad(ls, i) && LineFault(ls[i], SomeLength(ls[..i]), p)
  }

  /** A head is refused for its request line, or else for the first of its lines that is not good. */
  ghost predicate HeadFault(ls: seq<bytes>, p: Problem)
    requires ls != []
  {
    if !GoodStart(ls[0]) then StartFault(ls[0], p) else LinesFault(ls[1..], p)
  }

  lemma {:induction false} LinesRefused(start: Head, ls: seq<bytes>)
    requires start.request.headers == map[] && !start.chunkedSeen && !start.hasLength
    requires start.lengthCount == 0 && start.contentLength == 0 && !TakeLines(start, ls).1
    ensures LinesFault(ls, TakeLines(start, ls).0.problem)
    decreases |ls|
  {
    hide ParseHeaderLine, LinesGood, LinesDo, LineFault, SomeLength, TakeLines;
    if ls == [] {
      NoLines(start);
    } else {
      var n := |ls| - 1;
      var before, line := ls[..n], ls[n];
      assert ls == before + [line] && ls[..n + 1] == ls;
      OneLineMore(start, before, line);
      LinesIff(start, before);
      LinesIff(start, ls);
      if TakeLines(start, before).1 {
        var h := TakeLines(start, before).0;
        CountIs(start, before, h);
        LineRefused(h, line);
        assert FirstBad(ls, n);
      } else {
        LinesRefused(start, before);
        var p := TakeLines(start, before).0.problem;
        var i: nat :| FirstBad(before, i) && LineFault(before[i], SomeLength(before[..i]), p);
        assert before[..i] == ls[..i] && before[..i + 1] == ls[..i + 1];
        assert FirstBad(ls, i);
      }
    }
  }

  lemma CountIs(start: Head, ls: seq<bytes>, h: Head)
    requires LinesDo(start, ls, h)
    ensures h.lengthCount > 0 <==> SomeLength(ls)
  {
  }

  lemma {:induction false} HeadRefused(ls: seq<bytes>)
    requires |ls| >= 2 && AllLines(ls) && !ParseHead(FRESH_HEAD, Join(ls)).1
    ensures HeadFault(ls, ParseHead(FRESH_HEAD, Join(ls)).0.problem)
  {
    hide Find, ParseRequestLine, ParseLines, SplitUri, GoodStart, StartFault, LinesFault, LinesGood, OneLine, Started;
    var line, rest := ls[0], Join(ls[1..]);
    var s := Join(ls);
    NoEndInside(line);
    LineFound([], line, rest);
    assert [] + line + CRLF + rest == s && s[..|line|] == line && s[|line| + 2..] == rest;
    RequestLineIff(line);
    if ParseRequestLine(FRESH_HEAD, line).1 {
      var h := ParseRequestLine(FRESH_HEAD, line).0;
      StartIsFresh(line, h);
      LinesTaken(h, ls[1..]);
      LinesRefused(h, ls[1..]);
    } else {
      StartRefused(line);
    }
  }

  lemma StartIsFresh(line: bytes, h: Head)
    requires Started(line, h)
    ensures h.request.headers == map[] && !h.chunkedSeen && !h.hasLength && h.lengthCount == 0 && h.contentLength == 0
  {
  }

  // ----- What feed answers -----

  /** A line end and then an empty line. */
  predicate HeadEndAt(s: bytes, i: nat) {
    i + 4 <= |s| && s[i] == 13 && s[i + 1] == 10 && s[i + 2] == 13 && s[i + 3] == 10
  }

  /** The first of these comes right after the head. */
  predicate EndsFirst(head: bytes) {
    forall i: nat | i < |head| :: !HeadEndAt(head + [13, 10, 13, 10], i)
  }

  lemma EndIs(s: bytes, i: nat)
    requires i + 4 <= |s|
    ensures s[i..i + 4] == END_OF_HEAD <==> HeadEndAt(s, i)
  {
    var t := s[i..i + 4];
    assert t[0] == s[i] && t[1] == s[i + 1] && t[2] == s[i + 2] && t[3] == s[i + 3];
  }

  lemma {:induction false} EndFound(head: bytes, x: bytes)
    requires EndsFirst(head)
    ensures Find(head + END_OF_HEAD + x, END_OF_HEAD, 0) == Some(|head|)
  {
    hide Find;
    var s := head + END_OF_HEAD;
    assert s[|head|..|head| + 4] == END_OF_HEAD;
    FindFirst(s, END_OF_HEAD, 0, |head|);
    EndIs(s, Find(s, END_OF_HEAD, 0).value);
    FindExtend(s, x, END_OF_HEAD, 0);
  }

  lemma NoEnd(data: bytes)
    ensures Find(data, END_OF_HEAD, 0).Some? ==> HeadEndAt(data, Find(data, END_OF_HEAD, 0).value)
  {
    hide Find;
    if Find(data, END_OF_HEAD, 0).Some? {
      EndIs(data, Find(data, END_OF_HEAD, 0).value);
    }
  }

  /** Without an empty line the parser waits for more, up to 16 KB and no further. */
  lemma {:induction false} HeadAwaited(data: bytes)
    requires forall i: nat :: !HeadEndAt(data, i)
    ensures var (p, status) := Feed(FRESH, data);
            && p.buffer == data && !p.headersDone
            && (if |data| <= 16384 then status == Incomplete && p.head == FRESH_HEAD
                else status == Failed && p.head == FRESH_HEAD.(problem := HeadTooLarge))
  {
    hide Find;
    assert [] + data == data;
    NoEnd(data);
  }

  /** What a body with a length comes to. */
  ghost predicate SizedOutcome(x: bytes, n: nat, p: Parser, status: Status) {
    if |x| < n then status == Incomplete else status == Complete && p.body == x[..n]
  }

  lemma {:induction false} SizedAnswer(head: bytes, h: Head, x: bytes)
    ensures var (p, status) := Sized(BodyParser(head, h, x));
            SizedOutcome(x, h.contentLength, p, status) && p.head == h
  {
    var s := head + END_OF_HEAD + x;
    assert s[|head| + 4..] == x;
  }

  /**
   * On every head of at least two lines and whatever follows it: a bad head fails with its complaint; otherwise the
   * request is what the lines spell, and unless it is chunked it is complete exactly when its length is there.
   */
  lemma {:induction false} FeedIff(ls: seq<bytes>, x: bytes)
    requires |ls| >= 2 && AllLines(ls) && EndsFirst(Join(ls))
    ensures var (p, status) := Feed(FRESH, Join(ls) + [13, 10, 13, 10] + x);
            if GoodStart(ls[0]) && LinesGood(ls[1..]) then
              && HeadSpelled(ls, p.head)
              && p.head.problem == (if status == Failed then InvalidChunkSize else NoProblem)
              && (!SomeChunked(ls[1..]) ==> SizedOutcome(x, p.head.contentLength, p, status))
            else status == Failed && HeadFault(ls, p.head.problem)
  {
    hide Find, ParseHead, Join, GoodStart, LinesGood, HeadSpelled, SizedOutcome, HeadFault, SomeChunked, Loop, EndsFirst;
    var head := Join(ls);
    var s := head + END_OF_HEAD + x;
    EndFound(head, x);
    assert [] + s == s && s[..|head|] == head;
    HeadIff(ls);
    var (h, ok) := ParseHead(FRESH_HEAD, head);
    if ok {
      var q := BodyParser(head, h, x);
      assert Http1Split.Ready(FRESH, s) == Some(q);
      Http1Split.FeedReady(FRESH, s);
      SpelledChunked(ls, h);
      if h.useChunked {
        ChunkedComplaint(q);
        SpelledStill(ls, h, Chunked(q).0.head.problem);
      } else {
        SizedAnswer(head, h, x);
        SizedEnds(x, h.contentLength, Sized(q).0, Sized(q).1);
      }
    } else {
      HeadRefused(ls);
    }
  }

  lemma SpelledChunked(ls: seq<bytes>, h: Head)
    requires ls != [] && HeadSpelled(ls, h)
    ensures h.useChunked <==> SomeChunked(ls[1..])
  {
  }

  /** A bad chunk size is the only complaint after the head. */
  lemma ChunkedComplaint(q: Parser)
    requires !q.done && q.head.problem == NoProblem
    ensures var (p, status) := Chunked(q);
            p.head == q.head.(problem := if status == Failed then InvalidChunkSize else NoProblem)
  {
    hide Loop;
  }

  lemma SpelledStill(ls: seq<bytes>, h: Head, p: Problem)
    requires ls != [] && HeadSpelled(ls, h)
    ensures HeadSpelled(ls, h.(problem := p))
  {
    hide Parts, Supported, VerbSpelled, FieldsSpelled, SomeChunked, SomeLength, SomeGives;
  }

  lemma SizedEnds(x: bytes, n: nat, p: Parser, status: Status)
    requires SizedOutcome(x, n, p, status)
    ensures status != Failed
  {
  }
}
