/** The parser object: feed appends to a buffer and drives the flag and offset fields, refining module Http1. */
module Http1Parser {
  import opened Common
  import opened Http1
  import opened Http1Split

  class HttpParser {
    var request: Request
    var body: bytes
    var buffer: bytes
    var problem: Problem
    var headersDone: bool
    var contentLength: nat
    var hasLength: bool
    var chunkedSeen: bool
    var useChunked: bool
    var received: nat
    var start: nat
    var lengthCount: nat
    var done: bool
    var remaining: nat
    var reading: bool

    ghost function HeadState(): Head
      reads this
    {
      Head(request, problem, contentLength, hasLength, chunkedSeen, useChunked, lengthCount)
    }

    ghost function State(): Parser
      reads this
    {
      Parser(buffer, HeadState(), headersDone, start, received, body, remaining, reading, done)
    }

    constructor ()
      ensures State() == FRESH
    {
      request, problem := NO_REQUEST, NoProblem;
      body, buffer, headersDone := [], [], false;
      contentLength, hasLength, chunkedSeen, useChunked, lengthCount := 0, false, false, false, 0;
      received, start, done, remaining, reading := 0, 0, false, 0, true;
    }

    /** Ready for the next request: nothing of the last one is left. */
    method Reset()
      modifies this
      ensures State() == FRESH
    {
      ResetHead();
      body := [];
      buffer := [];
      headersDone := false;
      received := 0;
      start := 0;
      done := false;
      remaining := 0;
      reading := true;
    }

    method ResetHead()
      modifies this
      ensures HeadState() == FRESH_HEAD
    {
      request := NO_REQUEST;
      problem := NoProblem;
      contentLength := 0;
      hasLength := false;
      chunkedSeen := false;
      useChunked := false;
      lengthCount := 0;
    }

    method Feed(data: bytes) returns (status: Status)
      modifies this
      ensures (State(), status) == Http1.Feed(old(State()), data)
    {
      hide Find, ParseHead, Body;
      buffer := buffer + data;
      if !headersDone {
        var end := Search(buffer, END_OF_HEAD, 0);
        if end.None? {
          if |buffer| > MAX_HEAD {
            problem := HeadTooLarge;
            return Failed;
          }
          return Incomplete;
        }
        var ok := ReadHead(buffer[..end.value]);
        if !ok {
          return Failed;
        }
        headersDone := true;
        start := end.value + 4;
      }
      status := ReadBody();
    }

    /** The head fields alone change. */
    twostate predicate OnlyHead()
      reads this
    {
      State() == old(State()).(head := HeadState())
    }

    method ReadHead(section: bytes) returns (ok: bool)
      modifies this
      ensures (HeadState(), ok) == ParseHead(old(HeadState()), section) && OnlyHead()
    {
      hide Find, Http1.ParseRequestLine, ParseLines, Validate, SplitUri;
      var line := Search(section, CRLF, 0);
      if line.None? {
        problem := InvalidRequestLine;
        return false;
      }
      ok := ParseRequestLine(section[..line.value]);
      if !ok {
        return;
      }
      ok := HeaderLines(section[line.value + 2..]);
      if !ok {
        return;
      }
      ValidateHeaders();
      ParseUri();
    }

    method HeaderLines(section: bytes) returns (ok: bool)
      modifies this
      ensures (HeadState(), ok) == ParseLines(old(HeadState()), section) && OnlyHead()
    {
      hide Find, Http1.ParseHeaderLine;
      var rest := section;
      while |rest| > 0
        invariant ParseLines(HeadState(), rest) == ParseLines(old(HeadState()), section) && OnlyHead()
        decreases |rest|
      {
        var line, next;
        var end := Search(rest, CRLF, 0);
        if end.None? {
          line, next := rest, [];
        } else {
          line, next := rest[..end.value], rest[end.value + 2..];
        }
        if |line| > 0 {
          ok := ParseHeaderLine(line);
          if !ok {
            return;
          }
        }
        rest := next;
      }
      return true;
    }

    method ParseRequestLine(line: bytes) returns (ok: bool)
      modifies this
      ensures (HeadState(), ok) == Http1.ParseRequestLine(old(HeadState()), line) && OnlyHead()
    {
      hide Find, Raw, MethodOf;
      if 0 in line {
        problem := NullInRequestLine;
        return false;
      }
      var space := Search(line, [32], 0);
      if space.None? {
        problem := NoMethod;
        return false;
      }
      var verb := line[..space.value];
      request := request.(methodText := verb, verb := MethodOf(verb));
      var rest := line[space.value + 1..];
      space := Search(rest, [32], 0);
      if space.None? {
        problem := NoUri;
        return false;
      }
      request := request.(uri := rest[..space.value], version := rest[space.value + 1..]);
      if request.version != Raw("HTTP/1.0") && request.version != Raw("HTTP/1.1") {
        problem := UnsupportedVersion(request.version);
        return false;
      }
      return true;
    }

    method ParseHeaderLine(line: bytes) returns (ok: bool)
      modifies this
      ensures (HeadState(), ok) == Http1.ParseHeaderLine(old(HeadState()), line) && OnlyHead()
    {
      hide Find, Raw, Lower, Trim, Number;
      if 0 in line {
        problem := NullInHeader;
        return false;
      }
      var colon := Search(line, [58], 0);
      if colon.None? {
        problem := InvalidHeaderLine;
        return false;
      }
      var name, value := line[..colon.value], Trim(line[colon.value + 1..]);
      if 32 in name || 9 in name {
        problem := SpaceInName;
        return false;
      }
      if Lower(name) == Raw("content-length") {
        ok := LengthHeader(value);
        if !ok {
          return;
        }
      }
      if Lower(name) == Raw("transfer-encoding") {
        var found := Search(Lower(value), Raw("chunked"), 0);
        if found.Some? {
          chunkedSeen := true;
        }
      }
      request := request.(headers := request.headers[name := value]);
      return true;
    }

    method LengthHeader(value: bytes) returns (ok: bool)
      modifies this
      ensures (HeadState(), ok) == NoteLength(old(HeadState()), value) && OnlyHead()
    {
      hide Number;
      lengthCount := lengthCount + 1;
      if lengthCount > 1 {
        problem := DuplicateLength;
        return false;
      }
      hasLength := true;
      var n := Number(value, 10);
      if n.None? {
        problem := InvalidLength;
        return false;
      }
      contentLength := n.value;
      return true;
    }

    method ValidateHeaders()
      modifies this
      ensures HeadState() == Validate(old(HeadState())) && OnlyHead()
    {
      if chunkedSeen && hasLength {
        useChunked := true;
        contentLength := 0;
        hasLength := false;
      } else if chunkedSeen {
        useChunked := true;
      }
    }

    method ParseUri()
      modifies this
      ensures HeadState() == SplitUri(old(HeadState())) && OnlyHead()
    {
      hide Find;
      var mark := Search(request.uri, [63], 0);
      if mark.Some? {
        request := request.(path := request.uri[..mark.value], query := request.uri[mark.value + 1..]);
      } else {
        request := request.(path := request.uri);
      }
    }

    method ReadBody() returns (status: Status)
      modifies this
      ensures (State(), status) == Body(old(State()))
    {
      hide Loop;
      if useChunked {
        status := ReadChunks();
        return;
      }
      if start < |buffer| {
        received := |buffer| - start;
        body := buffer[start..];
      }
      if received >= contentLength {
        if |body| > contentLength {
          body := body[..contentLength];
        }
        return Complete;
      }
      return Incomplete;
    }

    /** What the loop still has to do is what it had to do at first. */
    ghost predicate OnTheWay(pos: nat, was: Parser)
      reads this
    {
      && State() == was.(body := body, remaining := remaining, reading := reading)
      && Loop(buffer, Cursor(pos, body, remaining, reading)) == Loop(buffer, CursorOf(was))
    }

    method ReadChunks() returns (status: Status)
      modifies this
      ensures (State(), status) == Chunked(old(State()))
    {
      hide Loop;
      if done {
        return Complete;
      }
      var pos: nat := start;
      while pos < |buffer|
        invariant OnTheWay(pos, old(State())) && !done
        decreases |buffer| - pos
      {
        var stop;
        if reading {
          pos, stop := ReadSize(pos, old(State()));
        } else {
          pos, stop := ReadData(pos, old(State()));
        }
        if stop.Some? {
          return stop.value;
        }
      }
      EndExit(buffer, Cursor(pos, body, remaining, reading));
      start := pos;
      return Incomplete;
    }

    /** One size line, or the reason to stop there. */
    method ReadSize(pos: nat, ghost was: Parser) returns (next: nat, stop: Option<Status>)
      requires pos < |buffer| && reading && !done && OnTheWay(pos, was)
      modifies this
      ensures buffer == old(buffer)
      ensures stop.None? ==> pos < next && OnTheWay(next, was) && !done
      ensures stop.Some? ==> (State(), stop.value) == Chunked(was)
    {
      hide Find, Number, UpToSemicolon, TakeData;
      next := pos;
      var line := Search(buffer, CRLF, pos);
      if line.None? {
        return next, Some(Incomplete);
      }
      var size := Number(UpToSemicolon(buffer[pos..line.value]), 16);
      if size.None? {
        problem := InvalidChunkSize;
        return next, Some(Failed);
      }
      if size.value == 0 {
        done := true;
        if line.value + 2 + 2 <= |buffer| {
          return next, Some(Complete);
        }
        return next, Some(Incomplete);
      }
      remaining := size.value;
      reading := false;
      return line.value + 2, None;
    }

    /** The data at hand, and the CRLF after it once the chunk is whole. */
    method ReadData(pos: nat, ghost was: Parser) returns (next: nat, stop: Option<Status>)
      requires pos < |buffer| && !reading && !done && OnTheWay(pos, was)
      modifies this
      ensures buffer == old(buffer)
      ensures stop.None? ==> pos < next && OnTheWay(next, was) && !done
      ensures stop.Some? ==> (State(), stop.value) == Chunked(was)
    {
      hide Find, Number, UpToSemicolon;
      var available := |buffer| - pos;
      var count := if available < remaining then available else remaining;
      body := body + buffer[pos..pos + count];
      remaining := remaining - count;
      next := pos + count;
      if remaining == 0 {
        if next + 2 > |buffer| {
          return next, Some(Incomplete);
        }
        next := next + 2;
        reading := true;
      }
      stop := None;
    }
  }

  /** std::string::find. */
  method Search(s: bytes, pat: bytes, from: nat) returns (r: Option<nat>)
    requires from <= |s| && pat != []
    ensures r == Find(s, pat, from)
  {
    var i := from;
    while i + |pat| <= |s|
      invariant from <= i <= |s| && Find(s, pat, i) == Find(s, pat, from)
      decreases |s| - i
    {
      if s[i..i + |pat|] == pat {
        return Some(i);
      }
      i := i + 1;
    }
    return None;
  }
}
