/** What a peer reads back from the frames the connection writes, and what the connection reads from a peer's. */
module Http2Response {
  import opened Common
  import opened Http2
  import opened HttpText
  import Hpack
  import HpackCorrect
  import Http2Requests

  /** Every complete frame in a byte string, in order, and what is left. */
  function ParseAll(buf: bytes, limit: nat): (seq<Frame>, bytes)
    decreases |buf|
  {
    hide ParseFrame;
    match ParseFrame(buf, limit)
    case None => ([], buf)
    case Some(f) =>
      var r := ParseAll(buf[9 + |f.payload|..], limit);
      ([f] + r.0, r.1)
  }

  /** PRI * HTTP/2.0, an empty line, SM and another empty line (section 3.5 of RFC 7540). */
  const CLIENT_PREFACE: bytes :=
    [80, 82, 73, 32, 42, 32, 72, 84, 84, 80, 47, 50, 46, 48, 13, 10, 13, 10, 83, 77, 13, 10, 13, 10]

  lemma PrefaceBytes()
    ensures Preface() == CLIENT_PREFACE
  {
  }

  lemma Widths()
    ensures Pow256(3) == LIMIT_FRAME_SIZE + 1 && Pow256(4) == 2 * STREAM_IDS
  {
  }

  /** Where the parts of a built frame lie. */
  lemma FrameLayout(kind: byte, flags: byte, id: nat, payload: bytes, rest: bytes)
    ensures var w := BuildFrame(kind, flags, id, payload) + rest;
            && w[..3] == ToBigEndian(|payload|, 3) && w[3] == kind && w[4] == flags
            && w[5..9] == ToBigEndian(id % STREAM_IDS, 4)
            && w[9..9 + |payload|] == payload && w[9 + |payload|..] == rest
  {
    hide ToBigEndian;
  }

  /** A built frame is read back exactly when its payload is within the reader's limit. */
  lemma FrameRoundTrip(kind: byte, flags: byte, id: nat, payload: bytes, rest: bytes, limit: nat)
    requires id < STREAM_IDS && |payload| <= LIMIT_FRAME_SIZE
    ensures ParseFrame(BuildFrame(kind, flags, id, payload) + rest, limit)
         == if |payload| <= limit then Some(Frame(kind, flags, id, payload)) else None
  {
    hide BuildFrame, BigEndian, ToBigEndian, Pow256;
    FrameLayout(kind, flags, id, payload, rest);
    Widths();
    BigEndianRoundTrip(|payload|, 3);
    BigEndianRoundTrip(id, 4);
  }

  // ----- The response -----

  function Payloads(fs: seq<Frame>): bytes {
    if fs == [] then [] else fs[0].payload + Payloads(fs[1..])
  }

  /** DATA frames of one stream, none empty, none over the limit, only the last one ending the stream. */
  predicate BodyFrames(fs: seq<Frame>, id: nat, limit: nat) {
    forall i | 0 <= i < |fs| ::
      && fs[i].kind == 0x0 && fs[i].streamId == id && 0 < |fs[i].payload| <= limit
      && fs[i].flags == (if i == |fs| - 1 then 0x1 else 0x0)
  }

  lemma {:induction false} DataFramesRoundTrip(id: nat, body: bytes, limit: nat)
    requires id < STREAM_IDS && 0 < limit <= LIMIT_FRAME_SIZE
    ensures var r := ParseAll(DataFrames(id, body, limit), limit);
            BodyFrames(r.0, id, limit) && Payloads(r.0) == body && r.1 == []
    decreases |body|
  {
    hide BuildFrame, ParseFrame;
    if body == [] {
      assert ParseFrame([], limit).None? by { NoFrame(limit); }
    } else if |body| <= limit {
      FrameRoundTrip(DATA, END_STREAM, id, body, [], limit);
      FrameRest(DATA, END_STREAM, id, body, []);
      assert DataFrames(id, body, limit) == BuildFrame(DATA, END_STREAM, id, body) + [];
      NoFrame(limit);
      var f := Frame(DATA, END_STREAM, id, body);
      assert ParseAll(DataFrames(id, body, limit), limit) == ([f] + [], []);
      assert Payloads([f]) == body + Payloads([f][1..]) == body;
    } else {
      var chunk, rest := body[..limit], DataFrames(id, body[limit..], limit);
      FrameRoundTrip(DATA, 0, id, chunk, rest, limit);
      FrameRest(DATA, 0, id, chunk, rest);
      DataFramesRoundTrip(id, body[limit..], limit);
      var r := ParseAll(rest, limit);
      var f := Frame(DATA, 0, id, chunk);
      assert ParseAll(DataFrames(id, body, limit), limit) == ([f] + r.0, r.1);
      assert ([f] + r.0)[1..] == r.0 && chunk + body[limit..] == body;
      assert r.0 != [];
    }
  }

  lemma NoFrame(limit: nat)
    ensures ParseFrame([], limit).None?
  {
  }

  lemma FrameRest(kind: byte, flags: byte, id: nat, payload: bytes, rest: bytes)
    ensures (BuildFrame(kind, flags, id, payload) + rest)[9 + |payload|..] == rest
  {
    hide BuildFrame;
  }

  /** Header strings short enough for a 64-bit length. */
  predicate Sendable(resp: Response) {
    |resp.body| < Hpack.WORD && forall i | 0 <= i < |resp.headers| :: HpackCorrect.Encodable(resp.headers[i])
  }

  function HeaderBlock(resp: Response): bytes {
    Hpack.Encode(ResponseHeaders(resp))
  }

  /**
   When the header block fits one frame, the peer reads back one HEADERS frame carrying it and then the body in
   DATA frames within the limit; the stream is ended by the last frame and by no other.
   */
  lemma ResponseFraming(id: nat, resp: Response, limit: nat)
    requires id < STREAM_IDS && MIN_FRAME_SIZE <= limit <= LIMIT_FRAME_SIZE
    requires |HeaderBlock(resp)| <= limit
    ensures var r := ParseAll(BuildResponse(id, resp, limit), limit);
            && |r.0| > 0 && r.1 == []
            && r.0[0] == Frame(0x1, if resp.body == [] then 0x5 else 0x4, id, HeaderBlock(resp))
            && BodyFrames(r.0[1..], id, limit)
            && Payloads(r.0[1..]) == resp.body
  {
    hide BuildFrame, ParseFrame, DataFrames, ResponseHeaders, Hpack.Encode;
    var flags := END_HEADERS + if resp.body == [] then END_STREAM else 0;
    var rest := DataFrames(id, resp.body, limit);
    FrameRoundTrip(HEADERS, flags, id, HeaderBlock(resp), rest, limit);
    FrameRest(HEADERS, flags, id, HeaderBlock(resp), rest);
    DataFramesRoundTrip(id, resp.body, limit);
    var r := ParseAll(rest, limit);
    assert ([Frame(HEADERS, flags, id, HeaderBlock(resp))] + r.0)[1..] == r.0;
  }

  /** A header block over the limit is never split, so a peer with that limit reads no frame at all. */
  lemma OversizedHeaders(id: nat, resp: Response, limit: nat)
    requires id < STREAM_IDS && MIN_FRAME_SIZE <= limit
    requires limit < |HeaderBlock(resp)| <= LIMIT_FRAME_SIZE
    ensures ParseAll(BuildResponse(id, resp, limit), limit) == ([], BuildResponse(id, resp, limit))
  {
    hide BuildFrame, ParseFrame, DataFrames, ResponseHeaders, Hpack.Encode;
    var flags := END_HEADERS + if resp.body == [] then END_STREAM else 0;
    FrameRoundTrip(HEADERS, flags, id, HeaderBlock(resp), DataFrames(id, resp.body, limit), limit);
  }

  lemma {:induction false} DigitsShort(n: nat)
    ensures |Digits(n)| <= 1 + n / 10
  {
    if n >= 10 {
      DigitsShort(n / 10);
    }
  }

  /** A body whose length no header gives. */
  predicate Unmeasured(resp: Response) {
    resp.body != [] && forall i | 0 <= i < |resp.headers| :: !IsLower(resp.headers[i].name, Raw("content-length"))
  }

  /** The status, the headers with names in lower case, a content length if there is none, and the server's name. */
  predicate Announces(hs: seq<Hpack.Header>, resp: Response) {
    var n := |resp.headers|;
    && |hs| == n + 2 + (if Unmeasured(resp) then 1 else 0)
    && hs[0].name == Raw(":status") && IsDecimal(hs[0].value, resp.status)
    && (forall i | 0 <= i < n :: IsLower(resp.headers[i].name, hs[i + 1].name) && hs[i + 1].value == resp.headers[i].value)
    && (Unmeasured(resp) ==> hs[n + 1].name == Raw("content-length") && IsDecimal(hs[n + 1].value, |resp.body|))
    && hs[|hs| - 1] == Hpack.Header(Raw("server"), Raw("JustServer/1.0"))
  }

  lemma DecimalRead(n: int)
    ensures IsDecimal(Decimal(n), n)
  {
    hide Digits;
    if n < 0 {
      DigitsRead(-n);
      assert ([45] + Digits(-n))[1..] == Digits(-n);
    } else {
      DigitsRead(n);
    }
  }

  lemma ListedNames(resp: Response)
    ensures var hs := [Hpack.Header(Raw(":status"), Decimal(resp.status))] + LowerNames(resp.headers);
            HasName(hs, Raw("content-length"))
            <==> exists i | 0 <= i < |resp.headers| :: IsLower(resp.headers[i].name, Raw("content-length"))
  {
    hide Decimal, Lower, IsLower, Raw;
    var name := Raw("content-length");
    var hs := [Hpack.Header(Raw(":status"), Decimal(resp.status))] + LowerNames(resp.headers);
    StatusName();
    forall i | 0 <= i < |resp.headers|
      ensures IsLower(resp.headers[i].name, name) <==> hs[i + 1].name == name
    {
      LowerIs(resp.headers[i].name, name);
    }
    if HasName(hs, name) {
      var k :| 0 <= k < |hs| && hs[k].name == name;
      assert IsLower(resp.headers[k - 1].name, name);
    }
  }

  lemma StatusName()
    ensures Raw(":status") != Raw("content-length")
  {
    assert |Raw(":status")| == 7 && |Raw("content-length")| == 14;
  }

  lemma HeadersAnnounce(resp: Response)
    ensures Announces(ResponseHeaders(resp), resp)
  {
    hide Decimal, Lower, IsLower, Raw, HasName, Digits, IsDecimal;
    ListedNames(resp);
    DecimalRead(resp.status);
    DigitsRead(|resp.body|);
    forall i | 0 <= i < |resp.headers|
      ensures IsLower(resp.headers[i].name, ResponseHeaders(resp)[i + 1].name)
    {
      LowerIs(resp.headers[i].name, Lower(resp.headers[i].name));
    }
  }

  /** Whatever the state of its decompressor, the peer decompresses exactly the response's headers. */
  lemma ResponseHeadersSurvive(t: Hpack.Table, resp: Response)
    requires t.Valid() && Sendable(resp) && -0x8000_0000 <= resp.status < 0x8000_0000
    ensures var d := Hpack.Decode(t, HeaderBlock(resp));
            d.table == t && d.headers.Some? && Announces(d.headers.value, resp)
  {
    hide Hpack.Decode, Hpack.Encode, HasName, Digits, Raw, Lower, Announces;
    DigitsShort(|resp.body|);
    DigitsShort(if resp.status < 0 then -resp.status else resp.status);
    HpackCorrect.RoundTrip(t, ResponseHeaders(resp));
    HeadersAnnounce(resp);
  }

  // ----- The request -----

  /**
   A request sent as one HEADERS frame right after the preface reaches the handler as the request its headers
   spell, and the answer follows the server's own SETTINGS.
   */
  lemma RequestDelivered(handler: Handler, id: nat, hs: seq<Hpack.Header>)
    requires 0 < id < STREAM_IDS && |Hpack.Encode(hs)| <= MIN_FRAME_SIZE
    requires forall i | 0 <= i < |hs| :: HpackCorrect.Encodable(hs[i])
    ensures var q := BuildRequest(NO_REQUEST, hs);
            var r := Process(handler, INITIAL, CLIENT_PREFACE + BuildFrame(0x1, 0x5, id, Hpack.Encode(hs)));
            && r.conn.core.calls == [q] && Http2Requests.Spells(hs, [], q)
            && r.output == BuildSettings() + BuildResponse(id, handler([], q), MIN_FRAME_SIZE)
            && r.conn.Alive() && r.conn.buffer == []
  {
    hide BuildFrame, ParseFrame, BuildResponse, BuildSettings, BuildRequest, Preface, Hpack.Encode, HandleFrame, Frames,
         Http2Requests.Spells;
    RequestSpelled(hs);
    PrefaceBytes();
    var block := Hpack.Encode(hs);
    var f := Frame(HEADERS, END_HEADERS + END_STREAM, id, block);
    var w := BuildFrame(HEADERS, END_HEADERS + END_STREAM, id, block);
    var data := Preface() + w;
    assert [] + data == data && data[..24] == Preface() && data[24..] == w;
    FrameRoundTrip(HEADERS, END_HEADERS + END_STREAM, id, block, [], MIN_FRAME_SIZE);
    assert w + [] == w && w[9 + |block|..] == [];
    HeadersHandled(handler, INITIAL.core, id, hs);
    LastFrame(handler, Conn(w, true, true, INITIAL.core), f);
    assert [] + [BuildRequest(NO_REQUEST, hs)] == [BuildRequest(NO_REQUEST, hs)];
  }

  lemma RequestSpelled(hs: seq<Hpack.Header>)
    ensures Http2Requests.Spells(hs, [], BuildRequest(NO_REQUEST, hs))
  {
    hide ApplyHeaders, MethodOf, Raw, Http2Requests.Spells;
    Http2Requests.BuiltSpelled(hs, []);
    AppliedBody(NO_REQUEST, hs);
  }

  lemma {:induction false} AppliedBody(q: Request, hs: seq<Hpack.Header>)
    ensures ApplyHeaders(q, hs).body == q.body
    decreases |hs|
  {
    hide Raw, Find;
    if hs != [] {
      AppliedBody(ApplyHeader(q, hs[0]), hs[1..]);
    }
  }

  /** A buffer that holds exactly one frame. */
  lemma LastFrame(handler: Handler, c: Conn, f: Frame)
    requires c.Valid() && ParseFrame(c.buffer, c.core.maxFrameSize) == Some(f) && |c.buffer| == 9 + |f.payload|
    requires !HandleFrame(handler, c.core, f).core.goawaySent
    ensures var h := HandleFrame(handler, c.core, f);
            Frames(handler, c) == Reply(c.(buffer := [], core := h.core), h.output)
  {
    hide ParseFrame, HandleFrame;
    var h := HandleFrame(handler, c.core, f);
    NoFrame(h.core.maxFrameSize);
    assert c.buffer[9 + |f.payload|..] == [] && h.output + [] == h.output;
  }

  lemma {:induction false} HeadersHandled(handler: Handler, c: Core, id: nat, hs: seq<Hpack.Header>)
    requires c.Valid() && 0 < id && id !in c.streams
    requires forall i | 0 <= i < |hs| :: HpackCorrect.Encodable(hs[i])
    ensures var q := BuildRequest(NO_REQUEST, hs);
            var h := HandleFrame(handler, c, Frame(HEADERS, END_HEADERS + END_STREAM, id, Hpack.Encode(hs)));
            && h.core.calls == c.calls + [q] && h.core.goawaySent == c.goawaySent
            && h.output == BuildResponse(id, handler(c.calls, q), c.maxFrameSize)
  {
    hide BuildResponse, BuildRequest, Hpack.Decode, Hpack.Encode, Fragment, Frame.Has, WithStream, Raw;
    var block := Hpack.Encode(hs);
    var f := Frame(HEADERS, END_HEADERS + END_STREAM, id, block);
    assert HandleFrame(handler, c, f) == HandleHeaders(handler, c, f);
    PlainHeaders(f);
    NewStream(c, id);
    HpackCorrect.RoundTrip(c.decoder, hs);
    assert [] + block == block;
  }

  lemma NewStream(c: Core, id: nat)
    requires c.Valid() && id !in c.streams
    ensures var c1 := WithStream(c, id);
            && c1.streams[id] == Stream(id, IDLE, c.initialWindowSize, [], NO_REQUEST, false)
            && c1.decoder == c.decoder && c1.calls == c.calls && c1.maxFrameSize == c.maxFrameSize
  {
  }

  lemma PlainHeaders(f: Frame)
    requires f.flags == END_HEADERS + END_STREAM
    ensures f.Has(END_HEADERS) && f.Has(END_STREAM) && Fragment(f) == Some(f.payload)
  {
    assert f.payload[0..|f.payload|] == f.payload;
  }
}
