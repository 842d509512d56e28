/** The HTTP/2 connection of src/http2.cpp as functions on a state value. */
module Http2 {
  import opened Common
  import Hpack

  // ----- Constants of RFC 7540 -----

  const DATA: byte := 0x0
  const HEADERS: byte := 0x1
  const SETTINGS: byte := 0x4
  const PING: byte := 0x6
  const GOAWAY: byte := 0x7
  const WINDOW_UPDATE: byte := 0x8

  const END_STREAM: byte := 0x1
  const ACK: byte := 0x1
  const END_HEADERS: byte := 0x4
  const PADDED: byte := 0x8
  const PRIORITY_FLAG: byte := 0x20

  const PROTOCOL_ERROR: nat := 0x1
  const FLOW_CONTROL_ERROR: nat := 0x3
  const FRAME_SIZE_ERROR: nat := 0x6
  const COMPRESSION_ERROR: nat := 0x9

  const SET_HEADER_TABLE_SIZE: nat := 0x1
  const SET_MAX_CONCURRENT_STREAMS: nat := 0x3
  const SET_INITIAL_WINDOW_SIZE: nat := 0x4
  const SET_MAX_FRAME_SIZE: nat := 0x5

  const MIN_FRAME_SIZE: nat := 16384
  const LIMIT_FRAME_SIZE: nat := 16777215
  const STREAM_IDS: nat := 0x8000_0000

  function Preface(): (r: bytes)
    ensures |r| == 24
  {
    Raw("PRI * HTTP/2.0\r\n\r\nSM\r\n\r\n")
  }

  // ----- Data -----

  datatype Method = GET | POST | HEAD | PUT | DELETE | OPTIONS | UNKNOWN

  datatype Request = Request(
    verb: Method, methodStr: bytes, uri: bytes, path: bytes, query: bytes, version: bytes,
    headers: map<bytes, bytes>, body: bytes)

  const NO_REQUEST := Request(UNKNOWN, [], [], [], [], [], map[], [])

  /** Headers in the order in which the response's hash map yields them. */
  datatype Response = Response(status: int, headers: seq<Hpack.Header>, body: bytes)

  datatype StreamState = IDLE | OPEN | HALF_CLOSED_REMOTE

  datatype Stream = Stream(
    id: nat, state: StreamState, window: int, headerBlock: bytes, request: Request, headersComplete: bool)

  datatype Frame = Frame(kind: byte, flags: byte, streamId: nat, payload: bytes) {
    predicate Has(flag: byte)
      requires flag > 0
    {
      (flags as int) / (flag as int) % 2 == 1
    }
  }

  /** A request handler may remember its earlier calls. */
  type Handler = (seq<Request>, Request) -> Response

  /** Everything a frame handler can see or change. */
  datatype Core = Core(
    goawaySent: bool,
    lastStreamId: nat,
    connectionWindow: int,
    maxFrameSize: nat,
    maxConcurrentStreams: nat,
    headerTableSize: nat,
    initialWindowSize: nat,
    decoder: Hpack.Table,
    streams: map<nat, Stream>,
    calls: seq<Request>)
  {
    predicate Valid() {
      && decoder.Valid()
      && MIN_FRAME_SIZE <= maxFrameSize <= LIMIT_FRAME_SIZE
      && (forall id | id in streams :: streams[id].id == id <= lastStreamId)
    }
  }

  /** The whole connection: unread input, whether the preface has been exchanged, and the rest. */
  datatype Conn = Conn(buffer: bytes, prefaceReceived: bool, settingsSent: bool, core: Core) {
    predicate Valid() {
      core.Valid()
    }

    predicate Alive() {
      !core.goawaySent
    }
  }

  const INITIAL := Conn([], false, false, Core(false, 0, 65535, 16384, 100, 4096, 65535, Hpack.EMPTY, map[], []))

  /** What one frame does: the new core and the bytes to send back. */
  datatype Step = Step(core: Core, output: bytes)

  /** The connection after some input and the bytes to send back. */
  datatype Reply = Reply(conn: Conn, output: bytes) {
    function After(out: bytes): Reply {
      Reply(conn, out + output)
    }
  }

  // ----- Frames -----

  /** The frame at the front of the buffer, if it is complete and not over the limit. */
  function ParseFrame(buf: bytes, limit: nat): (r: Option<Frame>)
    ensures r.Some? ==> 9 + |r.value.payload| <= |buf| && |r.value.payload| <= limit
    ensures r.Some? ==> r.value.streamId < STREAM_IDS
  {
    if |buf| < 9 then None
    else
      var length := BigEndian(buf[..3]);
      assert Pow256(4) == 2 * STREAM_IDS;
      if length > limit then None
      else if |buf| < 9 + length then None
      else Some(Frame(buf[3], buf[4], BigEndian(buf[5..9]) % STREAM_IDS, buf[9..9 + length]))
  }

  function BuildFrame(kind: byte, flags: byte, streamId: nat, payload: bytes): (r: bytes)
    ensures |r| == 9 + |payload|
  {
    ToBigEndian(|payload|, 3) + [kind, flags] + ToBigEndian(streamId % STREAM_IDS, 4) + payload
  }

  function Setting(id: nat, value: nat): bytes {
    ToBigEndian(id, 2) + ToBigEndian(value, 4)
  }

  function BuildSettings(): bytes {
    BuildFrame(SETTINGS, 0, 0,
               Setting(SET_MAX_CONCURRENT_STREAMS, 100) + Setting(SET_INITIAL_WINDOW_SIZE, 65535)
               + Setting(SET_MAX_FRAME_SIZE, 16384))
  }

  /** build_goaway also marks the connection as finished. */
  function Goaway(c: Core, error: nat, debug: string := ""): (r: Step)
    requires c.Valid()
    ensures r.core == c.(goawaySent := true) && r.core.Valid() && |r.output| > 0
  {
    Step(c.(goawaySent := true),
          BuildFrame(GOAWAY, 0, 0, ToBigEndian(c.lastStreamId, 4) + ToBigEndian(error, 4) + Raw(debug)))
  }

  // ----- Responses -----

  function Decimal(n: int): bytes {
    if n < 0 then [45] + Digits(-n) else Digits(n)
  }

  function LowerNames(hs: seq<Hpack.Header>): seq<Hpack.Header> {
    seq(|hs|, i requires 0 <= i < |hs| => Hpack.Header(Lower(hs[i].name), hs[i].value))
  }

  predicate HasName(hs: seq<Hpack.Header>, name: bytes) {
    exists i | 0 <= i < |hs| :: hs[i].name == name
  }

  function ResponseHeaders(resp: Response): seq<Hpack.Header> {
    var hs := [Hpack.Header(Raw(":status"), Decimal(resp.status))] + LowerNames(resp.headers);
    var hs' := if resp.body != [] && !HasName(hs, Raw("content-length"))
               then hs + [Hpack.Header(Raw("content-length"), Digits(|resp.body|))] else hs;
    hs' + [Hpack.Header(Raw("server"), Raw("JustServer/1.0"))]
  }

  /** The body cut into DATA frames of at most `limit` bytes, the last one ending the stream. */
  function DataFrames(streamId: nat, body: bytes, limit: nat): bytes
    requires limit > 0
    decreases |body|
  {
    if body == [] then []
    else if |body| <= limit then BuildFrame(DATA, END_STREAM, streamId, body)
    else BuildFrame(DATA, 0, streamId, body[..limit]) + DataFrames(streamId, body[limit..], limit)
  }

  function BuildResponse(streamId: nat, resp: Response, limit: nat): bytes
    requires limit > 0
  {
    var flags := END_HEADERS + if resp.body == [] then END_STREAM else 0;
    BuildFrame(HEADERS, flags, streamId, Hpack.Encode(ResponseHeaders(resp)))
    + DataFrames(streamId, resp.body, limit)
  }

  // ----- SETTINGS -----

  /** Apply one parameter; an error code stops the frame. */
  function ApplySetting(c: Core, id: nat, value: nat): (r: (Core, nat))
    requires c.Valid()
    ensures r.0.Valid() && r.0.goawaySent == c.goawaySent
  {
    hide Hpack.SetMax;
    if id == SET_HEADER_TABLE_SIZE then
      (c.(headerTableSize := value, decoder := Hpack.SetMax(c.decoder, value)), 0)
    else if id == SET_MAX_CONCURRENT_STREAMS then (c.(maxConcurrentStreams := value), 0)
    else if id == SET_INITIAL_WINDOW_SIZE then
      if value > 0x7FFF_FFFF then (c, FLOW_CONTROL_ERROR) else (c.(initialWindowSize := value), 0)
    else if id == SET_MAX_FRAME_SIZE then
      if value < MIN_FRAME_SIZE || value > LIMIT_FRAME_SIZE then (c, PROTOCOL_ERROR)
      else (c.(maxFrameSize := value), 0)
    else (c, 0)
  }

  function ApplySettings(c: Core, payload: bytes): (r: (Core, nat))
    requires c.Valid() && |payload| % 6 == 0
    ensures r.0.Valid() && r.0.goawaySent == c.goawaySent
    decreases |payload|
  {
    hide ApplySetting;
    if payload == [] then (c, 0)
    else
      var r := ApplySetting(c, BigEndian(payload[..2]), BigEndian(payload[2..6]));
      if r.1 != 0 then r else ApplySettings(r.0, payload[6..])
  }

  function HandleSettings(c: Core, f: Frame): (r: Step)
    requires c.Valid()
    ensures r.core.Valid() && (c.goawaySent ==> r.core.goawaySent)
  {
    hide ApplySettings;
    if f.Has(ACK) then Step(c, [])
    else if |f.payload| % 6 != 0 then Goaway(c, FRAME_SIZE_ERROR, "Invalid SETTINGS frame size")
    else
      var r := ApplySettings(c, f.payload);
      if r.1 != 0 then Goaway(r.0, r.1) else Step(r.0, BuildFrame(SETTINGS, ACK, 0, []))
  }

  // ----- HEADERS and DATA -----

  /** Find the stream or create it; only a new stream moves the highest identifier. */
  function WithStream(c: Core, id: nat): (r: Core)
    requires c.Valid()
    ensures r.Valid() && id in r.streams && r.goawaySent == c.goawaySent
  {
    if id in c.streams then c
    else
      c.(streams := c.streams[id := Stream(id, IDLE, c.initialWindowSize, [], NO_REQUEST, false)],
         lastStreamId := if id > c.lastStreamId then id else c.lastStreamId)
  }

  function Update(c: Core, s: Stream): (r: Core)
    requires c.Valid() && s.id in c.streams
    ensures r.Valid() && r.goawaySent == c.goawaySent
  {
    c.(streams := c.streams[s.id := s])
  }

  function Find(s: bytes, b: byte): (k: nat)
    ensures k <= |s| && (k < |s| ==> s[k] == b)
  {
    if s == [] then 0 else if s[0] == b then 0 else 1 + Find(s[1..], b)
  }

  function ApplyHeader(q: Request, h: Hpack.Header): Request {
    if h.name == Raw(":method") then q.(methodStr := h.value)
    else if h.name == Raw(":path") then
      var k := Find(h.value, 63);
      var q' := q.(uri := h.value, path := h.value[..k]);
      if k < |h.value| then q'.(query := h.value[k + 1..]) else q'
    else if h.name == Raw(":authority") then q.(headers := q.headers[Raw("Host") := h.value])
    else if h.name == Raw(":scheme") then q
    else if h.name != [] && h.name[0] != 58 then q.(headers := q.headers[h.name := h.value])
    else q
  }

  function ApplyHeaders(q: Request, hs: seq<Hpack.Header>): Request
    decreases |hs|
  {
    if hs == [] then q else ApplyHeaders(ApplyHeader(q, hs[0]), hs[1..])
  }

  function MethodOf(s: bytes): Method {
    if s == Raw("GET") then GET
    else if s == Raw("POST") then POST
    else if s == Raw("HEAD") then HEAD
    else if s == Raw("PUT") then PUT
    else if s == Raw("DELETE") then DELETE
    else if s == Raw("OPTIONS") then OPTIONS
    else UNKNOWN
  }

  function BuildRequest(q: Request, hs: seq<Hpack.Header>): Request {
    var q' := ApplyHeaders(q, hs);
    q'.(verb := MethodOf(q'.methodStr), version := Raw("HTTP/2"))
  }

  /** Call the handler with the stream's request and frame its answer. */
  function Respond(handler: Handler, c: Core, s: Stream): (r: Step)
    requires c.Valid() && s.id in c.streams
    ensures r.core.Valid() && r.core.goawaySent == c.goawaySent
  {
    hide BuildResponse;
    var resp := handler(c.calls, s.request);
    Step(Update(c, s).(calls := c.calls + [s.request]), BuildResponse(s.id, resp, c.maxFrameSize))
  }

  /** The header block fragment inside a HEADERS payload, without padding and priority. */
  function Fragment(f: Frame): Option<bytes> {
    if f.Has(PADDED) && f.payload == [] then None
    else
      var pad := if f.Has(PADDED) then f.payload[0] else 0;
      var offset := (if f.Has(PADDED) then 1 else 0) + if f.Has(PRIORITY_FLAG) then 5 else 0;
      if offset + pad > |f.payload| then None else Some(f.payload[offset..|f.payload| - pad])
  }

  /** END_HEADERS: decode the collected block, build the request, and answer it if the stream has ended. */
  function FinishHeaders(handler: Handler, c: Core, s: Stream, endStream: bool): (r: Step)
    requires c.Valid() && s.id in c.streams
    ensures r.core.Valid() && (c.goawaySent ==> r.core.goawaySent)
  {
    hide Hpack.Decode, BuildResponse;
    var d := Hpack.Decode(c.decoder, s.headerBlock);
    var c1 := c.(decoder := d.table);
    match d.headers
    case None => Goaway(c1, COMPRESSION_ERROR)
    case Some(hs) =>
      var s' := s.(request := BuildRequest(s.request, hs), headersComplete := true, headerBlock := []);
      if endStream then Respond(handler, c1, s'.(state := HALF_CLOSED_REMOTE))
      else Step(Update(c1, s'.(state := OPEN)), [])
  }

  function HandleHeaders(handler: Handler, c: Core, f: Frame): (r: Step)
    requires c.Valid()
    ensures r.core.Valid() && (c.goawaySent ==> r.core.goawaySent)
  {
    hide Fragment, FinishHeaders;
    if f.streamId == 0 then Goaway(c, PROTOCOL_ERROR, "HEADERS on stream 0")
    else
      var c1 := WithStream(c, f.streamId);
      match Fragment(f)
      case None => Goaway(c1, PROTOCOL_ERROR)
      case Some(fragment) =>
        var s := c1.streams[f.streamId].(headerBlock := c1.streams[f.streamId].headerBlock + fragment);
        if f.Has(END_HEADERS) then FinishHeaders(handler, Update(c1, s), s, f.Has(END_STREAM))
        else Step(Update(c1, s), [])
  }

  function HandleData(handler: Handler, c: Core, f: Frame): (r: Step)
    requires c.Valid()
    ensures r.core.Valid() && (c.goawaySent ==> r.core.goawaySent)
  {
    hide BuildResponse, BuildFrame;
    if f.streamId == 0 || f.streamId !in c.streams then Goaway(c, PROTOCOL_ERROR)
    else
      var s := c.streams[f.streamId];
      var s1 := s.(request := s.request.(body := s.request.body + f.payload),
                   state := if f.Has(END_STREAM) then HALF_CLOSED_REMOTE else s.state);
      if f.Has(END_STREAM) && s.headersComplete then Respond(handler, c, s1)
      else
        var inc := ToBigEndian(|f.payload|, 4);
        Step(Update(c, s1),
              if f.payload == [] then []
              else BuildFrame(WINDOW_UPDATE, 0, 0, inc) + BuildFrame(WINDOW_UPDATE, 0, f.streamId, inc))
  }

  // ----- The other frames -----

  function HandleWindowUpdate(c: Core, f: Frame): (r: Step)
    requires c.Valid()
    ensures r.core.Valid() && (c.goawaySent ==> r.core.goawaySent)
  {
    if |f.payload| != 4 then Goaway(c, FRAME_SIZE_ERROR)
    else
      var inc := BigEndian(f.payload) % STREAM_IDS;
      if inc == 0 then Goaway(c, PROTOCOL_ERROR)
      else if f.streamId == 0 then Step(c.(connectionWindow := c.connectionWindow + inc), [])
      else if f.streamId in c.streams then
        var s := c.streams[f.streamId];
        Step(Update(c, s.(window := s.window + inc)), [])
      else Step(c, [])
  }

  function HandlePing(c: Core, f: Frame): (r: Step)
    requires c.Valid()
    ensures r.core.Valid() && (c.goawaySent ==> r.core.goawaySent)
  {
    if |f.payload| != 8 then Goaway(c, FRAME_SIZE_ERROR)
    else if f.Has(ACK) then Step(c, [])
    else Step(c, BuildFrame(PING, ACK, 0, f.payload))
  }

  function HandleFrame(handler: Handler, c: Core, f: Frame): (r: Step)
    requires c.Valid()
    ensures r.core.Valid() && (c.goawaySent ==> r.core.goawaySent)
  {
    hide HandleSettings, HandleHeaders, HandleData, HandleWindowUpdate, HandlePing;
    if f.kind == SETTINGS then HandleSettings(c, f)
    else if f.kind == HEADERS then HandleHeaders(handler, c, f)
    else if f.kind == DATA then HandleData(handler, c, f)
    else if f.kind == WINDOW_UPDATE then HandleWindowUpdate(c, f)
    else if f.kind == PING then HandlePing(c, f)
    else if f.kind == GOAWAY then Step(c.(goawaySent := true), [])
    else Step(c, [])
  }

  // ----- The input loop -----

  /** Handle complete frames until one is missing or the connection is finished. */
  function Frames(handler: Handler, c: Conn): (r: Reply)
    requires c.Valid()
    ensures r.conn.Valid() && |r.conn.buffer| <= |c.buffer|
    ensures r.conn.prefaceReceived == c.prefaceReceived && r.conn.settingsSent == c.settingsSent
    ensures r.conn.Alive() ==> c.Alive()
    decreases |c.buffer|
  {
    hide HandleFrame, ParseFrame;
    match ParseFrame(c.buffer, c.core.maxFrameSize)
    case None => Reply(c, [])
    case Some(f) =>
      var h := HandleFrame(handler, c.core, f);
      var c' := c.(buffer := c.buffer[9 + |f.payload|..], core := h.core);
      if h.core.goawaySent then Reply(c', h.output) else Frames(handler, c').After(h.output)
  }

  /** process_input. */
  function Process(handler: Handler, c: Conn, data: bytes): (r: Reply)
    requires c.Valid()
    ensures r.conn.Valid() && (r.conn.Alive() ==> c.Alive())
  {
    hide Frames, Preface;
    var c1 := c.(buffer := c.buffer + data);
    if c.prefaceReceived then Frames(handler, c1)
    else if |c1.buffer| < 24 then Reply(c1, [])
    else if c1.buffer[..24] != Preface() then
      var g := Goaway(c.core, PROTOCOL_ERROR, "Invalid preface");
      Reply(c1.(core := g.core), g.output)
    else
      var c2 := c1.(buffer := c1.buffer[24..], prefaceReceived := true, settingsSent := true);
      Frames(handler, c2).After(BuildSettings())
  }

  /** A run: one process_input call per chunk read from the socket. */
  function ProcessAll(handler: Handler, c: Conn, chunks: seq<bytes>): (r: Reply)
    requires c.Valid()
    ensures r.conn.Valid() && (r.conn.Alive() ==> c.Alive())
    decreases |chunks|
  {
    hide Process;
    if chunks == [] then Reply(c, [])
    else
      var r := Process(handler, c, chunks[0]);
      ProcessAll(handler, r.conn, chunks[1..]).After(r.output)
  }
}
