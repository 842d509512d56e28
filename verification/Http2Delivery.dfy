/**
 * Whole conversations over HTTP/2: any requests on fresh streams, their HEADERS and DATA frames interleaved in any
 * way, compressed in any way, with SETTINGS, PING and WINDOW_UPDATE frames between them and the bytes split into
 * reads in any way, reach the handler in order of completion and are answered in that order.
 */
module Http2Delivery {
  import opened Common
  import opened Http2
  import opened Http2Response
  import opened Hpack
  import T = HpackTable
  import opened HpackBlocks
  import Http2Requests
  import Http2Split

  // ----- What a client sends -----

  datatype Part =
    | Head(id: nat, block: seq<Rep>, last: bool)
    | Body(id: nat, data: bytes, last: bool)
    | Settings(values: seq<(nat, nat)>)
    | SettingsAck
    | Probe(data: bytes)
    | Window(id: nat, inc: nat)
  {
    predicate Starts(stream: nat) {
      Head? && id == stream
    }

    predicate Continues(stream: nat) {
      Body? && id == stream
    }

    predicate Ends(stream: nat) {
      (Starts(stream) || Continues(stream)) && last
    }
  }

  function SettingsText(vs: seq<(nat, nat)>): (r: bytes)
    ensures |r| == 6 * |vs|
  {
    if vs == [] then [] else Setting(vs[0].0, vs[0].1) + SettingsText(vs[1..])
  }

  /** Frame types 0 DATA, 1 HEADERS, 4 SETTINGS, 6 PING, 8 WINDOW_UPDATE; flags 1 END_STREAM or ACK, 4 END_HEADERS. */
  function FrameOf(p: Part): Frame {
    match p
    case Head(id, block, last) => Frame(0x1, if last then 0x5 else 0x4, id, RenderBlock(block))
    case Body(id, data, last) => Frame(0x0, if last then 0x1 else 0x0, id, data)
    case Settings(vs) => Frame(0x4, 0x0, 0, SettingsText(vs))
    case SettingsAck => Frame(0x4, 0x1, 0, [])
    case Probe(data) => Frame(0x6, 0x0, 0, data)
    case Window(id, inc) => Frame(0x8, 0x0, id, ToBigEndian(inc, 4))
  }

  function FrameText(f: Frame): bytes {
    BuildFrame(f.kind, f.flags, f.streamId, f.payload)
  }

  function FrameTexts(fs: seq<Frame>): bytes {
    if fs == [] then [] else FrameText(fs[0]) + FrameTexts(fs[1..])
  }

  function Wire(parts: seq<Part>): bytes {
    if parts == [] then [] else Wire(parts[..|parts| - 1]) + FrameText(FrameOf(parts[|parts| - 1]))
  }

  // ----- What it amounts to -----

  /** The last frame size among the parameters. */
  function LastSize(vs: seq<(nat, nat)>, size: nat): (r: nat)
    requires 16384 <= size <= 16777215
    ensures 16384 <= r <= 16777215
    decreases |vs|
  {
    if vs == [] then size
    else if vs[0].0 == 5 && 16384 <= vs[0].1 <= 16777215 then LastSize(vs[1..], vs[0].1)
    else LastSize(vs[1..], size)
  }

  /** The last value given to one parameter. */
  function LastValue(vs: seq<(nat, nat)>, name: nat, value: nat): nat
    decreases |vs|
  {
    if vs == [] then value else LastValue(vs[1..], name, if vs[0].0 == name then vs[0].1 else value)
  }

  function TableOps(vs: seq<(nat, nat)>): seq<T.Op> {
    if vs == [] then []
    else (if vs[0].0 == 1 then [T.Resize(vs[0].1)] else []) + TableOps(vs[1..])
  }

  /** The frame size in force after these frames. */
  function LimitOf(parts: seq<Part>): (r: nat)
    ensures 16384 <= r <= 16777215
  {
    if parts == [] then 16384
    else
      var before, p := parts[..|parts| - 1], parts[|parts| - 1];
      if p.Settings? then LastSize(p.values, LimitOf(before)) else LimitOf(before)
  }

  /** The value in force for one parameter, from a default. */
  function Announced(parts: seq<Part>, name: nat, default: nat): nat {
    if parts == [] then default
    else
      var before, p := parts[..|parts| - 1], parts[|parts| - 1];
      var value := Announced(before, name, default);
      if p.Settings? then LastValue(p.values, name, value) else value
  }

  /** The header table size announced. */
  function AnnouncedSize(parts: seq<Part>): nat {
    Announced(parts, 1, 4096)
  }

  /** What a stream may still be sent: the initial size when it started, and every increment since. */
  function WindowOf(parts: seq<Part>, id: nat): nat {
    if parts == [] then 65535
    else
      var before, p := parts[..|parts| - 1], parts[|parts| - 1];
      if p.Starts(id) then Announced(before, 4, 65535)
      else WindowOf(before, id) + if p.Window? && p.id == id then p.inc else 0
  }

  /** The highest stream started. */
  function Highest(parts: seq<Part>): nat {
    if parts == [] then 0
    else
      var high, p := Highest(parts[..|parts| - 1]), parts[|parts| - 1];
      if p.Head? && p.id > high then p.id else high
  }

  /** What the blocks and the announced sizes make of the header table. */
  function TableOf(parts: seq<Part>): (t: Table)
    ensures t.Valid()
  {
    if parts == [] then EMPTY
    else
      var t, p := TableOf(parts[..|parts| - 1]), parts[|parts| - 1];
      match p
      case Head(_, block, _) => T.After(t, BlockOps(t, block))
      case Settings(vs) => T.After(t, TableOps(vs))
      case _ => t
  }

  predicate Started(parts: seq<Part>, id: nat) {
    exists i | 0 <= i < |parts| :: parts[i].Starts(id)
  }

  predicate Ended(parts: seq<Part>, id: nat) {
    exists i | 0 <= i < |parts| :: parts[i].Ends(id)
  }

  /** The headers sent on a stream. */
  function HeadersOf(parts: seq<Part>, id: nat): seq<Header> {
    if parts == [] then []
    else
      var before, p := parts[..|parts| - 1], parts[|parts| - 1];
      if p.Starts(id) && BlockHeaders(TableOf(before), p.block).Some? then BlockHeaders(TableOf(before), p.block).value
      else HeadersOf(before, id)
  }

  /** The data sent on a stream. */
  function BodyOf(parts: seq<Part>, id: nat): bytes {
    if parts == [] then []
    else
      var before, p := parts[..|parts| - 1], parts[|parts| - 1];
      BodyOf(before, id) + if p.Continues(id) then p.data else []
  }

  function RequestOf(parts: seq<Part>, id: nat): Request {
    BuildRequest(NO_REQUEST, HeadersOf(parts, id)).(body := BodyOf(parts, id))
  }

  predicate Finishes(p: Part) {
    (p.Head? || p.Body?) && p.last
  }

  /** The requests, in order of completion. */
  function Completed(parts: seq<Part>): seq<Request> {
    if parts == [] then []
    else
      var before, p := parts[..|parts| - 1], parts[|parts| - 1];
      Completed(before) + if Finishes(p) then [RequestOf(parts, p.id)] else []
  }

  /** The streams, in order of completion. */
  function Finished(parts: seq<Part>): seq<nat> {
    if parts == [] then []
    else
      var before, p := parts[..|parts| - 1], parts[|parts| - 1];
      Finished(before) + if Finishes(p) then [p.id] else []
  }

  /** One call for each finished stream, in that order, with the request that its headers and its data spell. */
  ghost predicate Called(parts: seq<Part>, calls: seq<Request>) {
    var ids := Finished(parts);
    && |calls| == |ids|
    && forall k | 0 <= k < |ids| :: Http2Requests.Spells(HeadersOf(parts, ids[k]), BodyOf(parts, ids[k]), calls[k])
  }

  // ----- What the server sends -----

  function DataFrameList(id: nat, body: bytes, limit: nat): seq<Frame>
    requires limit > 0
    decreases |body|
  {
    if body == [] then []
    else if |body| <= limit then [Frame(0x0, 0x1, id, body)]
    else [Frame(0x0, 0x0, id, body[..limit])] + DataFrameList(id, body[limit..], limit)
  }

  /** One HEADERS frame and the body in DATA frames of at most `limit` bytes, the last frame ending the stream. */
  function ResponseFrames(id: nat, resp: Response, limit: nat): seq<Frame>
    requires limit > 0
  {
    [Frame(0x1, if resp.body == [] then 0x5 else 0x4, id, HeaderBlock(resp))]
    + DataFrameList(id, resp.body, limit)
  }

  /** The answer to one more frame. */
  function AnswerTo(handler: Handler, before: seq<Part>, p: Part): seq<Frame> {
    if Finishes(p) then
      ResponseFrames(p.id, handler(Completed(before), RequestOf(before + [p], p.id)), LimitOf(before))
    else
      match p
      case Body(id, data, _) =>
        if data == [] then []
        else [Frame(0x8, 0x0, 0, ToBigEndian(|data|, 4)), Frame(0x8, 0x0, id, ToBigEndian(|data|, 4))]
      case Settings(_) => [Frame(0x4, 0x1, 0, [])]
      case Probe(data) => [Frame(0x6, 0x1, 0, data)]
      case _ => []
  }

  function Answers(handler: Handler, parts: seq<Part>): seq<Frame> {
    if parts == [] then []
    else
      var before, p := parts[..|parts| - 1], parts[|parts| - 1];
      Answers(handler, before) + AnswerTo(handler, before, p)
  }

  // ----- Orderly conversations -----

  predicate GoodSetting(v: (nat, nat)) {
    && v.0 < 0x1_0000 && v.1 < 0x1_0000_0000
    && (v.0 == 4 ==> v.1 <= 0x7FFF_FFFF)
    && (v.0 == 5 ==> 16384 <= v.1 <= 16777215)
  }

  predicate GoodSettings(vs: seq<(nat, nat)>) {
    forall i | 0 <= i < |vs| :: GoodSetting(vs[i])
  }

  /** Streams are fresh, data comes on open streams, references resolve, and frames fit the size in force. */
  ghost predicate Allowed(before: seq<Part>, p: Part) {
    && |FrameOf(p).payload| <= LimitOf(before)
    && match p
       case Head(id, block, _) =>
         && 0 < id < 0x8000_0000 && !Started(before, id)
         && AllValid(block) && BlockHeaders(TableOf(before), block).Some?
       case Body(id, _, _) => 0 < id < 0x8000_0000 && Started(before, id) && !Ended(before, id)
       case Settings(vs) => GoodSettings(vs)
       case SettingsAck => true
       case Probe(data) => |data| == 8
       case Window(id, inc) => id < 0x8000_0000 && 0 < inc < 0x8000_0000
  }

  ghost predicate Orderly(parts: seq<Part>) {
    parts == [] || (Orderly(parts[..|parts| - 1]) && Allowed(parts[..|parts| - 1], parts[|parts| - 1]))
  }

  // ----- One more frame -----

  lemma OneMore(before: seq<Part>, p: Part)
    ensures var parts := before + [p]; parts[..|parts| - 1] == before && parts[|parts| - 1] == p
  {
  }

  /** What the connection holds of one stream. */
  ghost predicate Holds(parts: seq<Part>, id: nat, s: Stream) {
    && s.id == id && s.headerBlock == [] && s.headersComplete && s.request == RequestOf(parts, id)
    && s.window == WindowOf(parts, id)
  }

  ghost predicate StreamsTrack(parts: seq<Part>, streams: map<nat, Stream>) {
    && 0 !in streams && (forall id: nat :: id in streams <==> Started(parts, id))
    && (forall id: nat | id in streams :: Holds(parts, id, streams[id]))
  }

  /** The connection after these frames. */
  ghost predicate Tracks(parts: seq<Part>, c: Core) {
    && c.Valid() && !c.goawaySent
    && c.maxFrameSize == LimitOf(parts) && c.headerTableSize == AnnouncedSize(parts)
    && c.maxConcurrentStreams == Announced(parts, 3, 100) && c.initialWindowSize == Announced(parts, 4, 65535)
    && c.connectionWindow == WindowOf(parts, 0) && c.lastStreamId == Highest(parts)
    && c.decoder == TableOf(parts) && c.calls == Completed(parts)
    && StreamsTrack(parts, c.streams)
  }

  lemma StartedMore(before: seq<Part>, p: Part, id: nat)
    ensures Started(before + [p], id) <==> Started(before, id) || p.Starts(id)
  {
    hide Part.Starts;
    var parts := before + [p];
    if Started(before, id) {
      var i :| 0 <= i < |before| && before[i].Starts(id);
      assert parts[i].Starts(id);
    }
    if p.Starts(id) {
      assert parts[|before|].Starts(id);
    }
  }

  /** A frame of another stream, or of none, leaves the request of a stream alone. */
  lemma RequestSame(before: seq<Part>, p: Part, id: nat)
    requires !p.Starts(id) && !p.Continues(id)
    ensures RequestOf(before + [p], id) == RequestOf(before, id)
  {
    hide BuildRequest, BlockHeaders, TableOf;
    OneMore(before, p);
    assert BodyOf(before, id) + [] == BodyOf(before, id);
  }

  /** A window changes only when its stream starts or is given more. */
  lemma WindowMore(before: seq<Part>, p: Part, id: nat)
    ensures WindowOf(before + [p], id)
         == if p.Starts(id) then Announced(before, 4, 65535)
            else WindowOf(before, id) + if p.Window? && p.id == id then p.inc else 0
  {
    OneMore(before, p);
  }

  lemma StreamsSame(before: seq<Part>, p: Part, streams: map<nat, Stream>)
    requires StreamsTrack(before, streams) && !p.Head? && !p.Body?
    ensures var s := p.Window? && p.id in streams;
            StreamsTrack(before + [p], if s then streams[p.id := streams[p.id].(window := streams[p.id].window + p.inc)] else streams)
  {
    hide Started, RequestOf, WindowOf;
    forall id: nat
      ensures Started(before + [p], id) <==> Started(before, id)
      ensures RequestOf(before + [p], id) == RequestOf(before, id)
      ensures WindowOf(before + [p], id) == WindowOf(before, id) + if p.Window? && p.id == id then p.inc else 0
    {
      StartedMore(before, p, id);
      RequestSame(before, p, id);
      WindowMore(before, p, id);
    }
  }

  lemma NoStreamZero(parts: seq<Part>, streams: map<nat, Stream>)
    requires StreamsTrack(parts, streams)
    ensures 0 !in streams
  {
  }

  lemma StreamsChange(before: seq<Part>, p: Part, streams: map<nat, Stream>, s: Stream)
    requires StreamsTrack(before, streams) && (p.Head? || p.Body?) && p.id != 0
    requires (p.Body? ==> Started(before, p.id)) && Holds(before + [p], p.id, s)
    ensures StreamsTrack(before + [p], streams[p.id := s])
  {
    hide Started, RequestOf, WindowOf;
    forall id: nat
      ensures Started(before + [p], id) <==> Started(before, id) || p.Starts(id)
      ensures id != p.id ==> RequestOf(before + [p], id) == RequestOf(before, id)
      ensures id != p.id ==> WindowOf(before + [p], id) == WindowOf(before, id)
    {
      StartedMore(before, p, id);
      WindowMore(before, p, id);
      if id != p.id {
        RequestSame(before, p, id);
      }
    }
  }

  lemma BuiltBody(hs: seq<Header>)
    ensures BuildRequest(NO_REQUEST, hs).body == []
  {
    hide ApplyHeaders, MethodOf, Raw;
    AppliedBody(NO_REQUEST, hs);
  }

  /** No data precedes the headers of a stream. */
  lemma {:induction false} NoBodyYet(parts: seq<Part>, id: nat)
    requires Orderly(parts) && !Started(parts, id)
    ensures BodyOf(parts, id) == []
    decreases |parts|
  {
    hide Started, LimitOf, TableOf, BlockHeaders, FrameOf;
    if parts != [] {
      var before, p := parts[..|parts| - 1], parts[|parts| - 1];
      assert parts == before + [p];
      StartedMore(before, p, id);
      NoBodyYet(before, id);
    }
  }

  // ----- Responses as frames -----

  lemma {:induction false} TextsAppend(a: seq<Frame>, b: seq<Frame>)
    ensures FrameTexts(a + b) == FrameTexts(a) + FrameTexts(b)
    decreases |a|
  {
    hide FrameText;
    if a == [] {
      assert a + b == b;
    } else {
      TextsAppend(a[1..], b);
      assert (a + b)[0] == a[0] && (a + b)[1..] == a[1..] + b;
    }
  }

  lemma TextOfOne(f: Frame)
    ensures FrameTexts([f]) == FrameText(f)
  {
    hide FrameText;
    assert [f][1..] == [];
    assert FrameText(f) + [] == FrameText(f);
  }

  lemma {:induction false} DataText(id: nat, body: bytes, limit: nat)
    requires limit > 0
    ensures FrameTexts(DataFrameList(id, body, limit)) == DataFrames(id, body, limit)
    decreases |body|
  {
    hide BuildFrame;
    if body == [] {
    } else if |body| <= limit {
      TextOfOne(Frame(0x0, 0x1, id, body));
    } else {
      var f := Frame(0x0, 0x0, id, body[..limit]);
      DataText(id, body[limit..], limit);
      TextsAppend([f], DataFrameList(id, body[limit..], limit));
      TextOfOne(f);
    }
  }

  lemma ResponseText(id: nat, resp: Response, limit: nat)
    requires limit > 0
    ensures FrameTexts(ResponseFrames(id, resp, limit)) == BuildResponse(id, resp, limit)
  {
    hide BuildFrame, DataFrames, DataFrameList, Encode, ResponseHeaders;
    var f := Frame(0x1, if resp.body == [] then 0x5 else 0x4, id, HeaderBlock(resp));
    TextsAppend([f], DataFrameList(id, resp.body, limit));
    TextOfOne(f);
    DataText(id, resp.body, limit);
  }

  // ----- The frames one by one -----

  lemma HeadFlags(f: Frame, last: bool)
    requires f.flags == END_HEADERS + if last then END_STREAM else 0
    ensures f.Has(END_HEADERS) && f.Has(END_STREAM) == last && Fragment(f) == Some(f.payload)
  {
    assert f.payload[0..|f.payload|] == f.payload;
  }

  /** The stream a HEADERS frame leaves. */
  function FreshStream(c: Core, id: nat, q: Request, last: bool): Stream {
    Stream(id, if last then HALF_CLOSED_REMOTE else OPEN, c.initialWindowSize, [], q, true)
  }

  lemma HeadHandled(handler: Handler, c: Core, f: Frame, last: bool, t: Table, hs: seq<Header>)
    requires c.Valid() && 0 < f.streamId && f.streamId !in c.streams
    requires f.kind == HEADERS && f.flags == END_HEADERS + if last then END_STREAM else 0
    requires t.Valid() && Decode(c.decoder, f.payload) == Decoded(t, Some(hs))
    ensures var id, q := f.streamId, BuildRequest(NO_REQUEST, hs);
            var h := HandleFrame(handler, c, f);
            && h.core == c.(decoder := t, streams := c.streams[id := FreshStream(c, id, q, last)],
                            lastStreamId := (if id > c.lastStreamId then id else c.lastStreamId),
                            calls := if last then c.calls + [q] else c.calls)
            && h.output == if last then BuildResponse(id, handler(c.calls, q), c.maxFrameSize) else []
  {
    hide BuildResponse, BuildRequest, Decode, Fragment, Frame.Has, HandleSettings, HandleData, HandleWindowUpdate, HandlePing, Goaway;
    HeadFlags(f, last);
    var id := f.streamId;
    var c1 := WithStream(c, id);
    var s := c1.streams[id].(headerBlock := [] + f.payload);
    assert [] + f.payload == f.payload;
    assert HandleFrame(handler, c, f) == HandleHeaders(handler, c, f) == FinishHeaders(handler, Update(c1, s), s, last);
    var q := BuildRequest(NO_REQUEST, hs);
    assert c1.streams[id := s][id := FreshStream(c, id, q, last)] == c.streams[id := FreshStream(c, id, q, last)];
  }

  /** No parameter of these has changed. */
  ghost predicate Unchanged(before: seq<Part>, parts: seq<Part>) {
    && Announced(parts, 1, 4096) == Announced(before, 1, 4096) && Announced(parts, 3, 100) == Announced(before, 3, 100)
    && Announced(parts, 4, 65535) == Announced(before, 4, 65535)
  }

  /** What the specification says of a conversation one HEADERS frame longer. */
  lemma HeadSpec(before: seq<Part>, p: Part)
    requires Orderly(before) && Allowed(before, p) && p.Head?
    ensures var parts := before + [p];
            var t := TableOf(before);
            var q := BuildRequest(NO_REQUEST, BlockHeaders(t, p.block).value);
            && RequestOf(parts, p.id) == q && TableOf(parts) == T.After(t, BlockOps(t, p.block))
            && LimitOf(parts) == LimitOf(before) && Unchanged(before, parts)
            && WindowOf(parts, p.id) == Announced(before, 4, 65535) && WindowOf(parts, 0) == WindowOf(before, 0)
            && Highest(parts) == (if p.id > Highest(before) then p.id else Highest(before))
            && Completed(parts) == if p.last then Completed(before) + [q] else Completed(before)
  {
    hide BuildRequest, BlockHeaders, BlockOps, Started, RenderBlock, AllValid, T.After, Orderly;
    OneMore(before, p);
    NoBodyYet(before, p.id);
    BuiltBody(BlockHeaders(TableOf(before), p.block).value);
    assert BodyOf(before, p.id) + [] == [];
    assert Completed(before) + [] == Completed(before);
  }

  lemma HeadStep(handler: Handler, before: seq<Part>, p: Part, c: Core)
    requires Orderly(before) && Allowed(before, p) && Tracks(before, c) && p.Head?
    ensures var h := HandleFrame(handler, c, FrameOf(p));
            Tracks(before + [p], h.core) && h.output == FrameTexts(AnswerTo(handler, before, p))
  {
    hide BuildResponse, BuildRequest, Decode, RenderBlock, ResponseFrames, AllValid, Orderly, HandleFrame, RequestOf,
         BlockHeaders, BlockOps, Started, StreamsTrack, LimitOf, Announced, WindowOf, Highest, TableOf, Completed, T.After;
    var f, id, t := FrameOf(p), p.id, TableOf(before);
    var hs := BlockHeaders(t, p.block).value;
    NotYet(before, c, id);
    BlockDecoded(t, p.block);
    HeadHandled(handler, c, f, p.last, T.After(t, BlockOps(t, p.block)), hs);
    HeadSpec(before, p);
    StreamsChange(before, p, c.streams, FreshStream(c, id, BuildRequest(NO_REQUEST, hs), p.last));
    if p.last {
      ResponseText(id, handler(c.calls, BuildRequest(NO_REQUEST, hs)), c.maxFrameSize);
    }
  }

  lemma NotYet(before: seq<Part>, c: Core, id: nat)
    requires Tracks(before, c) && !Started(before, id)
    ensures id !in c.streams
  {
  }

  lemma DataFlags(f: Frame, last: bool)
    requires f.flags == if last then END_STREAM else 0
    ensures f.Has(END_STREAM) == last
  {
  }

  /** A stream with more data on it. */
  function Longer(s: Stream, data: bytes, last: bool): Stream {
    s.(request := s.request.(body := s.request.body + data), state := if last then HALF_CLOSED_REMOTE else s.state)
  }

  lemma BodyHandled(handler: Handler, c: Core, f: Frame, last: bool)
    requires c.Valid() && 0 < f.streamId && f.streamId in c.streams && c.streams[f.streamId].headersComplete
    requires f.kind == DATA && f.flags == if last then END_STREAM else 0
    ensures var id := f.streamId;
            var s := Longer(c.streams[id], f.payload, last);
            var inc := ToBigEndian(|f.payload|, 4);
            var h := HandleFrame(handler, c, f);
            && h.core == c.(streams := c.streams[id := s], calls := if last then c.calls + [s.request] else c.calls)
            && h.output == if last then BuildResponse(id, handler(c.calls, s.request), c.maxFrameSize)
                           else if f.payload == [] then []
                           else BuildFrame(WINDOW_UPDATE, 0, 0, inc) + BuildFrame(WINDOW_UPDATE, 0, id, inc)
  {
    hide BuildResponse, BuildFrame, Frame.Has;
    DataFlags(f, last);
    assert HandleFrame(handler, c, f) == HandleData(handler, c, f);
  }

  lemma BodySpec(before: seq<Part>, p: Part)
    requires p.Body?
    ensures var parts := before + [p];
            var q := RequestOf(before, p.id);
            && RequestOf(parts, p.id) == q.(body := q.body + p.data) && TableOf(parts) == TableOf(before)
            && LimitOf(parts) == LimitOf(before) && Unchanged(before, parts) && Highest(parts) == Highest(before)
            && (forall id: nat :: WindowOf(parts, id) == WindowOf(before, id))
            && Completed(parts) == if p.last then Completed(before) + [RequestOf(parts, p.id)] else Completed(before)
  {
    hide BuildRequest, BlockHeaders, BlockOps, T.After;
    OneMore(before, p);
    assert Completed(before) + [] == Completed(before);
  }

  lemma TextOfTwo(f: Frame, g: Frame)
    ensures FrameTexts([f, g]) == FrameText(f) + FrameText(g)
  {
    hide FrameText, FrameTexts;
    TextsAppend([f], [g]);
    assert [f] + [g] == [f, g];
    TextOfOne(f);
    TextOfOne(g);
  }

  lemma BodyStep(handler: Handler, before: seq<Part>, p: Part, c: Core)
    requires Allowed(before, p) && Tracks(before, c) && p.Body?
    ensures var h := HandleFrame(handler, c, FrameOf(p));
            Tracks(before + [p], h.core) && h.output == FrameTexts(AnswerTo(handler, before, p))
  {
    hide BuildResponse, BuildFrame, ResponseFrames, HandleFrame, RequestOf, Ended, FrameTexts,
         Started, StreamsTrack, LimitOf, Announced, WindowOf, Highest, TableOf, Completed, ToBigEndian;
    var f, id := FrameOf(p), p.id;
    Already(before, c, id);
    BodyHandled(handler, c, f, p.last);
    BodySpec(before, p);
    var s := Longer(c.streams[id], p.data, p.last);
    StreamsChange(before, p, c.streams, s);
    if p.last {
      ResponseText(id, handler(c.calls, s.request), c.maxFrameSize);
    } else if p.data == [] {
      NoText();
    } else {
      var inc := ToBigEndian(|p.data|, 4);
      TextOfTwo(Frame(0x8, 0x0, 0, inc), Frame(0x8, 0x0, id, inc));
    }
  }

  lemma NoText()
    ensures FrameTexts([]) == []
  {
  }

  lemma Already(before: seq<Part>, c: Core, id: nat)
    requires Tracks(before, c) && Started(before, id)
    ensures id in c.streams && Holds(before, id, c.streams[id])
  {
  }

  // ----- Settings -----

  lemma SettingLayout(id: nat, value: nat, rest: bytes)
    requires id < 0x1_0000 && value < 0x1_0000_0000
    ensures var w := Setting(id, value) + rest;
            BigEndian(w[..2]) == id && BigEndian(w[2..6]) == value && w[6..] == rest
  {
    hide ToBigEndian, BigEndian, Pow256;
    var w := Setting(id, value) + rest;
    assert w[..2] == ToBigEndian(id, 2) && w[2..6] == ToBigEndian(value, 4);
    SettingWidths();
    BigEndianRoundTrip(id, 2);
    BigEndianRoundTrip(value, 4);
  }

  lemma SettingWidths()
    ensures Pow256(2) == 0x1_0000 && Pow256(4) == 0x1_0000_0000
  {
  }

  /** Nothing that the specification tells of but sizes and the table. */
  predicate SameElse(c: Core, d: Core) {
    && c.goawaySent == d.goawaySent && c.streams == d.streams && c.calls == d.calls
    && c.connectionWindow == d.connectionWindow && c.lastStreamId == d.lastStreamId
  }

  lemma SettingApplied(c: Core, v: (nat, nat))
    requires c.Valid() && GoodSetting(v)
    ensures var r := ApplySetting(c, v.0, v.1);
            && r.1 == 0 && SameElse(c, r.0)
            && r.0.maxFrameSize == (if v.0 == 5 then v.1 else c.maxFrameSize)
            && r.0.headerTableSize == (if v.0 == 1 then v.1 else c.headerTableSize)
            && r.0.maxConcurrentStreams == (if v.0 == 3 then v.1 else c.maxConcurrentStreams)
            && r.0.initialWindowSize == (if v.0 == 4 then v.1 else c.initialWindowSize)
            && r.0.decoder == if v.0 == 1 then SetMax(c.decoder, v.1) else c.decoder
  {
    hide SetMax;
  }

  lemma {:induction false} SettingsApplied(c: Core, vs: seq<(nat, nat)>)
    requires c.Valid() && GoodSettings(vs)
    ensures var r := ApplySettings(c, SettingsText(vs));
            && r.1 == 0 && SameElse(c, r.0)
            && r.0.maxFrameSize == LastSize(vs, c.maxFrameSize)
            && r.0.headerTableSize == LastValue(vs, 1, c.headerTableSize)
            && r.0.maxConcurrentStreams == LastValue(vs, 3, c.maxConcurrentStreams)
            && r.0.initialWindowSize == LastValue(vs, 4, c.initialWindowSize)
            && r.0.decoder == T.After(c.decoder, TableOps(vs))
    decreases |vs|
  {
    hide ApplySetting, Setting, BigEndian, SetMax, T.After;
    if vs == [] {
      NothingAfter(c.decoder);
    } else {
      var v := vs[0];
      SettingLayout(v.0, v.1, SettingsText(vs[1..]));
      SettingApplied(c, v);
      var d := ApplySetting(c, v.0, v.1).0;
      SettingsApplied(d, vs[1..]);
      if v.0 == 1 {
        FirstOp(c.decoder, T.Resize(v.1), TableOps(vs[1..]));
      } else {
        assert [] + TableOps(vs[1..]) == TableOps(vs[1..]);
      }
    }
  }

  lemma NothingAfter(t: Table)
    requires t.Valid()
    ensures T.After(t, []) == t
  {
  }

  lemma SettingsHandled(handler: Handler, c: Core, f: Frame)
    requires c.Valid() && f.kind == SETTINGS && f.flags == 0 && |f.payload| % 6 == 0 && ApplySettings(c, f.payload).1 == 0
    ensures HandleFrame(handler, c, f) == Step(ApplySettings(c, f.payload).0, BuildFrame(SETTINGS, ACK, 0, []))
  {
    hide ApplySettings, BuildFrame, HandleHeaders, HandleData, HandleWindowUpdate, HandlePing, Core.Valid, Goaway;
  }

  lemma SettingsStep(handler: Handler, before: seq<Part>, p: Part, c: Core)
    requires Allowed(before, p) && Tracks(before, c) && p.Settings?
    ensures var h := HandleFrame(handler, c, FrameOf(p));
            Tracks(before + [p], h.core) && h.output == FrameTexts(AnswerTo(handler, before, p))
  {
    hide BuildFrame, HandleFrame, RequestOf, FrameTexts, StreamsTrack, T.After, LastSize, LastValue, ApplySettings, GoodSettings;
    OneMore(before, p);
    SettingsApplied(c, p.values);
    SettingsHandled(handler, c, FrameOf(p));
    StreamsSame(before, p, c.streams);
    TextOfOne(Frame(0x4, 0x1, 0, []));
    assert Completed(before) + [] == Completed(before);
  }

  // ----- The other frames -----

  lemma OtherSpec(before: seq<Part>, p: Part)
    requires p.SettingsAck? || p.Probe? || p.Window?
    ensures var parts := before + [p];
            && TableOf(parts) == TableOf(before) && LimitOf(parts) == LimitOf(before)
            && Unchanged(before, parts) && Highest(parts) == Highest(before) && Completed(parts) == Completed(before)
            && WindowOf(parts, 0) == WindowOf(before, 0) + if p.Window? && p.id == 0 then p.inc else 0
  {
    hide BlockOps, T.After, RequestOf;
    OneMore(before, p);
    assert Completed(before) + [] == Completed(before);
  }

  lemma QuietHandled(handler: Handler, c: Core, f: Frame)
    requires c.Valid()
    ensures f.kind == SETTINGS && f.flags == ACK ==> HandleFrame(handler, c, f) == Step(c, [])
    ensures f.kind == PING && f.flags == 0 && |f.payload| == 8 ==> HandleFrame(handler, c, f) == Step(c, BuildFrame(PING, ACK, 0, f.payload))
  {
    hide ApplySettings, BuildFrame, HandleHeaders, HandleData, HandleWindowUpdate, Core.Valid, Goaway;
  }

  lemma WindowHandled(handler: Handler, c: Core, f: Frame, inc: nat)
    requires c.Valid() && f.kind == WINDOW_UPDATE && f.payload == ToBigEndian(inc, 4) && 0 < inc < 0x8000_0000
    ensures var h := HandleFrame(handler, c, f);
            && h.output == []
            && h.core == if f.streamId == 0 then c.(connectionWindow := c.connectionWindow + inc)
                         else if f.streamId in c.streams then
                           var s := c.streams[f.streamId];
                           c.(streams := c.streams[f.streamId := s.(window := s.window + inc)])
                         else c
  {
    hide ToBigEndian, BigEndian, Pow256, HandleSettings, HandleHeaders, HandleData, HandlePing, Goaway;
    SettingWidths();
    BigEndianRoundTrip(inc, 4);
    assert HandleFrame(handler, c, f) == HandleWindowUpdate(c, f);
  }

  lemma OtherStep(handler: Handler, before: seq<Part>, p: Part, c: Core)
    requires Allowed(before, p) && Tracks(before, c) && (p.SettingsAck? || p.Probe? || p.Window?)
    ensures var h := HandleFrame(handler, c, FrameOf(p));
            Tracks(before + [p], h.core) && h.output == FrameTexts(AnswerTo(handler, before, p))
  {
    hide BuildFrame, HandleFrame, RequestOf, FrameTexts, StreamsTrack, TableOf, LimitOf, Announced, WindowOf, Highest, Completed, ToBigEndian;
    var f := FrameOf(p);
    OtherSpec(before, p);
    StreamsSame(before, p, c.streams);
    NoText();
    if p.Window? {
      WindowHandled(handler, c, f, p.inc);
      NoStreamZero(before, c.streams);
    } else {
      QuietHandled(handler, c, f);
      if p.Probe? {
        TextOfOne(Frame(0x6, 0x1, 0, p.data));
      }
    }
  }

  lemma PartStep(handler: Handler, before: seq<Part>, p: Part, c: Core)
    requires Orderly(before) && Allowed(before, p) && Tracks(before, c)
    ensures var h := HandleFrame(handler, c, FrameOf(p));
            Tracks(before + [p], h.core) && h.output == FrameTexts(AnswerTo(handler, before, p))
  {
    hide HandleFrame, Tracks, FrameTexts, AnswerTo, Allowed, Orderly, FrameOf;
    TracksValid(before, c);
    match p {
      case Head(_, _, _) => HeadStep(handler, before, p, c);
      case Body(_, _, _) => BodyStep(handler, before, p, c);
      case Settings(_) => SettingsStep(handler, before, p, c);
      case _ => OtherStep(handler, before, p, c);
    }
  }

  lemma TracksValid(parts: seq<Part>, c: Core)
    requires Tracks(parts, c)
    ensures c.Valid() && !c.goawaySent && c.maxFrameSize == LimitOf(parts)
  {
  }

  // ----- Whole conversations -----

  /** A connection that has read everything, in the state of the conversation, having sent the answers. */
  ghost predicate Delivered(handler: Handler, parts: seq<Part>, r: Reply) {
    && r.conn == Conn([], true, true, r.conn.core) && Tracks(parts, r.conn.core)
    && r.output == BuildSettings() + FrameTexts(Answers(handler, parts))
  }

  lemma NothingSent()
    ensures INITIAL.Valid() && Tracks([], INITIAL.core)
  {
  }

  lemma OnlyPreface(handler: Handler)
    ensures INITIAL.Valid() && Delivered(handler, [], Process(handler, INITIAL, Preface() + Wire([])))
  {
    hide Preface, ParseFrame, BuildSettings, Tracks, HandleFrame;
    NothingSent();
    var data := Preface() + Wire([]);
    assert [] + data == data && data[..24] == Preface() && data[24..] == [];
    NoFrame(INITIAL.core.maxFrameSize);
    assert BuildSettings() + [] == BuildSettings();
  }

  /** Reading one more frame, with nothing else in the buffer. */
  lemma FrameRead(handler: Handler, c: Conn, f: Frame)
    requires c.Valid() && c.buffer == [] && c.prefaceReceived && f.streamId < 0x8000_0000 && |f.payload| <= c.core.maxFrameSize
    requires !HandleFrame(handler, c.core, f).core.goawaySent
    ensures var h := HandleFrame(handler, c.core, f);
            Process(handler, c, FrameText(f)) == Reply(c.(core := h.core), h.output)
  {
    hide BuildFrame, ParseFrame, HandleFrame, Frames, Preface;
    var w := FrameText(f);
    assert [] + w == w && w + [] == w;
    FrameRoundTrip(f.kind, f.flags, f.streamId, f.payload, [], c.core.maxFrameSize);
    LastFrame(handler, c.(buffer := w), f);
  }

  lemma AllowedFits(before: seq<Part>, p: Part)
    requires Allowed(before, p)
    ensures FrameOf(p).streamId < 0x8000_0000 && |FrameOf(p).payload| <= LimitOf(before)
  {
    hide LimitOf, Started, Ended, TableOf, BlockHeaders, AllValid, RenderBlock, GoodSettings;
  }

  lemma AnswersMore(handler: Handler, parts: seq<Part>)
    requires parts != []
    ensures var before, p := parts[..|parts| - 1], parts[|parts| - 1];
            FrameTexts(Answers(handler, parts)) == FrameTexts(Answers(handler, before)) + FrameTexts(AnswerTo(handler, before, p))
  {
    hide AnswerTo, FrameTexts;
    TextsAppend(Answers(handler, parts[..|parts| - 1]), AnswerTo(handler, parts[..|parts| - 1], parts[|parts| - 1]));
  }

  lemma {:induction false} Conversation(handler: Handler, parts: seq<Part>)
    requires Orderly(parts)
    ensures INITIAL.Valid() && Delivered(handler, parts, Process(handler, INITIAL, Preface() + Wire(parts)))
    decreases |parts|
  {
    hide Process, HandleFrame, FrameText, FrameTexts, Answers, AnswerTo, BuildSettings, Tracks, Allowed, FrameOf, Preface;
    NothingSent();
    if parts == [] {
      OnlyPreface(handler);
    } else {
      var before, p := parts[..|parts| - 1], parts[|parts| - 1];
      Conversation(handler, before);
      var a, b := Preface() + Wire(before), FrameText(FrameOf(p));
      assert Preface() + Wire(parts) == a + b;
      var r := Process(handler, INITIAL, a);
      TracksValid(before, r.conn.core);
      Http2Split.SplitWhileAlive(handler, INITIAL, a, b);
      Http2Split.UseSplit(handler, INITIAL, a, b);
      PartStep(handler, before, p, r.conn.core);
      assert parts == before + [p];
      var h := HandleFrame(handler, r.conn.core, FrameOf(p));
      TracksValid(parts, h.core);
      AllowedFits(before, p);
      FrameRead(handler, r.conn, FrameOf(p));
      AnswersMore(handler, parts);
      ThreeTexts(BuildSettings(), FrameTexts(Answers(handler, before)), h.output);
    }
  }

  lemma ThreeTexts(a: bytes, b: bytes, c: bytes)
    ensures a + b + c == a + (b + c)
  {
  }

  // ----- What the handler is called with -----

  /** Finished streams have ended, and ended streams have started. */
  lemma {:induction false} FinishedEnded(parts: seq<Part>, id: nat)
    requires Orderly(parts)
    ensures id in Finished(parts) ==> Ended(parts, id)
    ensures Ended(parts, id) ==> Started(parts, id)
    decreases |parts|
  {
    hide LimitOf, TableOf, BlockHeaders, FrameOf, Started, Part.Ends;
    if parts != [] {
      var before, p := parts[..|parts| - 1], parts[|parts| - 1];
      assert parts == before + [p];
      FinishedEnded(before, id);
      StartedMore(before, p, id);
      EndedMore(before, p, id);
      EndsWhen(p, id);
    }
  }

  lemma EndsWhen(p: Part, id: nat)
    ensures p.Ends(id) <==> (p.Starts(id) || p.Continues(id)) && p.last
  {
  }

  lemma EndedMore(before: seq<Part>, p: Part, id: nat)
    ensures Ended(before + [p], id) <==> Ended(before, id) || p.Ends(id)
  {
    hide Part.Ends;
    var parts := before + [p];
    if Ended(before, id) {
      var i :| 0 <= i < |before| && before[i].Ends(id);
      assert parts[i].Ends(id);
    }
    if p.Ends(id) {
      assert parts[|before|].Ends(id);
    }
  }

  lemma SameStream(before: seq<Part>, p: Part, id: nat)
    requires !p.Starts(id) && !p.Continues(id)
    ensures HeadersOf(before + [p], id) == HeadersOf(before, id) && BodyOf(before + [p], id) == BodyOf(before, id)
  {
    hide BlockHeaders, TableOf;
    OneMore(before, p);
    assert BodyOf(before, id) + [] == BodyOf(before, id);
  }

  lemma {:induction false} CompletedCalled(parts: seq<Part>)
    requires Orderly(parts)
    ensures Called(parts, Completed(parts))
    decreases |parts|
  {
    hide Http2Requests.Spells, HeadersOf, BodyOf, BuildRequest, Allowed;
    if parts != [] {
      var before, p := parts[..|parts| - 1], parts[|parts| - 1];
      assert parts == before + [p];
      CompletedCalled(before);
      var ids, calls := Finished(before), Completed(before);
      forall k | 0 <= k < |ids|
        ensures Http2Requests.Spells(HeadersOf(parts, ids[k]), BodyOf(parts, ids[k]), calls[k])
      {
        FinishedEnded(before, ids[k]);
        NotAgain(before, p, ids[k]);
        SameStream(before, p, ids[k]);
      }
      if Finishes(p) {
        Http2Requests.BuiltSpelled(HeadersOf(parts, p.id), BodyOf(parts, p.id));
      }
    }
  }

  lemma NotAgain(before: seq<Part>, p: Part, id: nat)
    requires Allowed(before, p) && Started(before, id) && Ended(before, id)
    ensures !p.Starts(id) && !p.Continues(id)
  {
  }

  // ----- What the client reads -----

  function ServerSettings(): Frame {
    Frame(0x4, 0x0, 0, Setting(3, 100) + Setting(4, 65535) + Setting(5, 16384))
  }

  predicate Readable(f: Frame, limit: nat) {
    f.streamId < 0x8000_0000 && |f.payload| <= limit
  }

  lemma {:induction false} FramesReadBack(fs: seq<Frame>, limit: nat)
    requires limit <= 16777215 && forall i | 0 <= i < |fs| :: Readable(fs[i], limit)
    ensures ParseAll(FrameTexts(fs), limit) == (fs, [])
    decreases |fs|
  {
    hide BuildFrame, ParseFrame;
    if fs == [] {
      NoFrame(limit);
    } else {
      var f, rest := fs[0], FrameTexts(fs[1..]);
      assert Readable(f, limit);
      FrameRoundTrip(f.kind, f.flags, f.streamId, f.payload, rest, limit);
      FrameRest(f.kind, f.flags, f.streamId, f.payload, rest);
      FramesReadBack(fs[1..], limit);
      assert [f] + fs[1..] == fs;
    }
  }

  /** Only a header block can be too long for a frame. */
  predicate Fit(f: Frame) {
    f.streamId < 0x8000_0000 && (f.kind != 0x1 ==> |f.payload| <= 16777215)
  }

  lemma {:induction false} DataFit(id: nat, body: bytes, limit: nat)
    requires 0 < limit <= 16777215 && id < 0x8000_0000
    ensures forall f | f in DataFrameList(id, body, limit) :: Fit(f)
    decreases |body|
  {
    if |body| > limit {
      DataFit(id, body[limit..], limit);
    }
  }

  lemma AnswerFit(handler: Handler, before: seq<Part>, p: Part)
    requires Allowed(before, p)
    ensures forall f | f in AnswerTo(handler, before, p) :: Fit(f)
  {
    hide LimitOf, Started, Ended, TableOf, BlockHeaders, AllValid, RenderBlock, GoodSettings, HeaderBlock, RequestOf, Completed, DataFrameList;
    if Finishes(p) {
      DataFit(p.id, handler(Completed(before), RequestOf(before + [p], p.id)).body, LimitOf(before));
    }
  }

  lemma {:induction false} AnswersFit(handler: Handler, parts: seq<Part>)
    requires Orderly(parts)
    ensures forall f | f in Answers(handler, parts) :: Fit(f)
    decreases |parts|
  {
    hide AnswerTo, Allowed, Fit;
    if parts != [] {
      AnswersFit(handler, parts[..|parts| - 1]);
      AnswerFit(handler, parts[..|parts| - 1], parts[|parts| - 1]);
    }
  }

  lemma SettingsFirst(fs: seq<Frame>)
    ensures BuildSettings() + FrameTexts(fs) == FrameTexts([ServerSettings()] + fs)
    ensures Readable(ServerSettings(), 16777215)
  {
    hide BuildFrame;
    TextsAppend([ServerSettings()], fs);
    TextOfOne(ServerSettings());
  }

  /**
   * Any orderly conversation, split into reads in any way: the handler is called with exactly the requests sent, in
   * order of completion, and the bytes sent back are the server's SETTINGS and then the answer to each frame in turn.
   */
  lemma {:induction false} EndToEnd(handler: Handler, parts: seq<Part>, chunks: seq<bytes>)
    requires Orderly(parts) && Concat(chunks) == CLIENT_PREFACE + Wire(parts)
    ensures INITIAL.Valid()
    ensures var r := ProcessAll(handler, INITIAL, chunks);
            && r.conn.Alive() && r.conn.buffer == []
            && r.conn.core.calls == Completed(parts) && Called(parts, r.conn.core.calls)
            && Tracks(parts, r.conn.core)
            && r.output == BuildSettings() + FrameTexts(Answers(handler, parts))
  {
    hide Process, ProcessAll, Wire, Preface, BuildSettings, FrameTexts, Answers, Completed, TableOf, AnnouncedSize, StreamsTrack, Orderly;
    hide Called;
    PrefaceBytes();
    Conversation(handler, parts);
    CompletedCalled(parts);
    assert chunks != [] by { NoChunks(chunks); }
    Http2Split.LiveChunking(handler, INITIAL, chunks);
  }

  lemma NoChunks(chunks: seq<bytes>)
    ensures chunks == [] ==> Concat(chunks) == []
  {
  }

  /** A client reads back exactly those frames, as long as the header blocks of the responses fit a frame. */
  lemma {:induction false} AnswersReadBack(handler: Handler, parts: seq<Part>)
    requires Orderly(parts)
    requires forall f | f in Answers(handler, parts) && f.kind == 0x1 :: |f.payload| <= 16777215
    ensures ParseAll(BuildSettings() + FrameTexts(Answers(handler, parts)), 16777215)
         == ([ServerSettings()] + Answers(handler, parts), [])
  {
    hide BuildSettings, FrameTexts, Answers, ParseAll, Orderly, ServerSettings;
    var fs := Answers(handler, parts);
    AnswersFit(handler, parts);
    SettingsFirst(fs);
    var all := [ServerSettings()] + fs;
    forall i | 0 <= i < |all|
      ensures Readable(all[i], 16777215)
    {
      assert i > 0 ==> all[i] == fs[i - 1] && fs[i - 1] in fs && Fit(fs[i - 1]);
    }
    FramesReadBack(all, 16777215);
  }

  // ----- A size update beyond the announced size -----

  /** One request whose block is a size update and nothing else. */
  function Oversized(): seq<Part> {
    [Head(1, [SizeUpdate(4097)], true)]
  }

  lemma UpdateText()
    ensures |RenderBlock([SizeUpdate(4097)])| <= 16384
  {
    Patterns();
    hide Pow2;
    assert [SizeUpdate(4097)][1..] == [];
    assert EncodeTail(31) == [31];
    assert EncodeTail(4066) == [4066 % 128 + 128] + EncodeTail(4066 / 128);
  }

  lemma OversizedMeaning()
    ensures Orderly(Oversized()) && TableOf(Oversized()).max == 4097 && AnnouncedSize(Oversized()) == 4096
  {
    hide RenderBlock, Rep.Render, SetMax;
    UpdateText();
    var parts, p := Oversized(), Head(1, [SizeUpdate(4097)], true);
    assert parts[..0] == [] && parts[0] == p;
    var block := [SizeUpdate(4097)];
    assert block[1..] == [];
    assert BlockHeaders(EMPTY, block) == Joined([], Some([]));
    assert BlockOps(EMPTY, block) == [T.Resize(4097)] + [];
    T.AfterOne(EMPTY, T.Resize(4097));
    assert !Started([], 1);
  }

  /** The decoder takes the size, although section 6.3 of RFC 7541 forbids one over what was announced. */
  lemma SizeUpdateTaken(handler: Handler)
    ensures INITIAL.Valid()
    ensures var c := ProcessAll(handler, INITIAL, [CLIENT_PREFACE + Wire(Oversized())]).conn.core;
            c.decoder.max == 4097 && c.headerTableSize == 4096 && !c.goawaySent
  {
    hide ProcessAll, Preface, Wire, Orderly, TableOf, AnnouncedSize, Oversized, FrameTexts, Answers;
    OversizedMeaning();
    var data := CLIENT_PREFACE + Wire(Oversized());
    assert Concat([data]) == data by { OneChunk(data); }
    EndToEnd(handler, Oversized(), [data]);
  }

  lemma OneChunk(data: bytes)
    ensures Concat([data]) == data
  {
    assert [data][1..] == [] && data + [] == data;
  }
}
