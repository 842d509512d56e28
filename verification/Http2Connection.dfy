/** The Http2Connection object of src/http2.cpp, updated in place and proved against module Http2. */
module Http2Connection {
  import opened Common
  import opened Http2
  import Hpack
  import HpackCodec
  import Http2Split

  class Connection {
    const handler: Handler
    const decoder: HpackCodec.HpackDecoder
    var buffer: bytes
    var prefaceReceived: bool
    var settingsSent: bool
    var goawaySent: bool
    var lastStreamId: nat
    var connectionWindow: int
    var maxFrameSize: nat
    var maxConcurrentStreams: nat
    var headerTableSize: nat
    var initialWindowSize: nat
    var streams: map<nat, Stream>
    var calls: seq<Request>  // the handler calls made so far; the handler may depend on them

    ghost function AbsCore(): Core
      reads this, decoder
    {
      Core(goawaySent, lastStreamId, connectionWindow, maxFrameSize, maxConcurrentStreams,
           headerTableSize, initialWindowSize, decoder.Abs(), streams, calls)
    }

    ghost function Abs(): Conn
      reads this, decoder
    {
      Conn(buffer, prefaceReceived, settingsSent, AbsCore())
    }

    ghost predicate Valid()
      reads this, decoder
    {
      AbsCore().Valid()
    }

    constructor (handler: Handler)
      ensures Valid() && Abs() == INITIAL && fresh(decoder) && this.handler == handler
    {
      this.handler := handler;
      decoder := new HpackCodec.HpackDecoder();
      buffer, prefaceReceived, settingsSent, goawaySent := [], false, false, false;
      lastStreamId, connectionWindow, maxFrameSize, maxConcurrentStreams := 0, 65535, 16384, 100;
      headerTableSize, initialWindowSize, streams, calls := 4096, 65535, map[], [];
    }

    method ProcessInput(data: bytes) returns (output: bytes)
      requires Valid()
      modifies this, decoder
      ensures Valid() && Reply(Abs(), output) == Process(handler, old(Abs()), data)
    {
      hide Frames, BuildSettings, Preface, BuildFrame;
      buffer := buffer + data;
      output := [];
      if !prefaceReceived {
        if |buffer| < 24 { return; }
        if buffer[..24] != Preface() {
          output := Goaway(PROTOCOL_ERROR, "Invalid preface");
          return;
        }
        buffer := buffer[24..];
        prefaceReceived := true;
        output := BuildSettings();
        settingsSent := true;
      }
      var more := ProcessFrames();
      output := output + more;
    }

    /** The frame loop of process_input. */
    method ProcessFrames() returns (output: bytes)
      requires Valid()
      modifies this, decoder
      ensures Valid() && Reply(Abs(), output) == Frames(handler, old(Abs()))
    {
      hide HandleFrame, Http2.ParseFrame, Frames;
      output := [];
      ghost var whole := Frames(handler, Abs());
      assert whole == whole.After([]);
      while true
        invariant Valid() && whole == Frames(handler, Abs()).After(output)
        decreases |buffer|
      {
        ghost var c := Abs();
        var frame := ParseFrame();
        if frame.None? {
          NoMoreFrames(handler, c);
          assert output + [] == output;
          break;
        }
        var more := Handle(frame.value);
        OneMoreFrame(handler, c, frame.value);
        if goawaySent {
          output := output + more;
          break;
        }
        Http2Split.Regroup(Frames(handler, Abs()), output, more);
        output := output + more;
      }
    }

    /** Take one frame off the buffer if it is complete and within the limit. */
    method ParseFrame() returns (frame: Option<Frame>)
      requires Valid()
      modifies this`buffer
      ensures Valid() && frame == Http2.ParseFrame(old(buffer), maxFrameSize)
      ensures buffer == if frame.None? then old(buffer) else old(buffer)[9 + |frame.value.payload|..]
    {
      if |buffer| < 9 { return None; }
      var length := BigEndian(buffer[..3]);
      if length > maxFrameSize { return None; }
      if |buffer| < 9 + length { return None; }
      frame := Some(Frame(buffer[3], buffer[4], BigEndian(buffer[5..9]) % STREAM_IDS, buffer[9..9 + length]));
      buffer := buffer[9 + length..];
    }

    method Goaway(error: nat, debug: string) returns (output: bytes)
      requires Valid()
      modifies this`goawaySent
      ensures Valid() && Step(AbsCore(), output) == Http2.Goaway(old(AbsCore()), error, debug)
    {
      goawaySent := true;
      output := BuildFrame(GOAWAY, 0, 0, ToBigEndian(lastStreamId, 4) + ToBigEndian(error, 4) + Raw(debug));
    }

    method Handle(f: Frame) returns (output: bytes)
      requires Valid()
      modifies this, decoder
      ensures Valid() && Step(AbsCore(), output) == HandleFrame(handler, old(AbsCore()), f)
      ensures buffer == old(buffer) && prefaceReceived == old(prefaceReceived) && settingsSent == old(settingsSent)
    {
      hide HandleSettings, HandleHeaders, HandleData, HandleWindowUpdate, HandlePing;
      if f.kind == SETTINGS {
        output := OnSettings(f);
      } else if f.kind == HEADERS {
        output := OnHeaders(f);
      } else if f.kind == DATA {
        output := OnData(f);
      } else if f.kind == WINDOW_UPDATE {
        output := OnWindowUpdate(f);
      } else if f.kind == PING {
        output := OnPing(f);
      } else {
        if f.kind == GOAWAY {
          goawaySent := true;
        }
        output := [];
      }
    }

    /** One parameter; a nonzero result is the error that ends the connection. */
    method Apply(id: nat, value: nat) returns (error: nat)
      requires Valid()
      modifies this, decoder
      ensures Valid() && (AbsCore(), error) == ApplySetting(old(AbsCore()), id, value)
      ensures buffer == old(buffer) && prefaceReceived == old(prefaceReceived) && settingsSent == old(settingsSent)
    {
      hide Hpack.SetMax;
      error := 0;
      if id == SET_HEADER_TABLE_SIZE {
        headerTableSize := value;
        decoder.SetMaxTableSize(value);
      } else if id == SET_MAX_CONCURRENT_STREAMS {
        maxConcurrentStreams := value;
      } else if id == SET_INITIAL_WINDOW_SIZE {
        if value > 0x7FFF_FFFF { return FLOW_CONTROL_ERROR; }
        initialWindowSize := value;
      } else if id == SET_MAX_FRAME_SIZE {
        if value < MIN_FRAME_SIZE || value > LIMIT_FRAME_SIZE { return PROTOCOL_ERROR; }
        maxFrameSize := value;
      }
    }

    method OnSettings(f: Frame) returns (output: bytes)
      requires Valid()
      modifies this, decoder
      ensures Valid() && Step(AbsCore(), output) == HandleSettings(old(AbsCore()), f)
      ensures buffer == old(buffer) && prefaceReceived == old(prefaceReceived) && settingsSent == old(settingsSent)
    {
      hide BuildFrame, ApplySetting, ApplySettings, BigEndian;
      if f.Has(ACK) { return []; }
      if |f.payload| % 6 != 0 {
        output := Goaway(FRAME_SIZE_ERROR, "Invalid SETTINGS frame size");
        return;
      }
      var i := 0;
      assert f.payload[0..] == f.payload;
      while i < |f.payload|
        invariant 0 <= i <= |f.payload| && i % 6 == 0 && Valid()
        invariant ApplySettings(AbsCore(), f.payload[i..]) == ApplySettings(old(AbsCore()), f.payload)
        invariant buffer == old(buffer) && prefaceReceived == old(prefaceReceived) && settingsSent == old(settingsSent)
      {
        SettingsStep(AbsCore(), f.payload, i);
        var id, value := BigEndian(f.payload[i..i + 2]), BigEndian(f.payload[i + 2..i + 6]);
        var error := Apply(id, value);
        if error != 0 {
          output := Goaway(error, "");
          return;
        }
        i := i + 6;
      }
      NoSettings(AbsCore(), f.payload[i..]);
      output := BuildFrame(SETTINGS, ACK, 0, []);
    }

    method OnHeaders(f: Frame) returns (output: bytes)
      requires Valid()
      modifies this, decoder
      ensures Valid() && Step(AbsCore(), output) == HandleHeaders(handler, old(AbsCore()), f)
      ensures buffer == old(buffer) && prefaceReceived == old(prefaceReceived) && settingsSent == old(settingsSent)
    {
      hide FinishHeaders, BuildFrame, Frame.Has, Fragment, Raw;
      if f.streamId == 0 {
        output := Goaway(PROTOCOL_ERROR, "HEADERS on stream 0");
        return;
      }
      CreateStream(f.streamId);
      var fragment := StripPadding(f);
      if fragment.None? {
        output := Goaway(PROTOCOL_ERROR, "");
        return;
      }
      var stream := streams[f.streamId];
      stream := stream.(headerBlock := stream.headerBlock + fragment.value);
      streams := streams[f.streamId := stream];
      if !f.Has(END_HEADERS) { return []; }
      output := Finish(stream, f.Has(END_STREAM));
    }

    /** The END_HEADERS part of handle_headers. */
    method Finish(stream: Stream, endStream: bool) returns (output: bytes)
      requires Valid() && stream.id in streams
      modifies this, decoder
      ensures Valid() && Step(AbsCore(), output) == FinishHeaders(handler, old(AbsCore()), stream, endStream)
      ensures buffer == old(buffer) && prefaceReceived == old(prefaceReceived) && settingsSent == old(settingsSent)
    {
      hide Hpack.Decode, BuildResponse, BuildFrame, BuildRequest, Raw;
      var decoded := decoder.Decode(stream.headerBlock);
      if decoded.None? {
        output := Goaway(COMPRESSION_ERROR, "");
        return;
      }
      var s := stream.(request := BuildRequest(stream.request, decoded.value), headersComplete := true, headerBlock := [],
                       state := if endStream then HALF_CLOSED_REMOTE else OPEN);
      streams := streams[s.id := s];
      if !endStream { return []; }
      output := Answer(s);
    }

    /** Call the handler and frame its response. */
    method Answer(stream: Stream) returns (output: bytes)
      requires Valid() && stream.id in streams && streams[stream.id] == stream
      modifies this`calls
      ensures Valid() && Step(AbsCore(), output) == Respond(handler, old(AbsCore()), stream)
    {
      hide BuildResponse;
      var response := handler(calls, stream.request);
      calls := calls + [stream.request];
      output := BuildHeadersResponse(stream.id, response);
      assert streams[stream.id := stream] == streams;
    }

    method CreateStream(id: nat)
      requires Valid()
      modifies this`streams, this`lastStreamId
      ensures Valid() && AbsCore() == WithStream(old(AbsCore()), id)
    {
      if id !in streams {
        streams := streams[id := Stream(id, IDLE, initialWindowSize, [], NO_REQUEST, false)];
        if id > lastStreamId {
          lastStreamId := id;
        }
      }
    }

    static method StripPadding(f: Frame) returns (r: Option<bytes>)
      ensures r == Fragment(f)
    {
      hide Frame.Has;
      var pad: nat, offset: nat := 0, 0;
      if f.Has(PADDED) {
        if f.payload == [] { return None; }
        pad, offset := f.payload[0], 1;
      }
      if f.Has(PRIORITY_FLAG) {
        offset := offset + 5;
      }
      if offset + pad > |f.payload| { return None; }
      return Some(f.payload[offset..|f.payload| - pad]);
    }

    method OnData(f: Frame) returns (output: bytes)
      requires Valid()
      modifies this, decoder
      ensures Valid() && Step(AbsCore(), output) == HandleData(handler, old(AbsCore()), f)
      ensures buffer == old(buffer) && prefaceReceived == old(prefaceReceived) && settingsSent == old(settingsSent)
    {
      hide BuildResponse, BuildFrame, Frame.Has;
      if f.streamId == 0 {
        output := Goaway(PROTOCOL_ERROR, "");
        return;
      }
      if f.streamId !in streams {
        output := Goaway(PROTOCOL_ERROR, "");
        return;
      }
      var stream := streams[f.streamId];
      stream := stream.(request := stream.request.(body := stream.request.body + f.payload));
      if f.Has(END_STREAM) {
        stream := stream.(state := HALF_CLOSED_REMOTE);
      }
      streams := streams[f.streamId := stream];
      if f.Has(END_STREAM) && stream.headersComplete {
        output := Answer(stream);
        return;
      }
      output := [];
      if |f.payload| > 0 {
        var inc := ToBigEndian(|f.payload|, 4);
        output := BuildFrame(WINDOW_UPDATE, 0, 0, inc) + BuildFrame(WINDOW_UPDATE, 0, f.streamId, inc);
      }
    }

    method OnWindowUpdate(f: Frame) returns (output: bytes)
      requires Valid()
      modifies this, decoder
      ensures Valid() && Step(AbsCore(), output) == HandleWindowUpdate(old(AbsCore()), f)
      ensures buffer == old(buffer) && prefaceReceived == old(prefaceReceived) && settingsSent == old(settingsSent)
    {
      hide BuildFrame;
      output := [];
      if |f.payload| != 4 {
        output := Goaway(FRAME_SIZE_ERROR, "");
        return;
      }
      var inc := BigEndian(f.payload) % STREAM_IDS;
      if inc == 0 {
        output := Goaway(PROTOCOL_ERROR, "");
        return;
      }
      if f.streamId == 0 {
        connectionWindow := connectionWindow + inc;
      } else if f.streamId in streams {
        var stream := streams[f.streamId];
        streams := streams[f.streamId := stream.(window := stream.window + inc)];
      }
    }

    method OnPing(f: Frame) returns (output: bytes)
      requires Valid()
      modifies this, decoder
      ensures Valid() && Step(AbsCore(), output) == HandlePing(old(AbsCore()), f)
      ensures buffer == old(buffer) && prefaceReceived == old(prefaceReceived) && settingsSent == old(settingsSent)
    {
      hide BuildFrame;
      if |f.payload| != 8 {
        output := Goaway(FRAME_SIZE_ERROR, "");
        return;
      }
      if f.Has(ACK) { return []; }
      output := BuildFrame(PING, ACK, 0, f.payload);
    }

    method BuildHeadersResponse(streamId: nat, resp: Response) returns (output: bytes)
      requires Valid()
      ensures output == BuildResponse(streamId, resp, maxFrameSize)
    {
      hide BuildFrame, ResponseHeaders, Hpack.Encode;
      var encoded := HpackCodec.EncodeHeaders(ResponseHeaders(resp));
      var flags := END_HEADERS;
      if resp.body == [] {
        flags := flags + END_STREAM;
      }
      output := BuildFrame(HEADERS, flags, streamId, encoded);
      var offset := 0;
      assert resp.body[0..] == resp.body;
      while offset < |resp.body|
        invariant 0 <= offset <= |resp.body|
        invariant output + DataFrames(streamId, resp.body[offset..], maxFrameSize) == BuildResponse(streamId, resp, maxFrameSize)
      {
        var chunk := if |resp.body| - offset < maxFrameSize then |resp.body| - offset else maxFrameSize;
        var last := offset + chunk >= |resp.body|;
        var frame := BuildFrame(DATA, if last then END_STREAM else 0, streamId, resp.body[offset..offset + chunk]);
        ghost var rest := resp.body[offset..];
        assert rest[..chunk] == resp.body[offset..offset + chunk] && rest[chunk..] == resp.body[offset + chunk..];
        assert output + (frame + DataFrames(streamId, rest[chunk..], maxFrameSize))
            == output + frame + DataFrames(streamId, rest[chunk..], maxFrameSize);
        output := output + frame;
        offset := offset + chunk;
        assert last ==> rest[..chunk] == rest && frame + [] == frame;
      }
      assert output + [] == output;
    }
  }

  lemma {:induction false} SettingsStep(c: Core, payload: bytes, i: nat)
    requires c.Valid() && i + 6 <= |payload| && |payload| % 6 == 0 && i % 6 == 0
    ensures var r := ApplySetting(c, BigEndian(payload[i..i + 2]), BigEndian(payload[i + 2..i + 6]));
            ApplySettings(c, payload[i..]) == if r.1 != 0 then r else ApplySettings(r.0, payload[i + 6..])
  {
    hide ApplySetting, BigEndian;
    var rest := payload[i..];
    assert rest[..2] == payload[i..i + 2] && rest[2..6] == payload[i + 2..i + 6] && rest[6..] == payload[i + 6..];
  }

  lemma NoSettings(c: Core, payload: bytes)
    requires c.Valid() && payload == []
    ensures ApplySettings(c, payload) == (c, 0)
  {
  }

  lemma NoMoreFrames(handler: Handler, c: Conn)
    requires c.Valid() && ParseFrame(c.buffer, c.core.maxFrameSize).None?
    ensures Frames(handler, c) == Reply(c, [])
  {
    hide ParseFrame;
  }

  lemma OneMoreFrame(handler: Handler, c: Conn, f: Frame)
    requires c.Valid() && ParseFrame(c.buffer, c.core.maxFrameSize) == Some(f)
    ensures var h := HandleFrame(handler, c.core, f);
            var c' := c.(buffer := c.buffer[9 + |f.payload|..], core := h.core);
            Frames(handler, c) == if h.core.goawaySent then Reply(c', h.output) else Frames(handler, c').After(h.output)
  {
    hide ParseFrame, HandleFrame;
  }
}
