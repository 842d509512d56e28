/**
 * Which frames end an HTTP/2 connection, with which error code of section 7 of RFC 7540, and what the connection
 * sends then. Every other frame leaves it alive.
 */
module Http2Errors {
  import opened Common
  import opened Http2
  import opened Http2Response
  import Hpack
  import Bits

  // ----- What is wrong with a frame -----

  predicate Bit(f: Frame, k: nat)
    requires k > 0
  {
    (f.flags as int) / k % 2 == 1
  }

  /** The first parameter that is out of range: 4 is the initial window, 5 the frame size. */
  function SettingFault(payload: bytes): Option<nat>
    decreases |payload|
  {
    if |payload| < 6 then None
    else
      var name, value := BigEndian(payload[..2]), BigEndian(payload[2..6]);
      if name == 4 && value > 2147483647 then Some(3)
      else if name == 5 && !(16384 <= value <= 16777215) then Some(1)
      else SettingFault(payload[6..])
  }

  /** What padding and priority take from a HEADERS payload: their fields in front, the padding behind. */
  function Front(f: Frame): nat {
    (if Bit(f, 8) then 1 else 0) + if Bit(f, 32) then 5 else 0
  }

  function Back(f: Frame): nat {
    if Bit(f, 8) && f.payload != [] then f.payload[0] else 0
  }

  predicate Framed(f: Frame) {
    (Bit(f, 8) ==> f.payload != []) && Front(f) + Back(f) <= |f.payload|
  }

  /** The header block collected on a stream when this frame is added. */
  function Collected(c: Core, f: Frame): bytes
    requires Framed(f)
  {
    (if f.streamId in c.streams then c.streams[f.streamId].headerBlock else []) + f.payload[Front(f)..|f.payload| - Back(f)]
  }

  function HeadersFault(c: Core, f: Frame): Option<nat>
    requires c.Valid()
  {
    if f.streamId == 0 || !Framed(f) then Some(1)
    else if Bit(f, 4) && Hpack.Decode(c.decoder, Collected(c, f)).headers.None? then Some(9)
    else None
  }

  /** 1 is PROTOCOL_ERROR, 3 FLOW_CONTROL_ERROR, 6 FRAME_SIZE_ERROR, 9 COMPRESSION_ERROR. */
  function Fault(c: Core, f: Frame): Option<nat>
    requires c.Valid()
  {
    if f.kind == 0 then if f.streamId == 0 || f.streamId !in c.streams then Some(1) else None
    else if f.kind == 1 then HeadersFault(c, f)
    else if f.kind == 4 then
      if Bit(f, 1) then None else if |f.payload| % 6 != 0 then Some(6) else SettingFault(f.payload)
    else if f.kind == 6 then if |f.payload| != 8 then Some(6) else None
    else if f.kind == 8 then
      if |f.payload| != 4 then Some(6) else if BigEndian(f.payload) % 2147483648 == 0 then Some(1) else None
    else None
  }

  // ----- What the connection does about it -----

  /** One GOAWAY frame on stream 0 with these fields, and some text for debugging. */
  ghost predicate SaysGoaway(output: bytes, last: nat, code: nat) {
    exists f: Frame ::
      && ParseFrame(output, 16384) == Some(f) && |output| == 9 + |f.payload|
      && f.kind == 7 && f.flags == 0 && f.streamId == 0 && |f.payload| >= 8
      && BigEndian(f.payload[..4]) == last % 4294967296 && BigEndian(f.payload[4..8]) == code
  }

  lemma {:induction false} LowBytes(n: nat, k: nat)
    ensures BigEndian(ToBigEndian(n, k)) == n % Pow256(k)
    decreases k
  {
    if k > 0 {
      LowBytes(n / 256, k - 1);
      assert ToBigEndian(n, k)[..k - 1] == ToBigEndian(n / 256, k - 1);
      ModSplit(n, Pow256(k - 1));
    }
  }

  lemma ModSplit(n: nat, p: nat)
    requires p > 0
    ensures 256 * (n / 256 % p) + n % 256 == n % (256 * p)
  {
    var q, r := n / 256 / p, n / 256 % p;
    assert n == 256 * (q * p + r) + n % 256;
    assert n == q * (256 * p) + (256 * r + n % 256);
    Bits.DivMod(q, 256 * p, 256 * r + n % 256);
  }

  lemma {:induction false} GoawaySaid(c: Core, code: nat, debug: string)
    requires c.Valid() && code < 256 && |debug| < 100
    ensures SaysGoaway(Goaway(c, code, debug).output, c.lastStreamId, code)
  {
    hide BuildFrame, ParseFrame, ToBigEndian, BigEndian, Raw;
    var last, what := ToBigEndian(c.lastStreamId, 4), ToBigEndian(code, 4);
    var payload := last + what + Raw(debug);
    Widths();
    LowBytes(c.lastStreamId, 4);
    LowBytes(code, 4);
    RawLength(debug);
    assert payload[..4] == last && payload[4..8] == what;
    FrameRoundTrip(7, 0, 0, payload, [], 16384);
    var output := BuildFrame(7, 0, 0, payload);
    assert output + [] == output;
    assert ParseFrame(output, 16384) == Some(Frame(7, 0, 0, payload));
  }

  lemma RawLength(s: string)
    ensures |Raw(s)| == |s|
  {
  }

  ghost predicate EndsWith(r: Step, c: Core, last: nat, code: nat) {
    SaysGoaway(r.output, last, code) && r.core.goawaySent && r.core.calls == c.calls && r.core.lastStreamId == last
  }

  /** The highest stream that the GOAWAY names: a HEADERS frame counts although it failed. */
  function LastNamed(c: Core, f: Frame): nat {
    if f.kind == 1 && f.streamId > c.lastStreamId then f.streamId else c.lastStreamId
  }

  lemma {:induction false} SettingsRefused(c: Core, payload: bytes)
    requires c.Valid() && |payload| % 6 == 0
    ensures var r := ApplySettings(c, payload);
            && r.1 == (if SettingFault(payload).Some? then SettingFault(payload).value else 0)
            && r.0.calls == c.calls && r.0.lastStreamId == c.lastStreamId && r.0.goawaySent == c.goawaySent
    decreases |payload|
  {
    hide BigEndian, Hpack.SetMax;
    if payload != [] {
      var r := ApplySetting(c, BigEndian(payload[..2]), BigEndian(payload[2..6]));
      if r.1 == 0 {
        SettingsRefused(r.0, payload[6..]);
      }
    }
  }

  lemma {:induction false} FaultKnown(payload: bytes)
    ensures SettingFault(payload).Some? ==> SettingFault(payload).value == 1 || SettingFault(payload).value == 3
    decreases |payload|
  {
    hide BigEndian;
    if |payload| >= 6 {
      FaultKnown(payload[6..]);
    }
  }

  lemma {:induction false} SettingsAnswered(handler: Handler, c: Core, f: Frame)
    requires c.Valid() && f.kind == 4
    ensures var r := HandleFrame(handler, c, f);
            if Fault(c, f).Some? then EndsWith(r, c, c.lastStreamId, Fault(c, f).value) else r.core.goawaySent == c.goawaySent
  {
    hide ApplySettings, SettingFault, SaysGoaway, BuildFrame, Goaway, HandleHeaders, HandleData, HandleWindowUpdate, HandlePing;
    if !Bit(f, 1) {
      if |f.payload| % 6 != 0 {
        GoawaySaid(c, 6, "Invalid SETTINGS frame size");
      } else {
        SettingsRefused(c, f.payload);
        FaultKnown(f.payload);
        var r := ApplySettings(c, f.payload);
        if r.1 != 0 {
          GoawaySaid(r.0, r.1, "");
        }
      }
    }
  }

  lemma {:induction false} FragmentRead(f: Frame)
    ensures Fragment(f).Some? <==> Framed(f)
    ensures Framed(f) ==> Fragment(f).value == f.payload[Front(f)..|f.payload| - Back(f)]
  {
  }

  lemma {:induction false} FinishAnswered(handler: Handler, c: Core, s: Stream, endStream: bool)
    requires c.Valid() && s.id in c.streams
    ensures var r := FinishHeaders(handler, c, s, endStream);
            if Hpack.Decode(c.decoder, s.headerBlock).headers.None? then EndsWith(r, c, c.lastStreamId, 9)
            else r.core.goawaySent == c.goawaySent
  {
    hide SaysGoaway, BuildResponse, Goaway, Hpack.Decode, BuildRequest;
    var d := Hpack.Decode(c.decoder, s.headerBlock);
    if d.headers.None? {
      GoawaySaid(c.(decoder := d.table), 9, "");
    }
  }

  /** Where a well-formed HEADERS frame leads. */
  lemma {:induction false} HeadersCollected(handler: Handler, c: Core, f: Frame) returns (d: Core, s: Stream)
    requires c.Valid() && f.streamId != 0 && Framed(f)
    ensures d.Valid() && s.id in d.streams && s.headerBlock == Collected(c, f)
    ensures d.decoder == c.decoder && d.goawaySent == c.goawaySent && d.calls == c.calls
    ensures d.lastStreamId == if f.streamId > c.lastStreamId then f.streamId else c.lastStreamId
    ensures HandleHeaders(handler, c, f) == if Bit(f, 4) then FinishHeaders(handler, d, s, f.Has(END_STREAM)) else Step(d, [])
  {
    hide Fragment, FinishHeaders, Front, Back;
    FragmentRead(f);
    var c1 := WithStream(c, f.streamId);
    s := c1.streams[f.streamId].(headerBlock := Collected(c, f));
    d := Update(c1, s);
  }

  lemma {:induction false} HeadersAnswered(handler: Handler, c: Core, f: Frame)
    requires c.Valid() && f.kind == 1
    ensures var r := HandleHeaders(handler, c, f);
            if Fault(c, f).Some? then EndsWith(r, c, LastNamed(c, f), Fault(c, f).value) else r.core.goawaySent == c.goawaySent
  {
    hide SaysGoaway, Goaway, Hpack.Decode, Collected, Framed, FinishHeaders, Fragment;
    if f.streamId == 0 {
      GoawaySaid(c, 1, "HEADERS on stream 0");
    } else if !Framed(f) {
      FragmentRead(f);
      GoawaySaid(WithStream(c, f.streamId), 1, "");
    } else {
      hide HandleHeaders;
      var d, s := HeadersCollected(handler, c, f);
      FinishAnswered(handler, d, s, f.Has(END_STREAM));
    }
  }

  lemma {:induction false} OthersAnswered(handler: Handler, c: Core, f: Frame)
    requires c.Valid() && f.kind != 1 && f.kind != 4
    ensures var r := HandleFrame(handler, c, f);
            if Fault(c, f).Some? then EndsWith(r, c, c.lastStreamId, Fault(c, f).value)
            else r.core.goawaySent == (c.goawaySent || f.kind == 7)
  {
    hide SaysGoaway, BuildResponse, BuildFrame, Goaway, HandleSettings, HandleHeaders, ToBigEndian, BigEndian;
    GoawaySaid(c, 1, "");
    GoawaySaid(c, 6, "");
  }

  lemma HeadersDispatched(handler: Handler, c: Core, f: Frame)
    requires c.Valid() && f.kind == 1
    ensures HandleFrame(handler, c, f) == HandleHeaders(handler, c, f)
  {
  }

  /** A frame with a fault is answered with GOAWAY and its code and calls no handler; any other frame ends nothing but GOAWAY. */
  lemma {:induction false} FaultAnswered(handler: Handler, c: Core, f: Frame)
    requires c.Valid()
    ensures var r := HandleFrame(handler, c, f);
            && (Fault(c, f).Some? ==> EndsWith(r, c, LastNamed(c, f), Fault(c, f).value))
            && (Fault(c, f).None? ==> r.core.goawaySent == (c.goawaySent || f.kind == 7))
  {
    hide Fault, EndsWith, HandleFrame;
    if f.kind == 4 {
      SettingsAnswered(handler, c, f);
    } else if f.kind == 1 {
      HeadersAnswered(handler, c, f);
      HeadersDispatched(handler, c, f);
    } else {
      OthersAnswered(handler, c, f);
    }
  }

  /** Frames that are answered with nothing and change nothing, except that GOAWAY ends the connection. */
  predicate Ignored(f: Frame) {
    (f.kind !in {0, 1, 4, 6, 8}) || (f.kind == 4 && Bit(f, 1)) || (f.kind == 6 && |f.payload| == 8 && Bit(f, 1))
  }

  lemma {:induction false} IgnoredSilently(handler: Handler, c: Core, f: Frame)
    requires c.Valid() && Ignored(f)
    ensures HandleFrame(handler, c, f) == Step(c.(goawaySent := c.goawaySent || f.kind == 7), [])
  {
    hide ApplySettings, BuildFrame, Goaway, HandleHeaders, HandleData, HandleWindowUpdate;
  }

  // ----- Whole connections -----

  /** Once a frame has a fault, the GOAWAY is the last thing sent and what follows the frame is not looked at. */
  lemma {:induction false} FaultEndsReading(handler: Handler, c: Conn, f: Frame)
    requires c.Valid() && c.Alive() && ParseFrame(c.buffer, c.core.maxFrameSize) == Some(f) && Fault(c.core, f).Some?
    ensures var r := Frames(handler, c);
            && SaysGoaway(r.output, LastNamed(c.core, f), Fault(c.core, f).value) && !r.conn.Alive()
            && r.conn.core.calls == c.core.calls && r.conn.buffer == c.buffer[9 + |f.payload|..]
  {
    hide Fault, SaysGoaway, HandleFrame, ParseFrame;
    FaultAnswered(handler, c.core, f);
  }

  /** The first 24 bytes decide: waiting, GOAWAY with code 1, or SETTINGS and the frames that follow. */
  lemma {:induction false} PrefaceAnswered(handler: Handler, c: Conn, data: bytes)
    requires c.Valid() && !c.prefaceReceived
    ensures var all := c.buffer + data;
            var r := Process(handler, c, data);
            && (|all| < 24 ==> r == Reply(c.(buffer := all), []))
            && (|all| >= 24 && all[..24] != CLIENT_PREFACE ==>
                  SaysGoaway(r.output, c.core.lastStreamId, 1) && r.conn == c.(buffer := all, core := c.core.(goawaySent := true)))
            && (|all| >= 24 && all[..24] == CLIENT_PREFACE ==>
                  var f := Frames(handler, c.(buffer := all[24..], prefaceReceived := true, settingsSent := true));
                  r.conn == f.conn && r.output == BuildSettings() + f.output)
  {
    hide Frames, SaysGoaway, Goaway, BuildSettings;
    PrefaceBytes();
    GoawaySaid(c.core, 1, "Invalid preface");
  }
}
