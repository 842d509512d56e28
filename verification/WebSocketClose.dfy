/**
 * How a WebSocket connection ends: which bytes are refused, which close code answers each violation, and the closing
 * handshake (sections 5 and 7 of RFC 6455), with the numbers of the RFC and the limits of the source written out.
 */
module WebSocketClose {
  import opened Common
  import opened WebSocket
  import opened WebSocketSplit
  import opened WebSocketDelivery

  // ----- Which bytes are refused -----

  /** How many bytes of extended length the second byte announces. */
  function Extra(second: byte): nat {
    if second % 128 == 126 then 2 else if second % 128 == 127 then 8 else 0
  }

  /** The payload length, most significant byte first. */
  function Length(buf: bytes): nat
    requires |buf| >= 2 && |buf| >= 2 + Extra(buf[1])
  {
    if Extra(buf[1]) == 0 then buf[1] % 128
    else if Extra(buf[1]) == 2 then 256 * (buf[2] as int) + buf[3]
    else
      0x100_0000_0000_0000 * (buf[2] as int) + 0x1_0000_0000_0000 * (buf[3] as int) + 0x100_0000_0000 * (buf[4] as int)
      + 0x1_0000_0000 * (buf[5] as int) + 0x100_0000 * (buf[6] as int) + 0x1_0000 * (buf[7] as int)
      + 0x100 * (buf[8] as int) + buf[9]
  }

  /** A reserved bit is set; or, once the length is there, it is over 16 MB or the mask bit is not set. */
  predicate Refused(buf: bytes) {
    && |buf| >= 2
    && (|| buf[0] % 128 >= 16
        || (|buf| >= 2 + Extra(buf[1]) && (Length(buf) > 16777216 || buf[1] < 128)))
  }

  predicate WholeFrame(buf: bytes) {
    |buf| >= 2 && |buf| >= 2 + Extra(buf[1]) && |buf| >= 6 + Extra(buf[1]) + Length(buf)
  }

  lemma OneMoreByte(s: bytes)
    requires s != []
    ensures BigEndian(s) == 256 * BigEndian(s[..|s| - 1]) + s[|s| - 1]
  {
  }

  lemma FourBytes(s: bytes)
    requires |s| == 4
    ensures BigEndian(s) == 0x100_0000 * (s[0] as int) + 0x1_0000 * (s[1] as int) + 0x100 * (s[2] as int) + s[3]
  {
    hide BigEndian;
    OneMoreByte(s);
    OneMoreByte(s[..3]);
    assert s[..3][..2] == s[..2];
    TwoBytes(s[..2]);
  }

  lemma EightBytes(s: bytes)
    requires |s| == 8
    ensures BigEndian(s)
         == 0x100_0000_0000_0000 * (s[0] as int) + 0x1_0000_0000_0000 * (s[1] as int) + 0x100_0000_0000 * (s[2] as int)
            + 0x1_0000_0000 * (s[3] as int) + 0x100_0000 * (s[4] as int) + 0x1_0000 * (s[5] as int)
            + 0x100 * (s[6] as int) + s[7]
  {
    hide BigEndian;
    OneMoreByte(s);
    OneMoreByte(s[..7]);
    OneMoreByte(s[..6]);
    OneMoreByte(s[..5]);
    assert s[..7][..6] == s[..6] && s[..6][..5] == s[..5] && s[..5][..4] == s[..4];
    FourBytes(s[..4]);
  }

  lemma LengthRead(buf: bytes)
    requires |buf| >= 2 && |buf| >= 2 + Extra(buf[1])
    ensures Length(buf) == if Extra(buf[1]) == 0 then buf[1] % 128 else BigEndian(buf[2..2 + Extra(buf[1])])
  {
    hide BigEndian;
    if Extra(buf[1]) == 2 {
      TwoBytes(buf[2..4]);
    } else if Extra(buf[1]) == 8 {
      EightBytes(buf[2..10]);
    }
  }

  lemma ReservedBits(b: byte)
    ensures b / 16 % 8 != 0 <==> b % 128 >= 16
  {
  }

  /** The reader refuses exactly these bytes, waits exactly for the rest of a frame, and takes a whole frame apart. */
  lemma ParsedIff(buf: bytes)
    ensures ParseFrame(buf).Fatal? <==> Refused(buf)
    ensures ParseFrame(buf).Got? <==> !Refused(buf) && WholeFrame(buf)
    ensures ParseFrame(buf).Got? ==>
              var f, at := ParseFrame(buf).frame, 6 + Extra(buf[1]);
              && ParseFrame(buf).size == at + Length(buf)
              && f.fin == (buf[0] >= 128) && f.opcode == buf[0] % 128 && |f.payload| == Length(buf)
              && forall i | 0 <= i < Length(buf) :: f.payload[i] == XorByte(buf[at + i], buf[at - 4 + i % 4])
  {
    hide BigEndian, XorByte, Length;
    if |buf| >= 2 {
      ReservedBits(buf[0]);
      if |buf| >= 2 + Extra(buf[1]) {
        LengthRead(buf);
      }
    }
  }

  // ----- Which code answers a violation -----

  /** The close code of section 7.4.1 for a frame that the connection does not accept in this state. */
  function Violation(st: State, f: Frame): Option<nat> {
    if f.opcode == 1 || f.opcode == 2 then
      if st.inFragment then Some(1002)
      else if !f.fin && |f.payload| > 67108864 then Some(1009)
      else None
    else if f.opcode == 0 then
      if !st.inFragment then Some(1002)
      else if |st.message| + |f.payload| > 67108864 then Some(1009)
      else None
    else if f.opcode == 9 then if |f.payload| > 125 then Some(1002) else None
    else if f.opcode == 8 || f.opcode == 10 then None
    else Some(1002)
  }

  /** The two bytes of a close code. */
  predicate Carries(payload: bytes, code: nat) {
    |payload| >= 2 && 256 * (payload[0] as int) + payload[1] == code
  }

  lemma CodeBytes(code: nat)
    requires code < 65536
    ensures ToBigEndian(code, 2) == [code / 256, code % 256]
  {
    assert ToBigEndian(code / 256, 1) == ToBigEndian(code / 256 / 256, 0) + [code / 256 % 256];
  }

  /** A close frame as the client reads it. */
  lemma CloseRead(code: nat, reason: bytes)
    requires code < 65536 && |reason| < 0x8000_0000
    ensures ReadServerFrame(BuildClose(code, reason)) == Some((Frame(true, 8, [code / 256, code % 256] + reason), []))
    ensures Carries([code / 256, code % 256] + reason, code)
  {
    hide BuildFrame, ReadServerFrame, ToBigEndian;
    CodeBytes(code);
    var w := BuildClose(code, reason);
    BuildFrameRoundTrip(CLOSE, ToBigEndian(code, 2) + reason, true, []);
    assert w + [] == w;
  }

  /** The connection is closed, nothing is reported, and one close frame with this code is sent. */
  ghost predicate ClosedWith(r: Reply, code: nat) {
    && r.state.closed && r.events == []
    && ReadServerFrame(r.output).Some?
    && var (g, rest) := ReadServerFrame(r.output).value;
       g.fin && g.opcode == 8 && Carries(g.payload, code) && rest == []
  }

  lemma FailCloses(st: State, code: nat, reason: string)
    requires code < 65536 && |reason| < 100
    ensures ClosedWith(Fail(st, code, reason), code)
  {
    hide BuildClose, ReadServerFrame;
    CloseRead(code, Raw(reason));
  }

  /** Every violation is answered with its code. */
  lemma ViolationAnswered(st: State, f: Frame)
    requires !st.closed && Violation(st, f).Some?
    ensures ClosedWith(HandleFrame(st, f), Violation(st, f).value)
  {
    hide Fail, ClosedWith, BuildFrame;
    FailCloses(st, 1002, "Expected continuation frame");
    FailCloses(st, 1002, "Unexpected continuation");
    FailCloses(st, 1002, "Ping payload too large");
    FailCloses(st, 1002, "Unknown opcode");
    FailCloses(st.(inFragment := true, fragmentOpcode := f.opcode, message := f.payload), 1009, "Message too large");
    FailCloses(st.(message := st.message + f.payload), 1009, "Message too large");
  }

  /** Without one only a close frame ends the connection. */
  lemma NoViolation(st: State, f: Frame)
    requires !st.closed && Violation(st, f).None?
    ensures HandleFrame(st, f).state.closed <==> f.opcode == 8
  {
    hide BuildFrame, BuildClose;
  }

  /** A frame that is refused outright ends the connection without an answer and without a callback. */
  lemma RefusedSilently(st: State, data: bytes)
    requires !st.closed && Refused(st.buffer + data)
    ensures Process(st, data) == Reply(st.(buffer := st.buffer + data, closed := true), [], [])
  {
    hide ParseFrame, Refused;
    ParsedIff(st.buffer + data);
  }

  // ----- The closing handshake -----

  /** What a close frame says: its code and reason, or 1005 if it is too short to carry a code. */
  predicate Says(payload: bytes, code: nat, reason: bytes) {
    if |payload| < 2 then code == 1005 && reason == [] else Carries(payload, code) && reason == payload[2..]
  }

  lemma SaysCode(payload: bytes)
    requires |payload| >= 2
    ensures Carries(payload, BigEndian(payload[..2]))
  {
    TwoBytes(payload[..2]);
  }

  /** One close frame is reported once, answered unless a close was sent before, with the same code and reason, and ends the connection. */
  lemma CloseHandled(st: State, payload: bytes, code: nat, reason: bytes)
    requires !st.closed && Says(payload, code, reason) && |payload| <= 16777216
    ensures var r := HandleFrame(st, Frame(true, 8, payload));
            && r.events == [OnClose(code, reason)] && r.state == st.(closed := true, closeSent := true)
            && (st.closeSent ==> r.output == [])
            && (!st.closeSent ==> ReadServerFrame(r.output) == Some((Frame(true, 8, [code / 256, code % 256] + reason), [])))
  {
    hide BuildClose, ReadServerFrame, BigEndian;
    if |payload| >= 2 {
      SaysCode(payload);
      assert |payload| == 2 ==> payload[2..] == [];
    }
    CloseRead(code, reason);
  }

  /** The echo has the payload that was received. */
  lemma SamePayload(payload: bytes, code: nat, reason: bytes)
    requires |payload| >= 2 && Says(payload, code, reason)
    ensures [code / 256, code % 256] + reason == payload
  {
    assert code / 256 == payload[0] && code % 256 == payload[1];
  }

  lemma DrainOne(st: State, f: Frame, n: nat, h: Reply)
    requires !st.closed && n <= |st.buffer| && ParseFrame(st.buffer) == Got(f, n)
    requires h == HandleFrame(st.(buffer := st.buffer[n..]), f) && h.state.closed
    ensures Drain(st) == Reply(h.state, h.output + [], h.events + [])
  {
    hide ParseFrame, HandleFrame;
    assert Drain(h.state) == Reply(h.state, [], []);
  }

  /**
   * A client's close frame, whatever code and reason it carries and whatever follows it on the wire: one callback
   * with them, one close frame back with them, and nothing more is handled.
   */
  lemma {:induction false} CloseHandshake(st: State, payload: bytes, key: bytes, code: nat, reason: bytes, rest: bytes)
    requires !st.closed && !st.closeSent && st.buffer == []
    requires Says(payload, code, reason) && |payload| <= 16777216 && |key| == 4
    ensures var r := Process(st, Render(ClientFrame(Frame(true, 8, payload), key)) + rest);
            && r.events == [OnClose(code, reason)]
            && ReadServerFrame(r.output) == Some((Frame(true, 8, [code / 256, code % 256] + reason), []))
            && r.state == st.(closed := true, closeSent := true, buffer := rest)
  {
    hide HandleFrame, ParseFrame, Render, ReadServerFrame, Says;
    var c := ClientFrame(Frame(true, 8, payload), key);
    var w := Render(c) + rest;
    assert st.buffer + w == w && w[|Render(c)|..] == rest;
    ParseRendered(c, rest);
    CloseHandled(st.(buffer := rest), payload, code, reason);
    var h := HandleFrame(st.(buffer := rest), c.frame);
    assert h.output + [] == h.output && h.events + [] == h.events;
    DrainOne(st.(buffer := w), c.frame, |Render(c)|, h);
    assert st.(buffer := w).(buffer := rest) == st.(buffer := rest);
  }

  lemma OneChunk(a: bytes)
    ensures Concat([a]) == a
  {
    assert [a][1..] == [] && a + [] == a;
  }

  lemma OnlyClose(code: nat, reason: bytes)
    ensures Messages([OnClose(code, reason)]) == [] && Pings([OnClose(code, reason)]) == []
  {
  }

  lemma {:induction false} MessagesConcat(a: seq<Event>, b: seq<Event>)
    ensures Messages(a + b) == Messages(a) + Messages(b)
  {
    if a == [] {
      assert a + b == b;
    } else {
      assert (a + b)[1..] == a[1..] + b;
      MessagesConcat(a[1..], b);
    }
  }

  /** A whole conversation that ends in a close: the messages, one pong for each ping, and then the handshake. */
  lemma {:induction false} EndToEndClosed(ms: seq<Message>, fs: seq<ClientFrame>, payload: bytes, key: bytes, code: nat,
                                          reason: bytes, rest: bytes, chunks: seq<bytes>)
    requires ValidMessages(ms) && Conveys(fs, ms)
    requires Says(payload, code, reason) && |payload| <= 16777216 && |key| == 4
    requires Concat(chunks) == RenderAll(fs) + Render(ClientFrame(Frame(true, 8, payload), key)) + rest
    ensures var r := ProcessAll(INITIAL, chunks);
            var pongs := Pongs(PingsOf(fs));
            && Messages(r.events) == Delivered(ms) && Pings(r.events) == PingsOf(fs)
            && |r.events| > 0 && r.events[|r.events| - 1] == OnClose(code, reason)
            && (forall e | e in r.events[..|r.events| - 1] :: !e.OnClose?)
            && |pongs| <= |r.output| && r.output[..|pongs|] == pongs
            && ReadServerFrame(r.output[|pongs|..]) == Some((Frame(true, 8, [code / 256, code % 256] + reason), []))
            && r.state.closed && r.state.buffer == rest
  {
    hide HandleFrame, ParseFrame, Render, ReadServerFrame, Says, Process, ValidMessages, Delivered, AllSendable, PingsShort;
    var c := ClientFrame(Frame(true, 8, payload), key);
    var a, b := RenderAll(fs), Render(c) + rest;
    assert RenderAll(fs) + Render(c) + rest == a + b;
    assert Concat([a]) == a by { OneChunk(a); }
    assert Drain(INITIAL) == Reply(INITIAL, [], []) by { ParseEmpty(); }
    EndToEnd(ms, fs, [a]);
    ChunkingInvariance(INITIAL, [a]);
    var r := Process(INITIAL, a);
    CloseHandshake(r.state, payload, key, code, reason, rest);
    var q := Process(r.state, b);
    MessagesConcat(r.events, q.events);
    PingsConcat(r.events, q.events);
    OnlyClose(code, reason);
    assert (r.events + q.events)[..|r.events|] == r.events;
    assert (r.output + q.output)[|r.output|..] == q.output;
    ChunkingInvariance(INITIAL, chunks);
    SplitInvariance(INITIAL, a, b);
  }
}
