/**
 The WebSocket connection of src/websocket.cpp as functions on a state value: frame parsing,
 frame handling, frame building, and the input loop that ties them together.
 */
module WebSocket {
  import opened Common

  const CONTINUATION: byte := 0x0
  const TEXT: byte := 0x1
  const BINARY: byte := 0x2
  const CLOSE: byte := 0x8
  const PING: byte := 0x9
  const PONG: byte := 0xA

  const PROTOCOL_ERROR: nat := 1002
  const NO_STATUS: nat := 1005
  const TOO_BIG: nat := 1009

  const MAX_FRAME_SIZE: nat := 16 * 1024 * 1024
  const MAX_MESSAGE_SIZE: nat := 64 * 1024 * 1024

  datatype Frame = Frame(fin: bool, opcode: byte, payload: bytes)

  /** What one look at the buffer yields: too little data, a fatal violation, or a frame and its length. */
  datatype Parsed = NeedMore | Fatal | Got(frame: Frame, size: nat)

  /** A callback the connection makes. */
  datatype Event =
    | OnMessage(opcode: byte, data: bytes)
    | OnClose(code: nat, reason: bytes)
    | OnPing(data: bytes)

  datatype State = State(
    buffer: bytes,
    message: bytes,
    fragmentOpcode: byte,
    inFragment: bool,
    closed: bool,
    closeSent: bool)

  const INITIAL := State([], [], TEXT, false, false, false)

  /** The state after some input, the bytes to send back and the callbacks made. */
  datatype Reply = Reply(state: State, output: bytes, events: seq<Event>) {
    function After(out: bytes, ev: seq<Event>): Reply {
      Reply(state, out + output, ev + events)
    }
  }

  // ----- Frames -----

  /** XOR with the repeating four-byte key; masking and unmasking are the same operation. */
  function Masked(data: bytes, key: bytes): (r: bytes)
    requires |key| == 4
    ensures |r| == |data|
  {
    seq(|data|, i requires 0 <= i < |data| => XorByte(data[i], key[i % 4]))
  }

  function ParseFrame(buf: bytes): (r: Parsed)
    ensures r.Got? ==> 6 <= r.size <= |buf|
  {
    if |buf| < 2 then NeedMore
    else if buf[0] / 16 % 8 != 0 then Fatal  // reserved bits
    else
      var short := buf[1] % 128;
      var extra := if short == 126 then 2 else if short == 127 then 8 else 0;
      if |buf| < 2 + extra then NeedMore
      else
        var len := if extra == 0 then short else BigEndian(buf[2..2 + extra]);
        var pos := 2 + extra;
        if extra == 8 && len >= 0x8000_0000_0000_0000 then Fatal
        else if len > MAX_FRAME_SIZE then Fatal
        else if buf[1] < 128 then Fatal  // client frames must be masked
        else if |buf| < pos + 4 then NeedMore
        else if |buf| < pos + 4 + len then NeedMore
        else
          var payload := Masked(buf[pos + 4..pos + 4 + len], buf[pos..pos + 4]);
          Got(Frame(buf[0] >= 128, buf[0] % 16, payload), pos + 4 + len)
  }

  /** The second header byte and the extended length, in the shortest form. */
  function LengthField(maskBit: byte, n: nat): bytes
    requires maskBit == 0 || maskBit == 128
  {
    if n <= 125 then [maskBit + n]
    else if n <= 65535 then [maskBit + 126] + ToBigEndian(n, 2)
    else [maskBit + 127] + ToBigEndian(n, 8)
  }

  /** A server frame: never masked. The opcode is one of the four-bit codes. */
  function BuildFrame(opcode: byte, payload: bytes, fin: bool := true): bytes
    requires opcode < 16
  {
    [opcode + if fin then 128 else 0] + LengthField(0, |payload|) + payload
  }

  function BuildClose(code: nat, reason: bytes): bytes {
    BuildFrame(CLOSE, ToBigEndian(code, 2) + reason)
  }

  // ----- Frame handling -----

  function Fail(st: State, code: nat, reason: string): Reply {
    Reply(st.(closed := true), BuildClose(code, Raw(reason)), [])
  }

  function HandleData(st: State, f: Frame): Reply {
    if st.inFragment then Fail(st, PROTOCOL_ERROR, "Expected continuation frame")
    else if f.fin then Reply(st, [], [OnMessage(f.opcode, f.payload)])
    else
      var st' := st.(inFragment := true, fragmentOpcode := f.opcode, message := f.payload);
      if |f.payload| > MAX_MESSAGE_SIZE then Fail(st', TOO_BIG, "Message too large")
      else Reply(st', [], [])
  }

  function HandleContinuation(st: State, f: Frame): Reply {
    if !st.inFragment then Fail(st, PROTOCOL_ERROR, "Unexpected continuation")
    else
      var st' := st.(message := st.message + f.payload);
      if |st'.message| > MAX_MESSAGE_SIZE then Fail(st', TOO_BIG, "Message too large")
      else if f.fin then
        Reply(st'.(inFragment := false, message := []), [], [OnMessage(st.fragmentOpcode, st'.message)])
      else Reply(st', [], [])
  }

  function HandleClose(st: State, f: Frame): Reply {
    var code := if |f.payload| >= 2 then BigEndian(f.payload[..2]) else NO_STATUS;
    var reason := if |f.payload| > 2 then f.payload[2..] else [];
    Reply(st.(closeSent := true, closed := true),
          if st.closeSent then [] else BuildClose(code, reason),
          [OnClose(code, reason)])
  }

  function HandlePing(st: State, f: Frame): Reply {
    if |f.payload| > 125 then Fail(st, PROTOCOL_ERROR, "Ping payload too large")
    else Reply(st, BuildFrame(PONG, f.payload), [OnPing(f.payload)])
  }

  function HandleFrame(st: State, f: Frame): Reply {
    if f.opcode == TEXT || f.opcode == BINARY then HandleData(st, f)
    else if f.opcode == CONTINUATION then HandleContinuation(st, f)
    else if f.opcode == CLOSE then HandleClose(st, f)
    else if f.opcode == PING then HandlePing(st, f)
    else if f.opcode == PONG then Reply(st, [], [])
    else Fail(st, PROTOCOL_ERROR, "Unknown opcode")
  }

  // ----- The input loop -----

  /** Handle every complete frame in the buffer, stopping once the connection is closed. */
  function Drain(st: State): Reply
    decreases |st.buffer|
  {
    if st.closed then Reply(st, [], [])
    else
      match ParseFrame(st.buffer)
      case NeedMore => Reply(st, [], [])
      case Fatal => Reply(st.(closed := true), [], [])
      case Got(f, n) =>
        var r := HandleFrame(st.(buffer := st.buffer[n..]), f);
        Drain(r.state).After(r.output, r.events)
  }

  /** process_input: append, then drain. */
  function Process(st: State, data: bytes): Reply {
    Drain(st.(buffer := st.buffer + data))
  }

  /** A run: one process_input call per chunk read from the socket. */
  function ProcessAll(st: State, chunks: seq<bytes>): Reply
    decreases |chunks|
  {
    if chunks == [] then Reply(st, [], [])
    else
      var r := Process(st, chunks[0]);
      ProcessAll(r.state, chunks[1..]).After(r.output, r.events)
  }
}

/** How the run of a connection depends on the bytes received and not on how they were split. */
module WebSocketSplit {
  import opened Common
  import opened WebSocket

  function Grown(st: State, b: bytes): State {
    st.(buffer := st.buffer + b)
  }

  /** A verdict on the buffer survives the arrival of more bytes. */
  lemma ParseMonotone(buf: bytes, b: bytes)
    ensures !ParseFrame(buf).NeedMore? ==> ParseFrame(buf + b) == ParseFrame(buf)
  {
    if !ParseFrame(buf).NeedMore? {
      var extra := if buf[1] % 128 == 126 then 2 else if buf[1] % 128 == 127 then 8 else 0;
      assert (buf + b)[0] == buf[0] && (buf + b)[1] == buf[1];
      if 2 + extra <= |buf| {
        SliceOfAppend(buf, b, 2, 2 + extra);
      }
      match ParseFrame(buf) {
        case Got(f, n) =>
          SliceOfAppend(buf, b, 2 + extra, 2 + extra + 4);
          SliceOfAppend(buf, b, 2 + extra + 4, n);
        case _ =>
      }
    }
  }

  /** Handling a frame neither reads nor writes the unread input. */
  lemma HandleIgnoresBuffer(st: State, f: Frame, b: bytes)
    ensures HandleFrame(Grown(st, b), f)
         == HandleFrame(st, f).(state := Grown(HandleFrame(st, f).state, b))
    ensures HandleFrame(st, f).state.buffer == st.buffer
  {
    hide BuildFrame, BuildClose, HandleData, HandleContinuation;
    DataIgnoresBuffer(st, f, b);
  }

  lemma DataIgnoresBuffer(st: State, f: Frame, b: bytes)
    ensures var r := HandleData(st, f); HandleData(Grown(st, b), f) == r.(state := Grown(r.state, b)) && r.state.buffer == st.buffer
    ensures var r := HandleContinuation(st, f); HandleContinuation(Grown(st, b), f) == r.(state := Grown(r.state, b)) && r.state.buffer == st.buffer
  {
    hide BuildClose;
  }

  lemma AfterBoth(e: Reply, d: Reply, h: Reply)
    ensures e.After(d.output, d.events).After(h.output, h.events) == e.After(h.output + d.output, h.events + d.events)
  {
    assert h.output + (d.output + e.output) == (h.output + d.output) + e.output;
    assert h.events + (d.events + e.events) == (h.events + d.events) + e.events;
  }

  lemma {:induction false} DrainGrown(st: State, b: bytes)
    ensures var r := Drain(st);
            Drain(Grown(st, b)) == Drain(Grown(r.state, b)).After(r.output, r.events)
    decreases |st.buffer|
  {
    hide HandleFrame, ParseFrame;
    if !st.closed {
      ParseMonotone(st.buffer, b);
      match ParseFrame(st.buffer) {
        case NeedMore =>
          var r := Drain(Grown(st, b));
          assert r.After([], []) == r;
        case Fatal =>
        case Got(f, n) =>
          var rest := st.(buffer := st.buffer[n..]);
          var h := HandleFrame(rest, f);
          assert (st.buffer + b)[n..] == st.buffer[n..] + b;
          HandleIgnoresBuffer(rest, f, b);
          DrainGrown(h.state, b);
          var d := Drain(h.state);
          AfterBoth(Drain(Grown(d.state, b)), d, h);
      }
    }
  }

  /** One read or two: the same state, the same bytes sent, the same callbacks. */
  lemma SplitInvariance(st: State, a: bytes, b: bytes)
    ensures var r := Process(st, a);
            Process(st, a + b) == Process(r.state, b).After(r.output, r.events)
  {
    hide Drain;
    DrainGrown(st.(buffer := st.buffer + a), b);
    assert st.buffer + (a + b) == st.buffer + a + b;
  }

  lemma {:induction false} DrainTwice(st: State)
    ensures var r := Drain(st); Drain(r.state) == Reply(r.state, [], [])
    decreases |st.buffer|
  {
    if !st.closed {
      match ParseFrame(st.buffer) {
        case Got(f, n) => DrainTwice(HandleFrame(st.(buffer := st.buffer[n..]), f).state);
        case _ =>
      }
    }
  }

  /** Any chunking of the input is equivalent to a single read of all of it. */
  lemma {:induction false} ChunkingInvariance(st: State, chunks: seq<bytes>)
    requires Drain(st) == Reply(st, [], [])
    ensures ProcessAll(st, chunks) == Process(st, Concat(chunks))
    decreases |chunks|
  {
    hide Drain;
    if chunks == [] {
      assert st.buffer + [] == st.buffer;
    } else {
      var r := Process(st, chunks[0]);
      DrainTwice(st.(buffer := st.buffer + chunks[0]));
      ChunkingInvariance(r.state, chunks[1..]);
      SplitInvariance(st, chunks[0], Concat(chunks[1..]));
    }
  }
}
