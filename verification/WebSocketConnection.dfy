/** The WsConnection object of src/websocket.cpp, updated in place and proved against module WebSocket. */
module WebSocketConnection {
  import opened Common
  import opened WebSocket

  /** One turn of the input loop. */
  lemma DrainStep(st: State)
    ensures Drain(st)
         == if st.closed then Reply(st, [], [])
            else
              match WebSocket.ParseFrame(st.buffer)
              case NeedMore => Reply(st, [], [])
              case Fatal => Reply(st.(closed := true), [], [])
              case Got(f, n) =>
                var r := HandleFrame(st.(buffer := st.buffer[n..]), f);
                Drain(r.state).After(r.output, r.events)
  {
    hide HandleFrame, WebSocket.ParseFrame;
  }

  class WsConnection {
    var buffer: bytes
    var message: bytes
    var fragmentOpcode: byte
    var inFragment: bool
    var closed: bool
    var closeSent: bool
    ghost var events: seq<Event>  // the callbacks made so far

    ghost function Abs(): State
      reads this
    {
      State(buffer, message, fragmentOpcode, inFragment, closed, closeSent)
    }

    constructor ()
      ensures Abs() == INITIAL && events == []
    {
      buffer, message, fragmentOpcode := [], [], TEXT;
      inFragment, closed, closeSent := false, false, false;
      events := [];
    }

    method ProcessInput(data: bytes) returns (output: bytes)
      modifies this
      ensures old(events) <= events
      ensures Process(old(Abs()), data) == Reply(Abs(), output, events[|old(events)|..])
    {
      hide HandleFrame, WebSocket.ParseFrame, Drain;
      buffer := buffer + data;
      output := [];
      ghost var whole := Drain(Abs());
      while !closed
        invariant old(events) <= events
        invariant whole == Drain(Abs()).After(output, events[|old(events)|..])
        decreases !closed, |buffer|
      {
        ghost var st, ev := Abs(), events[|old(events)|..];
        DrainStep(st);
        var frame := ParseFrame();
        if frame.None? {
          DrainStep(Abs());
          break;
        }
        var more := Handle(frame.value);
        ghost var r := HandleFrame(st.(buffer := buffer), frame.value);
        assert events[|old(events)|..] == ev + r.events;
        Regroup(Drain(Abs()), output, ev, more, r.events);
        output := output + more;
      }
      DrainStep(Abs());
    }

    /** Take one complete frame off the buffer, or close on a violation, or leave everything alone. */
    method ParseFrame() returns (frame: Option<Frame>)
      modifies this`buffer, this`closed
      ensures match WebSocket.ParseFrame(old(buffer))
              case NeedMore => frame == None && Abs() == old(Abs())
              case Fatal => frame == None && Abs() == old(Abs()).(closed := true)
              case Got(f, n) => frame == Some(f) && Abs() == old(Abs()).(buffer := old(buffer)[n..])
    {
      hide WebSocket.ParseFrame;
      var parsed := ReadFrame(buffer);
      match parsed
      case NeedMore =>
        return None;
      case Fatal =>
        closed := true;
        return None;
      case Got(f, n) =>
        buffer := buffer[n..];
        return Some(f);
    }

    method OnData(f: Frame) returns (output: bytes)
      modifies this
      ensures old(events) <= events && buffer == old(buffer)
      ensures HandleData(old(Abs()), f) == Reply(Abs(), output, events[|old(events)|..])
    {
      hide BuildClose, Raw;
      if inFragment {
        output := BuildClose(PROTOCOL_ERROR, Raw("Expected continuation frame"));
        closed := true;
        return;
      }
      output := [];
      if f.fin {
        events := events + [OnMessage(f.opcode, f.payload)];
      } else {
        inFragment, fragmentOpcode, message := true, f.opcode, f.payload;
        if |message| > MAX_MESSAGE_SIZE {
          output := BuildClose(TOO_BIG, Raw("Message too large"));
          closed := true;
        }
      }
    }

    method OnContinuation(f: Frame) returns (output: bytes)
      modifies this
      ensures old(events) <= events && buffer == old(buffer)
      ensures HandleContinuation(old(Abs()), f) == Reply(Abs(), output, events[|old(events)|..])
    {
      hide BuildClose, Raw;
      if !inFragment {
        output := BuildClose(PROTOCOL_ERROR, Raw("Unexpected continuation"));
        closed := true;
        return;
      }
      message := message + f.payload;
      if |message| > MAX_MESSAGE_SIZE {
        output := BuildClose(TOO_BIG, Raw("Message too large"));
        closed := true;
        return;
      }
      output := [];
      if f.fin {
        inFragment := false;
        events := events + [OnMessage(fragmentOpcode, message)];
        message := [];
      }
    }

    /** Dispatch one frame; `output` is what it makes the server send. */
    method Handle(f: Frame) returns (output: bytes)
      modifies this
      ensures old(events) <= events && buffer == old(buffer)
      ensures HandleFrame(old(Abs()), f) == Reply(Abs(), output, events[|old(events)|..])
    {
      hide BuildFrame, BuildClose, Raw, BigEndian, HandleData, HandleContinuation;
      output := [];
      if f.opcode == TEXT || f.opcode == BINARY {
        output := OnData(f);
      } else if f.opcode == CONTINUATION {
        output := OnContinuation(f);
      } else if f.opcode == CLOSE {
        var code: nat, reason: bytes := NO_STATUS, [];
        if |f.payload| >= 2 {
          code := 256 * (f.payload[0] as int) + f.payload[1];
          TwoBytes(f.payload[..2]);
          if |f.payload| > 2 {
            reason := f.payload[2..];
          }
        }
        events := events + [OnClose(code, reason)];
        if !closeSent {
          output := BuildClose(code, reason);
          closeSent := true;
        }
        closed := true;
      } else if f.opcode == PING {
        if |f.payload| > 125 {
          output := BuildClose(PROTOCOL_ERROR, Raw("Ping payload too large"));
          closed := true;
          return;
        }
        events := events + [OnPing(f.payload)];
        output := BuildFrame(PONG, f.payload);
      } else if f.opcode != PONG {
        output := BuildClose(PROTOCOL_ERROR, Raw("Unknown opcode"));
        closed := true;
      }
    }

    /** XOR the payload with the key, in place. */
    static method Unmask(data: array<byte>, key: bytes)
      requires |key| == 4
      modifies data
      ensures data[..] == Masked(old(data[..]), key)
    {
      for i := 0 to data.Length
        invariant forall j | 0 <= j < i :: data[j] == XorByte(old(data[j]), key[j % 4])
        invariant forall j | i <= j < data.Length :: data[j] == old(data[j])
      {
        data[i] := XorByte(data[i], key[i % 4]);
      }
    }
  }

  /** The checks of one frame, in the order they are made. */
  method ReadFrame(data: bytes) returns (r: Parsed)
    ensures r == ParseFrame(data)
  {
    hide BigEndian, Masked;
    if |data| < 2 { return NeedMore; }
    if data[0] / 16 % 8 != 0 { return Fatal; }
    var fin, opcode, masked := data[0] >= 128, data[0] % 16, data[1] >= 128;
    var len: nat := data[1] % 128;
    var pos := 2;
    if len == 126 {
      if |data| < pos + 2 { return NeedMore; }
      len := 256 * (data[pos] as int) + data[pos + 1];
      TwoBytesAt(data, pos);
      pos := pos + 2;
    } else if len == 127 {
      if |data| < pos + 8 { return NeedMore; }
      len := ReadLength(data[pos..pos + 8]);
      pos := pos + 8;
      if len >= 0x8000_0000_0000_0000 { return Fatal; }
    }
    assert len == if pos == 2 then data[1] % 128 else BigEndian(data[2..pos]);
    if len > MAX_FRAME_SIZE { return Fatal; }
    if !masked { return Fatal; }
    if |data| < pos + 4 { return NeedMore; }
    var key := data[pos..pos + 4];
    pos := pos + 4;
    if |data| < pos + len { return NeedMore; }
    var raw := data[pos..pos + len];
    var payload := new byte[len](i requires 0 <= i < |raw| => raw[i]);
    assert payload[..] == raw;
    WsConnection.Unmask(payload, key);
    return Got(Frame(fin, opcode, payload[..]), pos + len);
  }

  /** The extended length, shifted in byte by byte. */
  method ReadLength(data: bytes) returns (len: nat)
    ensures len == BigEndian(data)
  {
    len := 0;
    for i := 0 to |data|
      invariant len == BigEndian(data[..i])
    {
      assert data[..i + 1][..i] == data[..i];
      len := 256 * len + data[i];
    }
    assert data[..|data|] == data;
  }

  lemma TwoBytesAt(data: bytes, pos: nat)
    requires pos + 2 <= |data|
    ensures BigEndian(data[pos..pos + 2]) == 256 * (data[pos] as int) + data[pos + 1]
  {
    TwoBytes(data[pos..pos + 2]);
  }

  lemma Regroup(r: Reply, out: bytes, ev: seq<Event>, out': bytes, ev': seq<Event>)
    ensures r.After(out', ev').After(out, ev) == r.After(out + out', ev + ev')
  {
    assert out + (out' + r.output) == out + out' + r.output;
    assert ev + (ev' + r.events) == ev + ev' + r.events;
  }
}
