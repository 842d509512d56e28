/**
 What a client that follows sections 5.2 to 5.5 of RFC 6455 gets from the connection: every message,
 exactly once and in order, and a PONG for every PING.
 */
module WebSocketDelivery {
  import opened Common
  import opened WebSocket
  import opened WebSocketSplit

  // ----- What a client sends -----

  /** A frame and the key the client masks it with. */
  datatype ClientFrame = ClientFrame(frame: Frame, key: bytes)

  /** A message and the fragments it is sent in. */
  datatype Message = Message(opcode: byte, parts: seq<bytes>)

  predicate Sendable(c: ClientFrame) {
    c.frame.opcode < 16 && |c.key| == 4 && |c.frame.payload| <= MAX_FRAME_SIZE
  }

  predicate AllSendable(fs: seq<ClientFrame>) {
    forall i | 0 <= i < |fs| :: Sendable(fs[i])
  }

  /** The wire form of a client frame. */
  function Render(c: ClientFrame): bytes
    requires Sendable(c)
  {
    [c.frame.opcode + if c.frame.fin then 128 else 0] + LengthField(128, |c.frame.payload|)
    + c.key + Masked(c.frame.payload, c.key)
  }

  function RenderAll(fs: seq<ClientFrame>): bytes
    requires AllSendable(fs)
  {
    if fs == [] then [] else Render(fs[0]) + RenderAll(fs[1..])
  }

  predicate IsControl(f: Frame) {
    f.opcode == PING || f.opcode == PONG
  }

  /** The frames that carry message data. */
  function DataOf(fs: seq<ClientFrame>): seq<Frame> {
    if fs == [] then []
    else (if IsControl(fs[0].frame) then [] else [fs[0].frame]) + DataOf(fs[1..])
  }

  function PingsOf(fs: seq<ClientFrame>): seq<bytes> {
    if fs == [] then []
    else (if fs[0].frame.opcode == PING then [fs[0].frame.payload] else []) + PingsOf(fs[1..])
  }

  predicate ValidMessage(m: Message) {
    && (m.opcode == TEXT || m.opcode == BINARY)
    && m.parts != []
    && (forall p | p in m.parts :: |p| <= MAX_FRAME_SIZE)
    && |Concat(m.parts)| <= MAX_MESSAGE_SIZE
  }

  predicate ValidMessages(ms: seq<Message>) {
    forall i | 0 <= i < |ms| :: ValidMessage(ms[i])
  }

  /** Continuation frames for the remaining parts of a message. */
  function ContinuationFrames(parts: seq<bytes>): seq<Frame> {
    if parts == [] then []
    else [Frame(|parts| == 1, CONTINUATION, parts[0])] + ContinuationFrames(parts[1..])
  }

  function MessageFrames(m: Message): seq<Frame>
    requires m.parts != []
  {
    [Frame(|m.parts| == 1, m.opcode, m.parts[0])] + ContinuationFrames(m.parts[1..])
  }

  function AllMessageFrames(ms: seq<Message>): seq<Frame>
    requires ValidMessages(ms)
  {
    if ms == [] then [] else MessageFrames(ms[0]) + AllMessageFrames(ms[1..])
  }

  /** Control frames carry at most 125 bytes (section 5.5); the server holds PING to that. */
  predicate PingsShort(fs: seq<ClientFrame>) {
    forall i | 0 <= i < |fs| && fs[i].frame.opcode == PING :: |fs[i].frame.payload| <= 125
  }

  /** A client that sends `ms`, in some fragmentation, with PING and PONG frames anywhere in between. */
  predicate Conveys(fs: seq<ClientFrame>, ms: seq<Message>)
    requires ValidMessages(ms)
  {
    && AllSendable(fs)
    && PingsShort(fs)
    && DataOf(fs) == AllMessageFrames(ms)
  }

  // ----- What the server is seen to do -----

  function Messages(ev: seq<Event>): seq<Event> {
    if ev == [] then [] else (if ev[0].OnMessage? then [ev[0]] else []) + Messages(ev[1..])
  }

  function Pings(ev: seq<Event>): seq<bytes> {
    if ev == [] then [] else (if ev[0].OnPing? then [ev[0].data] else []) + Pings(ev[1..])
  }

  function Pongs(payloads: seq<bytes>): bytes {
    if payloads == [] then [] else BuildFrame(PONG, payloads[0]) + Pongs(payloads[1..])
  }

  function Delivered(ms: seq<Message>): seq<Event> {
    if ms == [] then [] else [OnMessage(ms[0].opcode, Concat(ms[0].parts))] + Delivered(ms[1..])
  }

  // ----- Frames survive the wire -----

  lemma MaskedTwice(data: bytes, key: bytes)
    requires |key| == 4
    ensures Masked(Masked(data, key), key) == data
  {
    forall i | 0 <= i < |data|
      ensures XorByte(XorByte(data[i], key[i % 4]), key[i % 4]) == data[i]
    {
      XorInvolutive(data[i], key[i % 4]);
    }
  }

  /** Where the parts of a rendered frame lie. */
  lemma RenderLayout(c: ClientFrame, rest: bytes) returns (extra: nat, pos: nat)
    requires Sendable(c)
    ensures var w := Render(c) + rest;
            var n := |c.frame.payload|;
            && extra == (if n <= 125 then 0 else if n <= 65535 then 2 else 8)
            && pos == 2 + extra && |Render(c)| == pos + 4 + n
            && w[0] == c.frame.opcode + (if c.frame.fin then 128 else 0)
            && w[1] == 128 + (if extra == 0 then n else if extra == 2 then 126 else 127)
            && (extra > 0 ==> w[2..2 + extra] == ToBigEndian(n, extra))
            && w[pos..pos + 4] == c.key
            && w[pos + 4..pos + 4 + n] == Masked(c.frame.payload, c.key)
  {
    hide Masked;
    var n := |c.frame.payload|;
    extra := if n <= 125 then 0 else if n <= 65535 then 2 else 8;
    pos := 2 + extra;
    assert |LengthField(128, n)| == 1 + extra;
  }

  /** Parsing inverts rendering, whatever follows on the wire. */
  lemma ParseRendered(c: ClientFrame, rest: bytes)
    requires Sendable(c)
    ensures ParseFrame(Render(c) + rest) == Got(c.frame, |Render(c)|)
  {
    hide Render, Masked, ToBigEndian, BigEndian, Pow256;
    var extra, pos := RenderLayout(c, rest);
    LengthWidths();
    if extra > 0 {
      BigEndianRoundTrip(|c.frame.payload|, extra);
    }
    MaskedTwice(c.frame.payload, c.key);
  }

  lemma LengthWidths()
    ensures Pow256(2) == 65536 && Pow256(8) == 0x1_0000_0000_0000_0000
  {
  }

  // ----- From wire to frames -----

  /** Handle a list of frames on a connection whose buffer holds nothing else. */
  function HandleAll(st: State, fs: seq<ClientFrame>): Reply
    decreases |fs|
  {
    if fs == [] || st.closed then Reply(st, [], [])
    else
      var r := HandleFrame(st, fs[0].frame);
      HandleAll(r.state, fs[1..]).After(r.output, r.events)
  }

  /** While the connection stays open, draining rendered frames is handling them one by one. */
  lemma {:induction false} DrainRendered(st: State, fs: seq<ClientFrame>)
    requires AllSendable(fs)
    requires st.buffer == [] && !HandleAll(st, fs).state.closed
    ensures Process(st, RenderAll(fs)) == HandleAll(st, fs)
    decreases |fs|
  {
    hide HandleFrame, ParseFrame, Render;
    if fs == [] {
      assert ParseFrame([]).NeedMore? by { ParseEmpty(); }
    } else if !st.closed {
      var rest := RenderAll(fs[1..]);
      var w := Render(fs[0]) + rest;
      assert [] + w == w;
      ParseRendered(fs[0], rest);
      assert w[|Render(fs[0])|..] == rest;
      var h := HandleFrame(st, fs[0].frame);
      HandleIgnoresBuffer(st, fs[0].frame, rest);
      assert [] + rest == rest;
      DrainRendered(h.state, fs[1..]);
    }
  }

  lemma ParseEmpty()
    ensures ParseFrame([]).NeedMore?
  {
  }

  // ----- From frames to messages -----

  predicate NoClose(ev: seq<Event>) {
    forall i | 0 <= i < |ev| :: !ev[i].OnClose?
  }

  /** The observable summary of a run: messages delivered, PINGs seen, bytes sent, and whether it ended idle. */
  predicate Summary(r: Reply, delivered: seq<Event>, pings: seq<bytes>) {
    && Messages(r.events) == delivered
    && Pings(r.events) == pings
    && r.output == Pongs(pings)
    && NoClose(r.events)
    && !r.state.closed && !r.state.closeSent && !r.state.inFragment && r.state.buffer == []
  }

  /** A connection part-way through a message with parts `pending` still to come (none: between messages). */
  predicate Expecting(st: State, pending: seq<bytes>) {
    && !st.closed && !st.closeSent && st.buffer == []
    && st.inFragment == (pending != [])
    && (pending != [] ==> |st.message| + |Concat(pending)| <= MAX_MESSAGE_SIZE)
  }

  function Expected(st: State, pending: seq<bytes>, ms: seq<Message>): seq<Event> {
    (if pending == [] then [] else [OnMessage(st.fragmentOpcode, st.message + Concat(pending))]) + Delivered(ms)
  }

  /** A frame that sends nothing, reports at most one message, and leaves `pending` parts to come. */
  predicate Advances(r: Reply, pending: seq<bytes>) {
    r.output == [] && |r.events| <= 1 && (r.events != [] ==> r.events[0].OnMessage?) && Expecting(r.state, pending)
  }

  lemma OnContinuation(st: State, f: Frame, pending: seq<bytes>, ms: seq<Message>)
    requires Expecting(st, pending) && pending != []
    requires f == Frame(|pending| == 1, CONTINUATION, pending[0])
    ensures var r := HandleFrame(st, f);
            && !st.closed && Advances(r, pending[1..])
            && r.events + Expected(r.state, pending[1..], ms) == Expected(st, pending, ms)
  {
    hide HandleFrame, Delivered, Concat;
    FirstPart(st, pending);
    Continued(st, f);
    var whole := [OnMessage(st.fragmentOpcode, st.message + Concat(pending))];
    if f.fin {
      assert whole + ([] + Delivered(ms)) == whole + Delivered(ms);
    } else {
      assert [] + (whole + Delivered(ms)) == whole + Delivered(ms);
    }
  }

  /** The message so far and the parts to come, with the first of them taken. */
  lemma {:induction false} FirstPart(st: State, pending: seq<bytes>)
    requires pending != []
    ensures st.message + pending[0] + Concat(pending[1..]) == st.message + Concat(pending)
    ensures |pending| == 1 ==> Concat(pending[1..]) == [] && st.message + pending[0] == st.message + Concat(pending)
  {
    assert Concat(pending) == pending[0] + Concat(pending[1..]);
    if |pending| == 1 {
      assert pending[1..] == [];
      assert pending[0] + [] == pending[0];
    }
    hide Concat;
    assert st.message + pending[0] + Concat(pending[1..]) == st.message + (pending[0] + Concat(pending[1..]));
  }

  lemma Continued(st: State, f: Frame)
    requires st.inFragment && f.opcode == CONTINUATION && |st.message| + |f.payload| <= MAX_MESSAGE_SIZE
    ensures var whole := st.message + f.payload;
            HandleFrame(st, f) == if f.fin then Reply(st.(inFragment := false, message := []), [], [OnMessage(st.fragmentOpcode, whole)])
                                  else Reply(st.(message := whole), [], [])
  {
    hide Fail;
  }

  lemma OnFirst(st: State, f: Frame, ms: seq<Message>)
    requires Expecting(st, []) && ms != [] && ValidMessage(ms[0])
    requires f == Frame(|ms[0].parts| == 1, ms[0].opcode, ms[0].parts[0])
    ensures var r := HandleFrame(st, f);
            && !st.closed && Advances(r, ms[0].parts[1..])
            && r.events + Expected(r.state, ms[0].parts[1..], ms[1..]) == Expected(st, [], ms)
  {
    hide BuildFrame;
    var m := ms[0];
    assert Concat(m.parts) == m.parts[0] + Concat(m.parts[1..]);
    assert |m.parts| == 1 ==> m.parts[1..] == [] && m.parts[0] + [] == m.parts[0];
  }

  lemma OnControl(st: State, f: Frame, pending: seq<bytes>)
    requires Expecting(st, pending) && IsControl(f) && (f.opcode == PING ==> |f.payload| <= 125)
    ensures var r := HandleFrame(st, f);
            && r.state == st
            && r.output == (if f.opcode == PING then BuildFrame(PONG, f.payload) else [])
            && r.events == (if f.opcode == PING then [OnPing(f.payload)] else [])
  {
  }

  /** Adding one handled frame to the summary of the rest of the run. */
  lemma Extend(r: Reply, out: bytes, ev: seq<Event>, delivered: seq<Event>, pings: seq<bytes>)
    requires |ev| <= 1 && Summary(r, delivered, pings)
    requires out == (if ev != [] && ev[0].OnPing? then BuildFrame(PONG, ev[0].data) else [])
    requires ev != [] ==> !ev[0].OnClose?
    ensures Summary(r.After(out, ev),
                    (if ev != [] && ev[0].OnMessage? then ev else []) + delivered,
                    (if ev != [] && ev[0].OnPing? then [ev[0].data] else []) + pings)
  {
    hide BuildFrame;
    if ev == [] {
      assert ev + r.events == r.events && out + r.output == r.output;
      assert [] + delivered == delivered && [] + pings == pings;
    } else {
      var e := ev[0];
      assert ev == [e];
      FirstEvent(e, r.events);
      if e.OnPing? {
        assert ([e.data] + pings)[1..] == pings;
        assert Pongs([e.data] + pings) == out + Pongs(pings);
        assert [] + delivered == delivered;
      } else {
        assert [] + pings == pings && out + r.output == r.output;
      }
    }
  }

  lemma FirstEvent(e: Event, rest: seq<Event>)
    ensures Messages([e] + rest) == (if e.OnMessage? then [e] else []) + Messages(rest)
    ensures Pings([e] + rest) == (if e.OnPing? then [e.data] else []) + Pings(rest)
  {
    assert ([e] + rest)[1..] == rest;
  }

  lemma {:induction false} Deliver(st: State, fs: seq<ClientFrame>, pending: seq<bytes>, ms: seq<Message>)
    requires AllSendable(fs) && PingsShort(fs) && ValidMessages(ms) && Expecting(st, pending)
    requires DataOf(fs) == ContinuationFrames(pending) + AllMessageFrames(ms)
    ensures Summary(HandleAll(st, fs), Expected(st, pending, ms), PingsOf(fs))
    decreases |fs|
  {
    hide HandleFrame, BuildFrame, Summary, Expected, ContinuationFrames, AllMessageFrames;
    if fs == [] {
      DeliverNothing(st, pending, ms);
    } else if IsControl(fs[0].frame) {
      OnControl(st, fs[0].frame, pending);
      Deliver(st, fs[1..], pending, ms);
      var r := HandleFrame(st, fs[0].frame);
      Extend(HandleAll(st, fs[1..]), r.output, r.events, Expected(st, pending, ms), PingsOf(fs[1..]));
      assert [] + Expected(st, pending, ms) == Expected(st, pending, ms);
    } else {
      DeliverData(st, fs, pending, ms);
    }
  }

  lemma DeliverNothing(st: State, pending: seq<bytes>, ms: seq<Message>)
    requires ValidMessages(ms) && Expecting(st, pending)
    requires [] == ContinuationFrames(pending) + AllMessageFrames(ms)
    ensures Summary(Reply(st, [], []), Expected(st, pending, ms), [])
  {
  }

  lemma {:induction false} DeliverData(st: State, fs: seq<ClientFrame>, pending: seq<bytes>, ms: seq<Message>)
    requires AllSendable(fs) && PingsShort(fs) && ValidMessages(ms) && Expecting(st, pending)
    requires fs != [] && !IsControl(fs[0].frame)
    requires DataOf(fs) == ContinuationFrames(pending) + AllMessageFrames(ms)
    ensures Summary(HandleAll(st, fs), Expected(st, pending, ms), PingsOf(fs))
    decreases |fs|, 1
  {
    var data := DataOf(fs);
    assert data[0] == fs[0].frame && data[1..] == DataOf(fs[1..]);
    if pending != [] {
      DeliverContinuation(st, fs, pending, ms);
    } else {
      DeliverFirst(st, fs, ms);
    }
  }

  lemma LaterFrames(fs: seq<ClientFrame>)
    requires AllSendable(fs) && PingsShort(fs) && fs != []
    ensures AllSendable(fs[1..]) && PingsShort(fs[1..])
  {
  }

  lemma {:induction false} FirstOfPending(f: Frame, rest: seq<Frame>, pending: seq<bytes>, after: seq<Frame>)
    requires pending != [] && [f] + rest == ContinuationFrames(pending) + after
    ensures f == Frame(|pending| == 1, CONTINUATION, pending[0]) && rest == ContinuationFrames(pending[1..]) + after
  {
    SameHead(f, rest, Frame(|pending| == 1, CONTINUATION, pending[0]), ContinuationFrames(pending[1..]), after);
  }

  lemma SameHead<T>(x: T, xs: seq<T>, y: T, ys: seq<T>, zs: seq<T>)
    requires [x] + xs == [y] + ys + zs
    ensures x == y && xs == ys + zs
  {
    assert [y] + ys + zs == [y] + (ys + zs);
    assert ([x] + xs)[0] == x && ([y] + (ys + zs))[0] == y;
    assert ([x] + xs)[1..] == xs && ([y] + (ys + zs))[1..] == ys + zs;
  }

  lemma {:induction false} FirstOfMessage(f: Frame, rest: seq<Frame>, ms: seq<Message>)
    requires ValidMessages(ms) && [f] + rest == AllMessageFrames(ms)
    ensures ms != [] && f == Frame(|ms[0].parts| == 1, ms[0].opcode, ms[0].parts[0])
    ensures rest == ContinuationFrames(ms[0].parts[1..]) + AllMessageFrames(ms[1..])
  {
    hide ContinuationFrames;
    var parts := ms[0].parts;
    SameHead(f, rest, Frame(|parts| == 1, ms[0].opcode, parts[0]), ContinuationFrames(parts[1..]), AllMessageFrames(ms[1..]));
  }

  lemma {:induction false} DeliverContinuation(st: State, fs: seq<ClientFrame>, pending: seq<bytes>, ms: seq<Message>)
    requires AllSendable(fs) && PingsShort(fs) && ValidMessages(ms) && Expecting(st, pending)
    requires fs != [] && !IsControl(fs[0].frame) && pending != []
    requires [fs[0].frame] + DataOf(fs[1..]) == ContinuationFrames(pending) + AllMessageFrames(ms)
    ensures Summary(HandleAll(st, fs), Expected(st, pending, ms), PingsOf(fs))
    decreases |fs|, 0
  {
    hide HandleFrame, HandleAll, Summary, Expected, Expecting, ContinuationFrames, AllMessageFrames, DataOf, AllSendable, PingsShort;
    var f := fs[0].frame;
    FirstOfPending(f, DataOf(fs[1..]), pending, AllMessageFrames(ms));
    LaterFrames(fs);
    OnContinuation(st, f, pending, ms);
    Deliver(HandleFrame(st, f).state, fs[1..], pending[1..], ms);
    Advance(st, fs, pending[1..], Expected(HandleFrame(st, f).state, pending[1..], ms));
  }

  lemma {:induction false} DeliverFirst(st: State, fs: seq<ClientFrame>, ms: seq<Message>)
    requires AllSendable(fs) && PingsShort(fs) && ValidMessages(ms) && Expecting(st, [])
    requires fs != [] && !IsControl(fs[0].frame)
    requires [fs[0].frame] + DataOf(fs[1..]) == AllMessageFrames(ms)
    ensures Summary(HandleAll(st, fs), Expected(st, [], ms), PingsOf(fs))
    decreases |fs|, 0
  {
    hide HandleFrame, HandleAll, Summary, Expected, Expecting, ContinuationFrames, AllMessageFrames, DataOf, AllSendable, PingsShort;
    var f := fs[0].frame;
    FirstOfMessage(f, DataOf(fs[1..]), ms);
    LaterFrames(fs);
    var later := ms[0].parts[1..];
    OnFirst(st, f, ms);
    Deliver(HandleFrame(st, f).state, fs[1..], later, ms[1..]);
    Advance(st, fs, later, Expected(HandleFrame(st, f).state, later, ms[1..]));
  }

  /** One data frame in front of a run whose summary is known. */
  lemma Advance(st: State, fs: seq<ClientFrame>, later: seq<bytes>, delivered: seq<Event>)
    requires fs != [] && !IsControl(fs[0].frame) && !st.closed
    requires Advances(HandleFrame(st, fs[0].frame), later)
    requires Summary(HandleAll(HandleFrame(st, fs[0].frame).state, fs[1..]), delivered, PingsOf(fs[1..]))
    ensures Summary(HandleAll(st, fs), HandleFrame(st, fs[0].frame).events + delivered, PingsOf(fs))
  {
    hide HandleFrame, Summary;
    var r := HandleFrame(st, fs[0].frame);
    Extend(HandleAll(r.state, fs[1..]), r.output, r.events, delivered, PingsOf(fs[1..]));
    assert [] + PingsOf(fs[1..]) == PingsOf(fs[1..]) == PingsOf(fs);
  }

  /**
   Any list of messages, fragmented in any way, masked with any keys, with PING and PONG frames anywhere
   between the fragments, and split into reads in any way, is delivered as exactly that list of messages;
   the bytes sent back are exactly one PONG per PING, in order.
   */
  lemma EndToEnd(ms: seq<Message>, fs: seq<ClientFrame>, chunks: seq<bytes>)
    requires ValidMessages(ms) && Conveys(fs, ms)
    requires Concat(chunks) == RenderAll(fs)
    ensures Summary(ProcessAll(INITIAL, chunks), Delivered(ms), PingsOf(fs))
  {
    hide HandleFrame, ParseFrame, Render;
    Deliver(INITIAL, fs, [], ms);
    assert [] + Delivered(ms) == Delivered(ms);
    DrainRendered(INITIAL, fs);
    assert Drain(INITIAL) == Reply(INITIAL, [], []) by { ParseEmpty(); }
    ChunkingInvariance(INITIAL, chunks);
  }

  // ----- What any client at all can make the server send -----

  /** Nothing, or a close frame with a violation's code or with what the client's own close frame said. */
  ghost predicate ClosingBytes(s: bytes, ev: seq<Event>) {
    s == [] || exists code: nat, reason: bytes :: s == BuildClose(code, reason) && Justified(code, reason, ev)
  }

  predicate Justified(code: nat, reason: bytes, ev: seq<Event>) {
    code == 1002 || code == 1009 || (ev != [] && ev[|ev| - 1] == OnClose(code, reason))
  }

  /** Everything sent is the PONG for each PING reported, in order, and then possibly one CLOSE. */
  ghost predicate Courteous(r: Reply) {
    var pongs := Pongs(Pings(r.events));
    && |pongs| <= |r.output| && r.output[..|pongs|] == pongs
    && ClosingBytes(r.output[|pongs|..], r.events)
    && (!r.state.closed ==> r.output == pongs)
  }

  lemma HandleCourteous(st: State, f: Frame)
    requires !st.closed
    ensures Courteous(HandleFrame(st, f))
    ensures HandleFrame(st, f).state.closed || (|HandleFrame(st, f).events| <= 1 &&
            HandleFrame(st, f).output == Pongs(Pings(HandleFrame(st, f).events)))
  {
    hide BuildFrame, BuildClose;
    var r := HandleFrame(st, f);
    if r.events != [] {
      assert r.events == [r.events[0]];
      assert Pongs(Pings(r.events)) == if f.opcode == PING then BuildFrame(PONG, f.payload) + [] else [];
    }
    assert r.output[0..] == r.output;
    if f.opcode == CLOSE {
      assert Justified(r.events[0].code, r.events[0].reason, r.events);
    } else if r.state.closed {
      FailJustified(st, f);
    }
  }

  lemma FailJustified(st: State, f: Frame)
    requires f.opcode != CLOSE && !st.closed && HandleFrame(st, f).state.closed
    ensures var r := HandleFrame(st, f); r.events == [] && ClosingBytes(r.output, [])
  {
    hide BuildFrame, BuildClose, Raw;
    assert forall reason: bytes :: Justified(1002, reason, []) && Justified(1009, reason, []);
  }

  lemma {:induction false} DrainCourteous(st: State)
    ensures Courteous(Drain(st))
    decreases |st.buffer|
  {
    hide HandleFrame, ParseFrame, BuildFrame, BuildClose;
    if !st.closed {
      match ParseFrame(st.buffer) {
        case Got(f, n) =>
          var st' := st.(buffer := st.buffer[n..]);
          var h := HandleFrame(st', f);
          HandleCourteous(st', f);
          HandleIgnoresBuffer(st', f, []);
          DrainCourteous(h.state);
          CourteousAfter(h, Drain(h.state));
        case _ =>
      }
    }
  }

  lemma {:induction false} PingsConcat(a: seq<Event>, b: seq<Event>)
    ensures Pings(a + b) == Pings(a) + Pings(b)
  {
    if a == [] {
      assert a + b == b;
    } else {
      assert (a + b)[1..] == a[1..] + b;
      PingsConcat(a[1..], b);
    }
  }

  lemma {:induction false} PongsConcat(a: seq<bytes>, b: seq<bytes>)
    ensures Pongs(a + b) == Pongs(a) + Pongs(b)
  {
    hide BuildFrame;
    if a == [] {
      assert a + b == b;
    } else {
      assert (a + b)[1..] == a[1..] + b;
      PongsConcat(a[1..], b);
    }
  }

  lemma CourteousAfter(h: Reply, d: Reply)
    requires Courteous(h) && Courteous(d)
    requires h.state.closed ==> d == Reply(h.state, [], [])
    ensures Courteous(d.After(h.output, h.events))
  {
    hide BuildFrame, BuildClose, Pings, Pongs, ClosingBytes;
    var r := d.After(h.output, h.events);
    PingsConcat(h.events, d.events);
    PongsConcat(Pings(h.events), Pings(d.events));
    if h.state.closed {
      assert r == h;
    } else {
      var pongs := Pongs(Pings(d.events));
      assert r.output[..|h.output| + |pongs|] == h.output + pongs;
      assert r.output[|h.output| + |pongs|..] == d.output[|pongs|..];
      StillJustified(d.output[|pongs|..], h.events, d.events);
    }
  }

  lemma StillJustified(s: bytes, a: seq<Event>, b: seq<Event>)
    requires ClosingBytes(s, b)
    ensures ClosingBytes(s, a + b)
  {
    hide BuildClose;
    if s != [] {
      var code: nat, reason: bytes :| s == BuildClose(code, reason) && Justified(code, reason, b);
      assert Justified(code, reason, a + b);
    }
  }

  /** From the start of a connection, on any input whatsoever. */
  lemma RunCourteous(chunks: seq<bytes>)
    ensures Courteous(ProcessAll(INITIAL, chunks))
  {
    assert Drain(INITIAL) == Reply(INITIAL, [], []) by { ParseEmpty(); }
    ChunkingInvariance(INITIAL, chunks);
    DrainCourteous(INITIAL.(buffer := [] + Concat(chunks)));
  }

  // ----- Server frames are well formed -----

  /** A reference reader for unmasked frames (section 5.2): the frame and what follows it. */
  function ReadServerFrame(w: bytes): Option<(Frame, bytes)> {
    if |w| < 2 || w[1] >= 128 then None
    else
      var extra := if w[1] == 126 then 2 else if w[1] == 127 then 8 else 0;
      if |w| < 2 + extra then None
      else
        var n := if extra == 0 then w[1] else BigEndian(w[2..2 + extra]);
        if |w| < 2 + extra + n then None
        else Some((Frame(w[0] >= 128, w[0] % 128, w[2 + extra..2 + extra + n]), w[2 + extra + n..]))
  }

  lemma BuildFrameRoundTrip(opcode: byte, payload: bytes, fin: bool, rest: bytes)
    requires opcode < 16 && |payload| < 0x1_0000_0000_0000_0000
    ensures ReadServerFrame(BuildFrame(opcode, payload, fin) + rest) == Some((Frame(fin, opcode, payload), rest))
  {
    var n := |payload|;
    var extra := if n <= 125 then 0 else if n <= 65535 then 2 else 8;
    var w := BuildFrame(opcode, payload, fin) + rest;
    assert Pow256(2) == 65536;
    assert Pow256(8) == 0x1_0000_0000_0000_0000;
    if extra > 0 {
      BigEndianRoundTrip(n, extra);
      assert w[2..2 + extra] == ToBigEndian(n, extra);
    }
    assert w[2 + extra..2 + extra + n] == payload;
    assert w[2 + extra + n..] == rest;
  }
}
