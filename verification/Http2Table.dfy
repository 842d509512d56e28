/**
 * The header table over whole runs of a connection: the insertions and size changes that the input makes, read off
 * the input in order, and the table they leave.
 */
module Http2Table {
  import opened Common
  import opened HpackTable
  import opened Http2
  import Hpack
  import HpackBlocks

  /** A change to the table: a size announced in SETTINGS, or an operation of a header block. */
  datatype Change = Announced(max: nat) | InBlock(op: Op) {
    function Op(): Op {
      match this
      case Announced(max) => Resize(max)
      case InBlock(op) => op
    }
  }

  function Ops(cs: seq<Change>): (ops: seq<Op>)
    ensures |ops| == |cs|
  {
    seq(|cs|, i requires 0 <= i < |cs| => cs[i].Op())
  }

  function InBlocks(ops: seq<Op>): (cs: seq<Change>)
    ensures |cs| == |ops|
  {
    seq(|ops|, i requires 0 <= i < |ops| => InBlock(ops[i]))
  }

  /** The size last announced. */
  function LimitAfter(limit: nat, cs: seq<Change>): nat {
    if cs == [] then limit
    else if cs[|cs| - 1].Announced? then cs[|cs| - 1].max
    else LimitAfter(limit, cs[..|cs| - 1])
  }

  // ----- The changes that an input makes -----

  predicate Refused(id: nat, value: nat) {
    || (id == SET_INITIAL_WINDOW_SIZE && value > 0x7FFF_FFFF)
    || (id == SET_MAX_FRAME_SIZE && (value < MIN_FRAME_SIZE || value > LIMIT_FRAME_SIZE))
  }

  function SettingChanges(id: nat, value: nat): seq<Change> {
    if id == SET_HEADER_TABLE_SIZE then [Announced(value)] else []
  }

  /** Header table sizes, up to a parameter that is refused. */
  function SettingsChanges(payload: bytes): seq<Change>
    requires |payload| % 6 == 0
    decreases |payload|
  {
    if payload == [] then []
    else
      var id, value := BigEndian(payload[..2]), BigEndian(payload[2..6]);
      if Refused(id, value) then [] else SettingChanges(id, value) + SettingsChanges(payload[6..])
  }

  /** A header block is decoded when the frame that ends it arrives. */
  function FrameChanges(c: Core, f: Frame): seq<Change>
    requires c.Valid()
  {
    if f.kind == SETTINGS then
      if !f.Has(ACK) && |f.payload| % 6 == 0 then SettingsChanges(f.payload) else []
    else if f.kind == HEADERS && f.streamId != 0 && Fragment(f).Some? && f.Has(END_HEADERS) then
      var collected := if f.streamId in c.streams then c.streams[f.streamId].headerBlock else [];
      InBlocks(HpackBlocks.LoopOps(c.decoder, collected + Fragment(f).value))
    else []
  }

  function BufferChanges(handler: Handler, c: Conn): seq<Change>
    requires c.Valid()
    decreases |c.buffer|
  {
    hide HandleFrame, ParseFrame, FrameChanges;
    match ParseFrame(c.buffer, c.core.maxFrameSize)
    case None => []
    case Some(f) =>
      var h := HandleFrame(handler, c.core, f);
      FrameChanges(c.core, f)
      + if h.core.goawaySent then [] else BufferChanges(handler, c.(buffer := c.buffer[9 + |f.payload|..], core := h.core))
  }

  function CallChanges(handler: Handler, c: Conn, data: bytes): seq<Change>
    requires c.Valid()
  {
    hide Preface;
    var c1 := c.(buffer := c.buffer + data);
    if c.prefaceReceived then BufferChanges(handler, c1)
    else if |c1.buffer| < 24 || c1.buffer[..24] != Preface() then []
    else BufferChanges(handler, c1.(buffer := c1.buffer[24..], prefaceReceived := true, settingsSent := true))
  }

  function RunChanges(handler: Handler, c: Conn, chunks: seq<bytes>): seq<Change>
    requires c.Valid()
    decreases |chunks|
  {
    hide Process, CallChanges;
    if chunks == [] then []
    else CallChanges(handler, c, chunks[0]) + RunChanges(handler, Process(handler, c, chunks[0]).conn, chunks[1..])
  }

  // ----- They account for the table and the announced size -----

  /** From one state of the connection to another the changes are exactly these. */
  ghost predicate Leads(c: Core, cs: seq<Change>, d: Core)
    requires c.Valid()
  {
    d.decoder == After(c.decoder, Ops(cs)) && d.headerTableSize == LimitAfter(c.headerTableSize, cs)
  }

  lemma OpsAppend(a: seq<Change>, b: seq<Change>)
    ensures Ops(a + b) == Ops(a) + Ops(b)
  {
  }

  lemma {:induction false} LimitAppend(limit: nat, a: seq<Change>, b: seq<Change>)
    ensures LimitAfter(limit, a + b) == LimitAfter(LimitAfter(limit, a), b)
    decreases |b|
  {
    if b == [] {
      assert a + b == a;
    } else {
      LimitAppend(limit, a, b[..|b| - 1]);
      assert (a + b)[|a + b| - 1] == b[|b| - 1] && (a + b)[..|a + b| - 1] == a + b[..|b| - 1];
    }
  }

  lemma LeadsOn(c: Core, a: seq<Change>, d: Core, b: seq<Change>, e: Core)
    requires c.Valid() && d.Valid() && Leads(c, a, d) && Leads(d, b, e)
    ensures Leads(c, a + b, e)
  {
    hide Core.Valid, After, Ops, LimitAfter;
    DecoderValid(c);
    OpsAppend(a, b);
    AfterAppend(c.decoder, Ops(a), Ops(b));
    LimitAppend(c.headerTableSize, a, b);
  }

  lemma DecoderValid(c: Core)
    requires c.Valid()
    ensures c.decoder.Valid()
  {
  }

  lemma LeadsNowhere(c: Core, d: Core)
    requires c.Valid() && d.decoder == c.decoder && d.headerTableSize == c.headerTableSize
    ensures Leads(c, [], d)
  {
    hide Core.Valid;
    DecoderValid(c);
    assert Ops([]) == [];
  }

  lemma SettingLeads(c: Core, id: nat, value: nat)
    requires c.Valid()
    ensures ApplySetting(c, id, value).1 != 0 <==> Refused(id, value)
    ensures Leads(c, if Refused(id, value) then [] else SettingChanges(id, value), ApplySetting(c, id, value).0)
  {
    hide Hpack.SetMax, Leads;
    if id == SET_HEADER_TABLE_SIZE {
      AnnouncedLeads(c, value, ApplySetting(c, id, value).0);
    } else {
      LeadsNowhere(c, ApplySetting(c, id, value).0);
    }
  }

  lemma AnnouncedLeads(c: Core, max: nat, d: Core)
    requires c.Valid() && d.decoder == Hpack.SetMax(c.decoder, max) && d.headerTableSize == max
    ensures Leads(c, [Announced(max)], d)
  {
    hide Hpack.SetMax, After;
    assert Ops([Announced(max)]) == [Resize(max)];
    AfterOne(c.decoder, Resize(max));
  }

  lemma {:induction false} SettingsLead(c: Core, payload: bytes)
    requires c.Valid() && |payload| % 6 == 0
    ensures Leads(c, SettingsChanges(payload), ApplySettings(c, payload).0)
    decreases |payload|
  {
    hide ApplySetting, Leads, Refused, SettingChanges, Core.Valid;
    if payload == [] {
      LeadsNowhere(c, c);
    } else {
      var id, value := BigEndian(payload[..2]), BigEndian(payload[2..6]);
      SettingLeads(c, id, value);
      var d := ApplySetting(c, id, value).0;
      if !Refused(id, value) {
        SettingsLead(d, payload[6..]);
        LeadsOn(c, SettingChanges(id, value), d, SettingsChanges(payload[6..]), ApplySettings(d, payload[6..]).0);
      }
    }
  }

  lemma BlockLeads(c: Core, block: bytes, d: Core)
    requires c.Valid() && d.decoder == Hpack.Decode(c.decoder, block).table && d.headerTableSize == c.headerTableSize
    ensures Leads(c, InBlocks(HpackBlocks.LoopOps(c.decoder, block)), d)
  {
    hide Hpack.Decode, HpackBlocks.LoopOps, After, Core.Valid, LimitAfter;
    DecoderValid(c);
    var ops := HpackBlocks.LoopOps(c.decoder, block);
    HpackBlocks.DecodedTable(c.decoder, block);
    assert Ops(InBlocks(ops)) == ops;
    BlocksAnnounceNothing(c.headerTableSize, ops);
  }

  lemma {:induction false} BlocksAnnounceNothing(limit: nat, ops: seq<Op>)
    ensures LimitAfter(limit, InBlocks(ops)) == limit
    decreases |ops|
  {
    if ops != [] {
      var before := ops[..|ops| - 1];
      BlocksAnnounceNothing(limit, before);
      assert InBlocks(ops)[..|ops| - 1] == InBlocks(before);
    }
  }

  lemma FinishLeads(handler: Handler, c: Core, s: Stream, endStream: bool)
    requires c.Valid() && s.id in c.streams
    ensures Leads(c, InBlocks(HpackBlocks.LoopOps(c.decoder, s.headerBlock)), FinishHeaders(handler, c, s, endStream).core)
  {
    hide Hpack.Decode, BuildResponse, BuildRequest, Leads, HpackBlocks.LoopOps, InBlocks;
    BlockLeads(c, s.headerBlock, FinishHeaders(handler, c, s, endStream).core);
  }

  lemma HeadersLead(handler: Handler, c: Core, f: Frame)
    requires c.Valid() && f.kind == HEADERS
    ensures Leads(c, FrameChanges(c, f), HandleHeaders(handler, c, f).core)
  {
    hide FinishHeaders, Fragment, Leads, HpackBlocks.LoopOps, InBlocks, Frame.Has;
    if f.streamId != 0 && Fragment(f).Some? && f.Has(END_HEADERS) {
      var c1 := WithStream(c, f.streamId);
      var s := c1.streams[f.streamId].(headerBlock := c1.streams[f.streamId].headerBlock + Fragment(f).value);
      var c2 := Update(c1, s);
      FinishLeads(handler, c2, s, f.Has(END_STREAM));
      SameTable(c, c2, InBlocks(HpackBlocks.LoopOps(c.decoder, s.headerBlock)), FinishHeaders(handler, c2, s, f.Has(END_STREAM)).core);
    } else {
      LeadsNowhere(c, HandleHeaders(handler, c, f).core);
    }
  }

  lemma SameTable(c: Core, d: Core, cs: seq<Change>, e: Core)
    requires c.Valid() && d.Valid() && c.decoder == d.decoder && c.headerTableSize == d.headerTableSize && Leads(d, cs, e)
    ensures Leads(c, cs, e)
  {
  }

  lemma SettingsFrameLeads(c: Core, f: Frame)
    requires c.Valid() && f.kind == SETTINGS
    ensures Leads(c, FrameChanges(c, f), HandleSettings(c, f).core)
  {
    hide ApplySettings, SettingsChanges, Leads, BuildFrame, Frame.Has;
    if !f.Has(ACK) && |f.payload| % 6 == 0 {
      SettingsLead(c, f.payload);
      var d := ApplySettings(c, f.payload).0;
      SameTableAfter(c, SettingsChanges(f.payload), d, HandleSettings(c, f).core);
    } else {
      LeadsNowhere(c, HandleSettings(c, f).core);
    }
  }

  lemma SameTableAfter(c: Core, cs: seq<Change>, d: Core, e: Core)
    requires c.Valid() && Leads(c, cs, d) && d.decoder == e.decoder && d.headerTableSize == e.headerTableSize
    ensures Leads(c, cs, e)
  {
  }

  lemma FrameLeads(handler: Handler, c: Core, f: Frame)
    requires c.Valid()
    ensures Leads(c, FrameChanges(c, f), HandleFrame(handler, c, f).core)
  {
    hide HandleHeaders, HandleSettings, BuildResponse, BuildFrame, Leads, Frame.Has, SettingsChanges;
    if f.kind == SETTINGS {
      SettingsFrameLeads(c, f);
    } else if f.kind == HEADERS {
      HeadersLead(handler, c, f);
    } else {
      LeadsNowhere(c, HandleFrame(handler, c, f).core);
    }
  }

  lemma {:induction false} BufferLeads(handler: Handler, c: Conn)
    requires c.Valid()
    ensures Leads(c.core, BufferChanges(handler, c), Frames(handler, c).conn.core)
    decreases |c.buffer|
  {
    hide Leads, HandleFrame, ParseFrame, Core.Valid, FrameChanges;
    var p := ParseFrame(c.buffer, c.core.maxFrameSize);
    if p.None? {
      LeadsNowhere(c.core, c.core);
    } else {
      var f := p.value;
      FrameLeads(handler, c.core, f);
      var h := HandleFrame(handler, c.core, f);
      var first := FrameChanges(c.core, f);
      if h.core.goawaySent {
        assert first + [] == first;
      } else {
        var c' := c.(buffer := c.buffer[9 + |f.payload|..], core := h.core);
        BufferLeads(handler, c');
        LeadsOn(c.core, first, h.core, BufferChanges(handler, c'), Frames(handler, c').conn.core);
      }
    }
  }

  lemma CallLeads(handler: Handler, c: Conn, data: bytes)
    requires c.Valid()
    ensures Leads(c.core, CallChanges(handler, c, data), Process(handler, c, data).conn.core)
  {
    hide Leads, Frames, BufferChanges, Preface, Core.Valid;
    var c1 := c.(buffer := c.buffer + data);
    if c.prefaceReceived {
      BufferLeads(handler, c1);
    } else if |c1.buffer| < 24 || c1.buffer[..24] != Preface() {
      LeadsNowhere(c.core, Process(handler, c, data).conn.core);
    } else {
      BufferLeads(handler, c1.(buffer := c1.buffer[24..], prefaceReceived := true, settingsSent := true));
    }
  }

  lemma {:induction false} RunLeads(handler: Handler, c: Conn, chunks: seq<bytes>)
    requires c.Valid()
    ensures Leads(c.core, RunChanges(handler, c, chunks), ProcessAll(handler, c, chunks).conn.core)
    decreases |chunks|
  {
    hide Leads, Process, CallChanges, Core.Valid;
    if chunks == [] {
      LeadsNowhere(c.core, c.core);
    } else {
      CallLeads(handler, c, chunks[0]);
      var c' := Process(handler, c, chunks[0]).conn;
      RunLeads(handler, c', chunks[1..]);
      LeadsOn(c.core, CallChanges(handler, c, chunks[0]), c'.core, RunChanges(handler, c', chunks[1..]),
              ProcessAll(handler, c', chunks[1..]).conn.core);
    }
  }

  /** In every reachable state the table is what the changes read off the input leave of an empty table. */
  lemma {:induction false} ConnectionTable(handler: Handler, chunks: seq<bytes>)
    ensures INITIAL.Valid()
    ensures var cs := RunChanges(handler, INITIAL, chunks);
            var c := ProcessAll(handler, INITIAL, chunks).conn.core;
            c.decoder == Run(4096, Ops(cs)) && c.headerTableSize == LimitAfter(4096, cs)
  {
    hide ProcessAll, RunChanges, Run, After, LimitAfter, Ops;
    RunLeads(handler, INITIAL, chunks);
    RunIsAfter(4096, Ops(RunChanges(handler, INITIAL, chunks)));
  }

  /**
   * So the input's `j`th newest insertion is still in the table exactly when, at every moment since, it and everything
   * inserted later fitted in the size then in force.
   */
  lemma {:induction false} ConnectionEntry(handler: Handler, chunks: seq<bytes>, j: nat)
    requires INITIAL.Valid() && j < |History(Ops(RunChanges(handler, INITIAL, chunks)))|
    ensures var ops := Ops(RunChanges(handler, INITIAL, chunks));
            var entries := ProcessAll(handler, INITIAL, chunks).conn.core.decoder.entries;
            && entries <= History(ops)
            && (j < |entries| <==> forall k: nat | k <= |ops| :: FittedAt(4096, ops, j, k))
  {
    hide ProcessAll, RunChanges, Run, Ops, FittedAt, History, LimitAfter;
    ConnectionTable(handler, chunks);
    SurvivesIff(4096, Ops(RunChanges(handler, INITIAL, chunks)), j);
  }

  // ----- Size updates beyond the announced size -----

  /** Every size update in a block is within the size announced by then, as section 6.3 of RFC 7541 demands. */
  predicate Obedient(limit: nat, cs: seq<Change>) {
    forall k | 0 <= k < |cs| && cs[k].InBlock? && cs[k].op.Resize? :: cs[k].op.max <= LimitAfter(limit, cs[..k])
  }

  /** The maximum never exceeds the announced size, at no moment of the run, exactly when the blocks are obedient. */
  lemma {:induction false} WithinAnnouncedIff(limit: nat, cs: seq<Change>)
    ensures Obedient(limit, cs) <==>
            forall k: nat | k <= |cs| :: Run(limit, Ops(cs[..k])).max <= LimitAfter(limit, cs[..k])
  {
    hide Run, LimitAfter, Ops;
    if Obedient(limit, cs) {
      forall k: nat | k <= |cs|
        ensures Run(limit, Ops(cs[..k])).max <= LimitAfter(limit, cs[..k])
      {
        ObedientWithin(limit, cs, k);
      }
    } else {
      var k :| 0 <= k < |cs| && cs[k].InBlock? && cs[k].op.Resize? && cs[k].op.max > LimitAfter(limit, cs[..k]);
      OneChange(limit, cs, k);
      assert Run(limit, Ops(cs[..k + 1])).max > LimitAfter(limit, cs[..k + 1]);
    }
  }

  lemma OneChange(limit: nat, cs: seq<Change>, k: nat)
    requires k < |cs|
    ensures Run(limit, Ops(cs[..k + 1])).max == (if cs[k].Op().Resize? then cs[k].Op().max else Run(limit, Ops(cs[..k])).max)
    ensures LimitAfter(limit, cs[..k + 1]) == if cs[k].Announced? then cs[k].max else LimitAfter(limit, cs[..k])
  {
    hide Run, Ops;
    assert cs[..k + 1][..k] == cs[..k];
    OpsAppend(cs[..k], [cs[k]]);
    assert cs[..k + 1] == cs[..k] + [cs[k]];
    OpsOne(cs[k]);
    MaxOfRun(limit, Ops(cs[..k + 1]));
    MaxOfRun(limit, Ops(cs[..k]));
    assert Ops(cs[..k + 1])[..k] == Ops(cs[..k]);
  }

  lemma OpsOne(c: Change)
    ensures Ops([c]) == [c.Op()]
  {
  }

  lemma {:induction false} ObedientWithin(limit: nat, cs: seq<Change>, k: nat)
    requires Obedient(limit, cs) && k <= |cs|
    ensures Run(limit, Ops(cs[..k])).max <= LimitAfter(limit, cs[..k])
  {
    hide Run, LimitAfter, Ops;
    if k == 0 {
      NoChange(limit, cs[..0]);
    } else {
      ObedientWithin(limit, cs, k - 1);
      OneChange(limit, cs, k - 1);
    }
  }

  lemma NoChange(limit: nat, cs: seq<Change>)
    requires cs == []
    ensures Run(limit, Ops(cs)).max == limit == LimitAfter(limit, cs)
  {
    assert Ops(cs) == [];
  }

  /** The last size change was announced, or is within what was. */
  predicate EndsWithin(limit: nat, cs: seq<Change>) {
    cs == [] ||
    var before, last := cs[..|cs| - 1], cs[|cs| - 1];
    match last
    case Announced(_) => true
    case InBlock(Resize(max)) => max <= LimitAfter(limit, before)
    case InBlock(Insert(_)) => EndsWithin(limit, before)
  }

  lemma {:induction false} EndsWithinIff(limit: nat, cs: seq<Change>)
    ensures EndsWithin(limit, cs) <==> Run(limit, Ops(cs)).max <= LimitAfter(limit, cs)
    decreases |cs|
  {
    hide Run, LimitAfter, Ops;
    if cs == [] {
      NoChange(limit, cs);
    } else {
      EndsWithinIff(limit, cs[..|cs| - 1]);
      OneChange(limit, cs, |cs| - 1);
      assert cs[..|cs|] == cs;
    }
  }

  /** After any input the table's maximum is within the announced size exactly when the last size change was. */
  lemma {:induction false} ConnectionWithinIff(handler: Handler, chunks: seq<bytes>)
    ensures INITIAL.Valid()
    ensures var c := ProcessAll(handler, INITIAL, chunks).conn.core;
            c.decoder.max <= c.headerTableSize <==> EndsWithin(4096, RunChanges(handler, INITIAL, chunks))
  {
    hide ProcessAll, RunChanges, Run, Ops, LimitAfter, EndsWithin;
    ConnectionTable(handler, chunks);
    EndsWithinIff(4096, RunChanges(handler, INITIAL, chunks));
  }
}
