/** When reading the input in two pieces is the same as reading it in one. */
module Http2Split {
  import opened Common
  import opened Http2

  function Grown(c: Conn, b: bytes): Conn {
    c.(buffer := c.buffer + b)
  }

  /** A complete frame stays the same frame when more bytes arrive. */
  lemma ParseMonotone(buf: bytes, limit: nat, b: bytes)
    ensures ParseFrame(buf, limit).Some? ==> ParseFrame(buf + b, limit) == ParseFrame(buf, limit)
  {
    if ParseFrame(buf, limit).Some? {
      var n := |ParseFrame(buf, limit).value.payload|;
      assert (buf + b)[..3] == buf[..3];
      assert (buf + b)[5..9] == buf[5..9];
      SliceOfAppend(buf, b, 9, 9 + n);
    }
  }

  /** The reply with more unread input behind it. */
  function GrownReply(r: Reply, b: bytes): Reply {
    Reply(Grown(r.conn, b), r.output)
  }

  // ----- The loop -----

  lemma Regroup(r: Reply, out: bytes, out': bytes)
    ensures r.After(out').After(out) == r.After(out + out')
  {
    assert out + (out' + r.output) == out + out' + r.output;
  }

  /** The connection once the frame at the front of its buffer has been handled. */
  function Next(handler: Handler, c: Conn, f: Frame): Conn
    requires c.Valid() && 9 + |f.payload| <= |c.buffer|
  {
    c.(buffer := c.buffer[9 + |f.payload|..], core := HandleFrame(handler, c.core, f).core)
  }

  lemma NextGrown(handler: Handler, c: Conn, f: Frame, b: bytes)
    requires c.Valid() && 9 + |f.payload| <= |c.buffer|
    ensures Next(handler, Grown(c, b), f) == Grown(Next(handler, c, f), b)
  {
    hide HandleFrame;
    var n := 9 + |f.payload|;
    assert (c.buffer + b)[n..] == c.buffer[n..] + b;
  }

  /** While the connection stays alive the loop resumes exactly where it stopped. */
  lemma {:induction false} FramesGrown(handler: Handler, c: Conn, b: bytes)
    requires c.Valid() && Frames(handler, c).conn.Alive()
    ensures var r := Frames(handler, c);
            Frames(handler, Grown(c, b)) == Frames(handler, Grown(r.conn, b)).After(r.output)
    decreases |c.buffer|
  {
    hide HandleFrame, ParseFrame;
    ParseMonotone(c.buffer, c.core.maxFrameSize, b);
    match ParseFrame(c.buffer, c.core.maxFrameSize) {
      case None =>
        assert Frames(handler, Grown(c, b)).After([]) == Frames(handler, Grown(c, b));
      case Some(f) =>
        NextGrown(handler, c, f, b);
        var c' := Next(handler, c, f);
        FramesGrown(handler, c', b);
        var r := Frames(handler, c');
        Regroup(Frames(handler, Grown(r.conn, b)), HandleFrame(handler, c.core, f).output, r.output);
    }
  }

  /** Once a frame has ended the connection, later input is only stored. */
  lemma {:induction false} FramesDead(handler: Handler, c: Conn, b: bytes)
    requires c.Valid() && c.Alive() && !Frames(handler, c).conn.Alive()
    ensures Frames(handler, Grown(c, b)) == GrownReply(Frames(handler, c), b)
    decreases |c.buffer|
  {
    hide HandleFrame, ParseFrame;
    ParseMonotone(c.buffer, c.core.maxFrameSize, b);
    match ParseFrame(c.buffer, c.core.maxFrameSize) {
      case None =>
      case Some(f) =>
        NextGrown(handler, c, f, b);
        if Next(handler, c, f).Alive() {
          FramesDead(handler, Next(handler, c, f), b);
        }
    }
  }

  /** A finished connection handles one more frame per call, if there is one. */
  lemma FramesAfterDeath(handler: Handler, c: Conn)
    requires c.Valid() && !c.Alive()
    ensures ParseFrame(c.buffer, c.core.maxFrameSize).None? ==> Frames(handler, c) == Reply(c, [])
    ensures ParseFrame(c.buffer, c.core.maxFrameSize).Some? ==> |Frames(handler, c).conn.buffer| < |c.buffer|
  {
    hide HandleFrame, ParseFrame;
  }

  // ----- One read or two -----

  /** Reading `a` and then `b` has the same effect as reading them together. */
  ghost predicate SplitHolds(handler: Handler, c: Conn, a: bytes, b: bytes)
    requires c.Valid()
  {
    var r := Process(handler, c, a);
    Process(handler, c, a + b) == Process(handler, r.conn, b).After(r.output)
  }

  lemma SplitWhileAlive(handler: Handler, c: Conn, a: bytes, b: bytes)
    requires c.Valid() && Process(handler, c, a).conn.Alive()
    ensures SplitHolds(handler, c, a, b)
  {
    hide Frames, BuildSettings, Preface;
    var c1 := Grown(c, a);
    assert c.buffer + (a + b) == c1.buffer + b;
    if c.prefaceReceived {
      FramesGrown(handler, c1, b);
    } else if |c1.buffer| >= 24 {
      assert (c1.buffer + b)[..24] == c1.buffer[..24];
      var c2 := c1.(buffer := c1.buffer[24..], prefaceReceived := true, settingsSent := true);
      assert (c1.buffer + b)[24..] == c2.buffer + b;
      FramesGrown(handler, c2, b);
      var r := Frames(handler, c2);
      Regroup(Frames(handler, Grown(r.conn, b)), BuildSettings(), r.output);
    } else {
      var r := Process(handler, c1, b);
      assert r.After([]) == r;
    }
  }

  /** After a frame has ended the connection, the split holds exactly when no further frame is complete. */
  lemma SplitAfterDeath(handler: Handler, c: Conn, a: bytes, b: bytes)
    requires c.Valid() && c.Alive()
    requires !Process(handler, c, a).conn.Alive() && Process(handler, c, a).conn.prefaceReceived
    ensures var r := Process(handler, c, a).conn;
            SplitHolds(handler, c, a, b) <==> ParseFrame(r.buffer + b, r.core.maxFrameSize).None?
  {
    hide Frames, BuildSettings, Preface, ParseFrame;
    var c1 := Grown(c, a);
    assert c.buffer + (a + b) == c1.buffer + b;
    var r := Process(handler, c, a);
    assert Process(handler, c, a + b) == GrownReply(r, b) by {
      if c.prefaceReceived {
        FramesDead(handler, c1, b);
      } else {
        assert (c1.buffer + b)[..24] == c1.buffer[..24];
        var c2 := c1.(buffer := c1.buffer[24..], prefaceReceived := true, settingsSent := true);
        assert (c1.buffer + b)[24..] == c2.buffer + b;
        FramesDead(handler, c2, b);
      }
    }
    FramesAfterDeath(handler, Grown(r.conn, b));
    assert r.output + [] == r.output;
  }

  /** An invalid preface is answered again on every later call. */
  lemma NoSplitAfterBadPreface(handler: Handler, c: Conn, a: bytes, b: bytes)
    requires c.Valid() && c.Alive()
    requires !Process(handler, c, a).conn.Alive() && !Process(handler, c, a).conn.prefaceReceived
    ensures !SplitHolds(handler, c, a, b)
  {
    hide Frames, BuildSettings, Preface, BuildFrame;
    var c1 := Grown(c, a);
    assert c.buffer + (a + b) == c1.buffer + b;
    assert (c1.buffer + b)[..24] == c1.buffer[..24];
  }

  /**
   For a live connection, splitting the input is invisible if and only if the connection is still alive after
   the first piece, or was ended by a frame and the second piece completes no further one.
   */
  lemma SplitIff(handler: Handler, c: Conn, a: bytes, b: bytes)
    requires c.Valid() && c.Alive()
    ensures var r := Process(handler, c, a).conn;
            SplitHolds(handler, c, a, b)
            <==> r.Alive() || (r.prefaceReceived && ParseFrame(r.buffer + b, r.core.maxFrameSize).None?)
  {
    hide Process, ParseFrame, SplitHolds;
    var r := Process(handler, c, a).conn;
    if r.Alive() {
      SplitWhileAlive(handler, c, a, b);
    } else if r.prefaceReceived {
      SplitAfterDeath(handler, c, a, b);
    } else {
      NoSplitAfterBadPreface(handler, c, a, b);
    }
  }

  /** A split that shows: a bad preface followed by nothing gets a second GOAWAY. */
  lemma SplitShows(handler: Handler)
    ensures INITIAL.Valid() && !SplitHolds(handler, INITIAL, seq(24, _ => 0), [])
  {
    hide Frames, BuildFrame;
    var a: bytes := seq(24, _ => 0);
    assert ([] + a)[..24] == a && a[0] == 0;
    assert Preface()[0] == 80;
    NoSplitAfterBadPreface(handler, INITIAL, a, []);
  }

  /** As long as no piece but the last ends the connection, any chunking equals one read of everything. */
  lemma {:induction false} ChunkingInvariance(handler: Handler, c: Conn, chunks: seq<bytes>)
    requires c.Valid() && chunks != []
    requires ProcessAll(handler, c, chunks[..|chunks| - 1]).conn.Alive()
    ensures ProcessAll(handler, c, chunks) == Process(handler, c, Concat(chunks))
    decreases |chunks|
  {
    hide Process, SplitHolds;
    var init, last := chunks[..|chunks| - 1], chunks[|chunks| - 1];
    assert chunks == init + [last];
    ProcessAllLast(handler, c, init, last);
    ConcatAppend(init, [last]);
    assert Concat([last]) == last + [];
    if init == [] {
      assert Concat(chunks) == last;
      var r := Process(handler, c, last);
      assert r.After([]) == r;
    } else {
      AliveBefore(handler, c, init);
      ChunkingInvariance(handler, c, init);
      SplitWhileAlive(handler, c, Concat(init), last);
      assert Concat(chunks) == Concat(init) + last;
      UseSplit(handler, c, Concat(init), last);
    }
  }

  /** A connection that more input leaves alive was alive before it. */
  lemma AlivePrefix(handler: Handler, c: Conn, a: bytes, b: bytes)
    requires c.Valid() && c.Alive() && Process(handler, c, a + b).conn.Alive()
    ensures Process(handler, c, a).conn.Alive()
  {
    hide Frames, BuildSettings, Preface, BuildFrame;
    var c1 := Grown(c, a);
    assert c.buffer + (a + b) == c1.buffer + b;
    if c.prefaceReceived {
      if !Frames(handler, c1).conn.Alive() {
        FramesDead(handler, c1, b);
      }
    } else if |c1.buffer| >= 24 {
      assert (c1.buffer + b)[..24] == c1.buffer[..24];
      var c2 := c1.(buffer := c1.buffer[24..], prefaceReceived := true, settingsSent := true);
      assert (c1.buffer + b)[24..] == c2.buffer + b;
      if !Frames(handler, c2).conn.Alive() {
        FramesDead(handler, c2, b);
      }
    }
  }

  /** Input that leaves the connection alive when read at once is read alike in any chunking. */
  lemma {:induction false} LiveChunking(handler: Handler, c: Conn, chunks: seq<bytes>)
    requires c.Valid() && c.Alive() && chunks != [] && Process(handler, c, Concat(chunks)).conn.Alive()
    ensures ProcessAll(handler, c, chunks) == Process(handler, c, Concat(chunks))
    decreases |chunks|
  {
    hide Process;
    var init, last := chunks[..|chunks| - 1], chunks[|chunks| - 1];
    assert chunks == init + [last];
    ConcatAppend(init, [last]);
    assert Concat([last]) == last + [] == last;
    if init != [] {
      AlivePrefix(handler, c, Concat(init), last);
      LiveChunking(handler, c, init);
    }
    ChunkingInvariance(handler, c, chunks);
  }

  lemma {:induction false} AliveBefore(handler: Handler, c: Conn, chunks: seq<bytes>)
    requires c.Valid() && chunks != [] && ProcessAll(handler, c, chunks).conn.Alive()
    ensures ProcessAll(handler, c, chunks[..|chunks| - 1]).conn.Alive()
  {
    hide Process, ProcessAll;
    var init, last := chunks[..|chunks| - 1], chunks[|chunks| - 1];
    assert chunks == init + [last];
    ProcessAllLast(handler, c, init, last);
    var r := ProcessAll(handler, c, init);
    assert ProcessAll(handler, c, chunks).conn == Process(handler, r.conn, last).conn;
  }

  lemma UseSplit(handler: Handler, c: Conn, a: bytes, b: bytes)
    requires c.Valid() && SplitHolds(handler, c, a, b)
    ensures var r := Process(handler, c, a);
            Process(handler, c, a + b) == Process(handler, r.conn, b).After(r.output)
  {
  }

  lemma {:induction false} ProcessAllLast(handler: Handler, c: Conn, init: seq<bytes>, last: bytes)
    requires c.Valid()
    ensures var r := ProcessAll(handler, c, init);
            ProcessAll(handler, c, init + [last]) == Process(handler, r.conn, last).After(r.output)
    decreases |init|
  {
    hide Process;
    if init == [] {
      assert init + [last] == [last];
      var r := Process(handler, c, last);
      assert r.After([]) == r && Reply(r.conn, []).After(r.output) == r;
    } else {
      var r := Process(handler, c, init[0]);
      assert (init + [last])[1..] == init[1..] + [last];
      ProcessAllLast(handler, r.conn, init[1..], last);
      var q := ProcessAll(handler, r.conn, init[1..]);
      Regroup(Process(handler, q.conn, last), r.output, q.output);
    }
  }
}
