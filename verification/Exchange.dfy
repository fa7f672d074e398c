/** End to end: one endpoint writes messages, its peer reads them. */
module Exchange {
  import opened Bytes
  import opened Masking
  import opened Frames
  import opened Reading
  import opened Streams
  import opened ReadConns
  import opened Sources
  import opened WriteConns

  // ----- Reading a whole stream through the class -----

  lemma {:induction false} ContinueChunk(
      cfg: Config, m: Message, st: State, s: seq<Byte>, data: seq<Byte>, st': State, s': seq<Byte>)
    requires ReadMessage(cfg, st, s) == ReadMessage(cfg, st', s').Prepend(data)
    ensures Continue(cfg, m, st, s) == Continue(cfg, m.(payload := m.payload + data), st', s')
  {
    hide ReadMessage, ReadAll;
    match ReadMessage(cfg, st', s')
    case Whole(q, _, _) => assert m.payload + (data + q) == m.payload + data + q;
    case Cut(q, _) => assert m.payload + (data + q) == m.payload + data + q;
  }

  lemma {:induction false} ContinueStops(cfg: Config, m: Message, st: State, s: seq<Byte>)
    ensures ReadMessage(cfg, st, s).Cut? && ReadMessage(cfg, st, s).payload == [] ==>
      Continue(cfg, m, st, s) == Outcome([], Some(m), ReadMessage(cfg, st, s).error)
    ensures ReadMessage(cfg, st, s).Whole? && ReadMessage(cfg, st, s).payload == [] ==>
      Continue(cfg, m, st, s) == ReadAll(cfg, ReadMessage(cfg, st, s).st, ReadMessage(cfg, st, s).rest).Prepend([m])
  {
    hide ReadMessage, ReadAll;
    assert m.payload + [] == m.payload;
  }

  /**
   * Read one message to its end, in pieces of any sizes. early: the transport has reported the end of
   * the stream together with the last piece; io.EOF then passes for the end of the message.
   */
  method ReadOne(c: ReadConn, r: MessageReader, op: nat) returns (m: Message, err: Option<Error>, ghost early: bool)
    requires c.Valid() && r.c == c && c.messageReader == r && c.readErr.None?
    modifies c
    ensures c.Valid() && m.op == op && (early ==> c.eager)
    ensures !early && err.None? ==> c.readErr.None? && c.St().final && c.St().rem == 0
    ensures !early && err.None? ==> SameEnd(c.cfg, old(c.St()), old(c.input), c.St(), c.input)
    ensures early ==> PayloadEnd(c.cfg, old(c.St()), old(c.input)) == Some(c.St())
    ensures !early && err.None? ==>
      Continue(c.cfg, Message(op, []), old(c.St()), old(c.input)) == ReadAll(c.cfg, c.St(), c.input).Prepend([m])
    ensures !early && err.Some? ==>
      Continue(c.cfg, Message(op, []), old(c.St()), old(c.input)) == Outcome([], Some(m), err.value)
    ensures early ==>
      c.readErr == Some(EarlyError(c.readRemaining)) && err == (if c.readRemaining > 0 then c.readErr else None)
    ensures early ==> Continue(c.cfg, Message(op, []), old(c.St()), old(c.input)) == Continue(c.cfg, m, c.St(), [])
  {
    hide ReadMessage, Continue, ReadAll, PayloadEnd;
    m := Message(op, []);
    ghost var goal := Continue(c.cfg, m, c.St(), c.input);
    while true
      invariant c.Valid() && c.messageReader == r && c.readErr.None? && m.op == op
      invariant Continue(c.cfg, m, c.St(), c.input) == goal
      invariant SameEnd(c.cfg, old(c.St()), old(c.input), c.St(), c.input)
      decreases |ReadMessage(c.cfg, c.St(), c.input).payload|
    {
      var size: nat :| 0 < size;
      var b := new Byte[size];
      ghost var st, s := c.St(), c.input;
      var n;
      n, err, early := r.Read(b, 0, size);
      ContinueStops(c.cfg, m, st, s);
      NothingEnds(c.cfg, st);
      ReadMessageRest(c.cfg, st, s);
      if n > 0 {
        ContinueChunk(c.cfg, m, st, s, b[0..n], c.St(), c.input);
        m := m.(payload := m.payload + b[0..n]);
      }
      if err == Some(EOF) {
        return m, None, early;
      }
      if err.Some? {
        return;
      }
    }
  }

  /**
   * What a reader makes of a stream whose truth is t when the transport reports the end together with
   * the last payload byte, which leaves the reader in state last: a message cut behind a frame without
   * FIN passes for whole.
   */
  function EarlyOutcome(t: Outcome, last: State): Outcome {
    if last.rem > 0 then t
    else if t.partial.None? then t.(error := EOF)
    else Outcome(t.done + [t.partial.value], None, EOF)
  }

  /** The end of the stream in the middle of message m, or right behind its last frame. */
  lemma {:induction false} EarlyEnding(cfg: Config, m: Message, st: State)
    ensures Continue(cfg, m, st, []) ==
      if st.rem == 0 && st.final then Outcome([m], None, UnexpectedEOF) else Outcome([], Some(m), UnexpectedEOF)
  {
    hide MaskSeq, AfterFixedHeader;
    assert m.payload + [] == m.payload;
    if st.rem == 0 {
      assert st.(rem := 0) == st;
      if st.final {
        NothingMore(cfg, st);
        assert [m] + [] == [m];
      }
    }
  }

  lemma {:induction false} NothingMore(cfg: Config, st: State)
    requires st.rem == 0
    ensures ReadAll(cfg, st, []) == Outcome([], None, UnexpectedEOF)
  {
    hide MaskSeq, AfterFixedHeader;
  }

  /**
   * The reader, message after message, over any stream: whatever chunks the transport delivers and
   * whatever buffers the application offers, the outcome is ReadAll; or, when the transport reports the
   * end early, what EarlyOutcome makes of it in the state the stream ends in. That differs in its
   * messages exactly when the stream ends right behind a frame without FIN.
   */
  method ReadBack(cfg: Config, stream: seq<Byte>, eager: bool) returns (o: Outcome, ghost early: bool)
    ensures !eager ==> o == ReadAll(cfg, START, stream)
    ensures early ==> eager && PayloadEnd(cfg, START, stream).Some?
    ensures var t := ReadAll(cfg, START, stream);
      if early then Early(t, o, PayloadEnd(cfg, START, stream).value) else o == t
    ensures early ==> (o.done != ReadAll(cfg, START, stream).done <==> EndsOpen(cfg, stream))
  {
    hide ReadMessage, Continue, NextData, PayloadEnd;
    ghost var last := START;
    var c := new ReadConn(cfg, eager, stream);
    var done: seq<Message> := [];
    early := false;
    ghost var t := ReadAll(cfg, START, stream);
    assert t.Prepend([]) == t;
    while true
      invariant fresh(c) && c.cfg == cfg && c.eager == eager && c.Valid() && (early ==> eager)
      invariant !early ==> c.readErr.None? && ReadAll(cfg, c.St(), c.input).Prepend(done) == t
      invariant !early ==> c.St().final && c.St().rem == 0 && SameEnd(cfg, START, stream, c.St(), c.input)
      invariant early ==> c.readErr == Some(EOF) && Early(t, Outcome(done, None, EOF), last)
      invariant early ==> PayloadEnd(cfg, START, stream) == Some(last)
      decreases !early, |ReadAll(cfg, c.St(), c.input).done|
    {
      ghost var st, s := c.St(), c.input;
      var op, r, err := c.NextReader();
      if err.Some? {
        o := Outcome(done, None, err.value);
        return;
      }
      NextKeepsEnd(cfg, st, s);
      NothingEnds(cfg, st);
      NothingEnds(cfg, c.St());
      var m;
      m, err, early := ReadOne(c, r, op);
      if early {
        last := c.St();
        EarlyEnding(cfg, m, last);
      }
      if err.Some? {
        o := Outcome(done, Some(m), err.value);
        return;
      }
      ghost var o' := ReadAll(cfg, c.St(), c.input);
      assert done + ([m] + o'.done) == done + [m] + o'.done;
      done := done + [m];
    }
  }

  /** The stream ends right behind a frame without FIN. */
  predicate EndsOpen(cfg: Config, stream: seq<Byte>) {
    var last := PayloadEnd(cfg, START, stream);
    last.Some? && last.value.rem == 0 && !last.value.final
  }

  /** o is what an early end in state last makes of t. */
  ghost predicate Early(t: Outcome, o: Outcome, last: State) {
    o == EarlyOutcome(t, last) && t.error == UnexpectedEOF && (t.partial.None? <==> last.rem == 0 && last.final)
  }

  /**
   * A stream of one frame without FIN, read from its start over a transport that reports the end with
   * the last byte.
   */
  lemma {:induction false} EarlyEndMisleads(cfg: Config)
    requires !cfg.server
    ensures var n := NextReader(cfg, START, [0x01, 0x01, 97]);
      n.Next? && n.rest == [97] && ReadMessage(cfg, n.st, n.rest) == Cut([97], UnexpectedEOF) &&
      EarlyError(Consume(cfg, n.st, 1).rem) == EOF
    ensures var t, last := ReadAll(cfg, START, [0x01, 0x01, 97]), State(false, 0, START.key, 0, 1);
      t == Outcome([], Some(Message(TEXT, [97])), UnexpectedEOF) &&
      EarlyOutcome(t, last) == Outcome([Message(TEXT, [97])], None, EOF)
  {
    hide ReadMessage, ReadAll, Continue, Advance, NextData;
    var st, s := State(false, 1, START.key, 0, 1), [0x01, 0x01, 97];
    OneByteFrame(cfg);
    NextDataStep(cfg, START, s);
    assert s[0..] == s && START.(length := 0) == START;
    NextStep(cfg, START, s);
    OneByteCut(cfg, st);
    assert [] + [Message(TEXT, [97])] == [Message(TEXT, [97])];
  }

  lemma OneByteFrame(cfg: Config)
    requires !cfg.server
    ensures Advance(cfg, START, [0x01, 0x01, 97]) == DataFrame(TEXT, State(false, 1, START.key, 0, 1), [97])
  {
    var s: seq<Byte> := [0x01, 0x01, 97];
    assert s[2..] == [97] && [97][0..] == [97];
  }

  lemma {:induction false} OneByteCut(cfg: Config, st: State)
    requires !cfg.server && st == State(false, 1, START.key, 0, 1)
    ensures ReadMessage(cfg, st, [97]) == Cut([97], UnexpectedEOF)
    ensures Continue(cfg, Message(TEXT, []), st, [97]) == Outcome([], Some(Message(TEXT, [97])), UnexpectedEOF)
  {
    assert [97][..1] == [97];
    assert [97][1..] == [];
    assert ReadMessage(cfg, Consume(cfg, st, 1), []) == Cut([], UnexpectedEOF);
    assert [] + [97] == [97];
  }

  // ----- Any part of what was written -----

  /** What reading part of a connection's wire yields: messages written, then the start of the next one. */
  ghost predicate ReadsPrefix(o: Outcome, done: seq<Message>, flight: Option<Message>) {
    o.done <= done &&
    (o.partial.Some? ==>
      if |o.done| < |done| then Within(o.partial, done[|o.done|]) else flight.Some? && Within(o.partial, flight.value))
  }

  /** A frame cut short completes no message. */
  lemma CutFrameCompletesNothing(cfg: Config, a: Assembly, st: State, r: RawFrame, c: nat)
    requires r.Valid() && Agree(a, st) && LengthSoFar(a) < TWO_63
    requires BitsOk(cfg, r) && Accepts(a, r.ToFrame()) && |r.body| < TWO_63
    requires c < |r.Wire()|
    ensures var o := ReadFrom(cfg, a.open, st, r.Wire()[..c]);
      o.done == [] && (o.partial == a.open || (!IsControl(r.op) && Within(o.partial, Extended(a, r.ToFrame()))))
  {
    hide MaskSeq, Advance, AfterHeader, ReadAll, Continue, CountLength, RawFrame.Header, PartialMessage;
    if IsControl(r.op) || CountLength(cfg, LengthSoFar(a), |r.body|).Some? {
      CutFrame(cfg, a, st, r, c);
      PartialWithin(a, r, c);
    } else {
      var st0 := st.(length := LengthSoFar(a));
      var h, s := |r.Header()|, r.Wire()[..c];
      if c < h {
        assert s == r.Header()[..c];
        AdvanceCutHeader(cfg, a, st0, r, c);
      } else {
        assert s == r.Header() + r.body[..c - h];
        AdvanceHeader(cfg, a, st0, r, r.body[..c - h]);
        Byte0Fields(r);
        OverLimit(cfg, st0, r.Byte0(), |r.body|, if r.masked then r.key else st.key, r.masked, r.body[..c - h]);
      }
      FailedStep(cfg, a, st, s);
    }
  }

  /** A stream whose next step fails. */
  lemma FailedStep(cfg: Config, a: Assembly, st: State, s: seq<Byte>)
    requires Agree(a, st) && Advance(cfg, st.(length := LengthSoFar(a)), s).Failed?
    ensures ReadFrom(cfg, a.open, st, s).done == [] && ReadFrom(cfg, a.open, st, s).partial == a.open
  {
    hide Advance, ReadAll, Continue;
    if a.open.None? {
      NextStep(cfg, st, s);
    } else {
      assert st.(length := LengthSoFar(a)) == st;
      FailsInside(cfg, a.open.value, st, s);
    }
  }

  lemma OverLimit(cfg: Config, st: State, b0: Byte, n: nat, key: Key, masked: bool, s: seq<Byte>)
    requires !IsControl(b0 % 16) && CountLength(cfg, st.length, n).None?
    ensures AfterHeader(cfg, st, b0, n, key, masked, s).Failed?
  {
    hide CountLength;
  }

  /** Nor does a close frame, well-formed or not. */
  lemma CloseCompletesNothing(cfg: Config, a: Assembly, st: State, r: RawFrame)
    requires r.Valid() && Agree(a, st) && LengthSoFar(a) < TWO_63 && r.op == CLOSE
    ensures ReadFrom(cfg, a.open, st, r.Wire()).done == [] && ReadFrom(cfg, a.open, st, r.Wire()).partial == a.open
  {
    hide MaskSeq, Advance, ReadAll, Continue, RawFrame.Wire, Welcome;
    AdvanceAccepts(cfg, a, st.(length := LengthSoFar(a)), r, []);
    assert r.Wire() + [] == r.Wire();
    FailedStep(cfg, a, st, r.Wire());
  }

  /** A stream cut inside the log. */
  lemma CutLog(cfg: Config, log: seq<Frame>, keys: seq<Key>, asm: Assembly, k: nat)
    requires |keys| == |log| && (forall f :: f in log ==> Writable(f)) && Legal(EMPTY, log) && asm == Fold(EMPTY, log)
    requires !asm.closed && AllSmall(cfg, asm) && cfg.Patient()
    requires k < |WireAll(RawAll(!cfg.server, log, keys))|
    ensures ReadsPrefix(ReadAll(cfg, START, WireAll(RawAll(!cfg.server, log, keys))[..k]), asm.done, asm.open)
  {
    hide MaskSeq, RawAll, WireAll, ReadAll, RawFrame.Wire, Raw, PartialMessage, Within;
    var j, c := Truncation(cfg, log, keys, k);
    FoldSplit(EMPTY, log, j);
    var z, f, rest := Fold(EMPTY, log[..j]), log[j], log[j + 1..];
    assert log[j..][0] == f && log[j..][1..] == rest;
    PartialWithin(z, RawAll(!cfg.server, log, keys)[j], c);
    if z.open.Some? {
      OpenGrows(z, log[j..]);
    }
    if !IsControl(f.op) {
      ExtendedGrows(z, f, rest);
    }
    var extended := if IsControl(f.op) then Message(0, []) else Extended(z, f);
    WithinTwice(PartialMessage(z, RawAll(!cfg.server, log, keys)[j], c), z.open, extended, MessageAt(asm, |z.done|));
  }

  lemma WithinTwice(p: Option<Message>, open: Option<Message>, e: Message, m: Option<Message>)
    requires p == open || Within(p, e)
    requires open.Some? ==> m.Some? && Within(open, m.value)
    requires p != open ==> m.Some? && Within(Some(e), m.value)
    ensures p.Some? ==> m.Some? && Within(p, m.value)
  {
  }

  /** Whole frames, then n bytes of one more: all of it only if it is a close frame. */
  lemma {:induction false} FramesAndPart(
      cfg: Config, log: seq<Frame>, keys: seq<Key>, asm: Assembly, r: RawFrame, n: nat, wire: seq<Byte>, k: nat)
    requires |keys| == |log| && (forall f :: f in log ==> Writable(f)) && Legal(EMPTY, log) && asm == Fold(EMPTY, log)
    requires !asm.closed && AllSmall(cfg, asm) && cfg.Patient()
    requires r.Valid() && r == Raw(!cfg.server, r.ToFrame(), r.key) && Writable(r.ToFrame())
    requires Accepts(asm, r.ToFrame())
    requires n < |r.Wire()| || (n == |r.Wire()| && r.op == CLOSE)
    requires wire == WireAll(RawAll(!cfg.server, log, keys)) + r.Wire()[..n] && k <= |wire|
    ensures ReadsPrefix(ReadAll(cfg, START, wire[..k]), asm.done, FlightOf(asm, Some(r)))
    ensures k == |wire| ==> ReadAll(cfg, START, wire[..k]).done == asm.done
  {
    hide MaskSeq, RawAll, WireAll, Welcome, ReadAll, RawFrame.Wire, Raw, Fold, Legal;
    var rs := RawAll(!cfg.server, log, keys);
    var whole := WireAll(rs);
    if k < |whole| {
      assert wire[..k] == whole[..k];
      CutLog(cfg, log, keys, asm, k);
    } else {
      var tail := r.Wire()[..k - |whole|];
      assert wire[..k] == whole + tail;
      SmallFramesWelcome(cfg, EMPTY, log, keys, |tail|);
      var st' := ReadsFrames(cfg, EMPTY, START, rs, tail);
      TornBits(cfg, r);
      if k - |whole| == |r.Wire()| {
        assert tail == r.Wire();
        CloseCompletesNothing(cfg, asm, st', r);
      } else {
        CutFrameCompletesNothing(cfg, asm, st', r, k - |whole|);
      }
      assert asm.done[0..] + [] == asm.done;
    }
  }

  lemma TornBits(cfg: Config, r: RawFrame)
    requires r == Raw(!cfg.server, r.ToFrame(), r.key) && (IsControl(r.op) ==> |r.ToFrame().payload| <= MAX_CONTROL)
    ensures BitsOk(cfg, r) && |r.body| == |r.ToFrame().payload|
  {
    hide MaskSeq;
  }

  /** A log that ends the connection is an open log and a close frame. */
  lemma {:induction false} ClosedLog(a: Assembly, log: seq<Frame>)
    requires Legal(a, log) && Fold(a, log).closed && !a.closed
    ensures log != []
    ensures var log0, f := log[..|log| - 1], log[|log| - 1];
      f.op == CLOSE && Legal(a, log0) && Accepts(Fold(a, log0), f) &&
      Fold(a, log) == Fold(a, log0).(closed := true) && !Fold(a, log0).closed
    decreases log
  {
    var log0, f := log[..|log| - 1], log[|log| - 1];
    FoldSplit(a, log, |log0|);
    FoldAppend(a, log0, f);
    assert log == log0 + [f];
  }

  /**
   * Any prefix of what a connection has put on the wire, torn last frame included, is read as a prefix
   * of the messages written and the start of the next; the whole of it as exactly those messages.
   */
  lemma {:induction false} WireReadsBack(
      cfg: Config, wire: seq<Byte>, log: seq<Frame>, keys: seq<Key>, asm: Assembly, torn: Option<RawFrame>, n: nat,
      k: nat)
    requires WireIs(!cfg.server, wire, log, keys, asm, torn, n) && (torn.Some? ==> !asm.closed)
    requires AllSmall(cfg, asm) && cfg.Patient() && k <= |wire|
    ensures ReadsPrefix(ReadAll(cfg, START, wire[..k]), asm.done, FlightOf(asm, torn))
    ensures k == |wire| ==> ReadAll(cfg, START, wire[..k]).done == asm.done
  {
    hide MaskSeq, RawAll, WireAll, ReadAll, RawFrame.Wire, Raw, Fold, Legal, Accepts, AllSmall;
    if torn.Some? {
      FramesAndPart(cfg, log, keys, asm, torn.value, n, wire, k);
    } else if asm.closed {
      ClosedWire(cfg, wire, log, keys, k);
    } else if k < |wire| {
      CutLog(cfg, log, keys, asm, k);
    } else {
      assert wire[..k] == wire;
      RoundTrip(cfg, log, keys);
    }
  }

  lemma {:induction false} ClosedWire(cfg: Config, wire: seq<Byte>, log: seq<Frame>, keys: seq<Key>, k: nat)
    requires |keys| == |log| && (forall f :: f in log ==> Writable(f)) && Legal(EMPTY, log) && Fold(EMPTY, log).closed
    requires wire == WireAll(RawAll(!cfg.server, log, keys))
    requires AllSmall(cfg, Fold(EMPTY, log)) && cfg.Patient() && k <= |wire|
    ensures ReadsPrefix(ReadAll(cfg, START, wire[..k]), Fold(EMPTY, log).done, Fold(EMPTY, log).open)
    ensures k == |wire| ==> ReadAll(cfg, START, wire[..k]).done == Fold(EMPTY, log).done
  {
    hide MaskSeq, RawAll, WireAll, ReadAll, RawFrame.Wire, Raw, Fold, Legal, Accepts;
    ClosedLog(EMPTY, log);
    var log0, f, keys0, key := log[..|log| - 1], log[|log| - 1], keys[..|log| - 1], keys[|log| - 1];
    var r := Raw(!cfg.server, f, key);
    RawAgain(!cfg.server, f, key);
    assert forall g :: g in log0 ==> g in log;
    WireAllAppend(RawAll(!cfg.server, log0, keys0), r);
    assert RawAll(!cfg.server, log, keys) == RawAll(!cfg.server, log0, keys0) + [r];
    assert r.Wire()[..|r.Wire()|] == r.Wire();
    FramesAndPart(cfg, log0, keys0, Fold(EMPTY, log0), r, |r.Wire()|, wire, k);
  }

  lemma RawAgain(server: bool, f: Frame, key: Key)
    ensures Raw(server, f, key).key == key && Raw(server, f, key).op == f.op
  {
    hide MaskSeq;
  }

  // ----- Writing messages in any way the interface allows -----

  /** Write p through a message writer, cut anywhere into Write, WriteString and ReadFrom calls. */
  method WritePieces(w: MessageWriter, p: seq<Byte>) returns (err: Option<WriteError>)
    requires w.Open() && w.c.writer == w && |p| < MAX_SLICE
    modifies w, w.c, w.c.writeBuf, w.c.writePool
    ensures w.c.Valid() && w.c.issued == old(w.c.issued) && w.c.asm.done == old(w.c.asm.done) && w.c.OwnBuffersOnly()
    ensures err.None? ==>
      w.Open() && w.c.writer == w && w.c.writeBuf == old(w.c.writeBuf) && w.content == old(w.content) + p
    ensures err.Some? ==> w.Ended(err) && w.content <= old(w.content) + p
  {
    hide WriteConn.WireOk, WriteConn.Owned, MessageWriter.Buffered;
    err := None;
    var rest := p;
    LiveIsIssued(w);
    while rest != []
      invariant w.Open() && w.c.writer == w && w.c.writeBuf == old(w.c.writeBuf) && w in w.c.issued
      invariant w.c.issued == old(w.c.issued) && w.c.asm.done == old(w.c.asm.done) && w.c.OwnBuffersOnly()
      invariant err.None? && |rest| <= |p| && w.content + rest == old(w.content) + p
    {
      var k: nat :| 0 < k <= |rest|;
      var chunk := rest[..k];
      ghost var before := w.content;
      assert before + chunk + rest[k..] == old(w.content) + p;
      var way: nat := *;
      if way == 0 {
        var _, e := w.Write(chunk);
        err := e;
      } else if way == 1 {
        var _, e := w.WriteString(chunk);
        err := e;
      } else {
        var bytes := new ByteSource(chunk, true);
        var _, e, _ := w.ReadFrom(FromBytes(bytes));
        err := e;
      }
      if err.Some? {
        return;
      }
      rest := rest[k..];
    }
  }

  lemma LiveIsIssued(w: MessageWriter)
    requires w.Open()
    ensures w in w.c.issued
  {
  }

  /** One message, by WriteMessage or through a message writer. */
  method WriteOne(c: WriteConn, m: Message) returns (err: Option<WriteError>)
    requires c.Ready() && c.live == null && c.InFlight().None? && IsData(m.op) && |m.payload| < MAX_SLICE
    modifies c, c.writeBuf, c.writePool, c.PoolBuffers()
    ensures c.Ready() && c.live == null && c.OwnBuffersOnly()
    ensures err.None? ==> c.asm.done == old(c.asm.done) + [m] && c.InFlight().None?
    ensures err.Some? ==> c.asm.done == old(c.asm.done) && c.writeErr.Some?
    ensures err.Some? ==> Within(c.InFlight(), m)
  {
    hide WriteConn.WireOk, WriteConn.Owned, MessageWriter.Buffered;
    var whole: bool := *;
    if whole {
      ghost var flushed;
      err, flushed := c.WriteMessage(m.op, m.payload);
      assert old(c.asm.done) + [] + [m] == old(c.asm.done) + [m];
      return;
    }
    var w;
    ghost var flushed;
    w, err, flushed := c.NextWriter(m.op);
    if err.Some? {
      return;
    }
    err := WritePieces(w, m.payload);
    assert [] + m.payload == m.payload;
    if err.None? {
      err := w.Close();
    }
  }

  /** A message an endpoint may send to a peer with the given limit. */
  predicate Sendable(cfg: Config, m: Message) {
    IsData(m.op) && |m.payload| < MAX_SLICE && Small(cfg, m)
  }

  /** Write msgs, one after another, until one of them fails. */
  method SendAll(c: WriteConn, msgs: seq<Message>) returns (sent: nat, failed: bool)
    requires c.Ready() && c.live == null && c.InFlight().None? && c.asm.done == []
    requires forall m :: m in msgs ==> IsData(m.op) && |m.payload| < MAX_SLICE
    modifies c, c.writeBuf, c.writePool, c.PoolBuffers()
    ensures c.Ready() && c.live == null && sent <= |msgs| && c.asm.done == msgs[..sent] && (!failed ==> sent == |msgs|)
    ensures if failed then c.writeErr.Some? && sent < |msgs| && Within(c.InFlight(), msgs[sent]) else c.InFlight().None?
  {
    hide WriteConn.Owned, WriteConn.WireOk, MessageWriter.Buffered;
    sent, failed := 0, false;
    while sent < |msgs| && !failed
      invariant c.Ready() && c.live == null && c.OwnBuffersOnly() && sent <= |msgs| && c.asm.done == msgs[..sent]
      invariant
        if failed then c.writeErr.Some? && sent < |msgs| && Within(c.InFlight(), msgs[sent])
        else c.InFlight().None?
      decreases |msgs| - sent, !failed
    {
      var m := msgs[sent];
      assert m in msgs;
      var err := WriteOne(c, m);
      if err.None? {
        sent := sent + 1;
      } else {
        failed := true;
      }
    }
  }

  /** Any prefix of the wire, as SendAll leaves it, in terms of the messages sent. */
  lemma {:induction false} SentReadsBack(cfg: Config, c: WriteConn, msgs: seq<Message>, sent: nat, k: nat)
    requires c.WireOk() && cfg.server == !c.isServer && cfg.Patient() && k <= |c.wire|
    requires (forall m :: m in msgs ==> Sendable(cfg, m)) && sent <= |msgs| && c.asm.done == msgs[..sent]
    requires c.InFlight().Some? ==> sent < |msgs| && Within(c.InFlight(), msgs[sent])
    ensures var t := ReadAll(cfg, START, c.wire[..k]);
      t.done <= msgs[..sent] && (k == |c.wire| ==> t.done == msgs[..sent]) &&
      (t.partial.Some? ==> |t.done| < |msgs| && Within(t.partial, msgs[|t.done|]))
  {
    hide WireIs, ReadAll;
    OpenInFlight(c.asm, c.torn);
    SentIsSmall(cfg, msgs, sent, c.asm);
    WireReadsBack(cfg, c.wire, c.log, c.keys, c.asm, c.torn, c.tornBytes, k);
  }

  /**
   * A connection from end to end. The application writes msgs in any pieces, other goroutines write
   * control frames in between, and the transport may fail at any byte. Of what it took, the first cut
   * bytes arrive, and the peer reads them with any buffers. sent counts the messages whose writing
   * succeeded. misled: an eager transport has made a cut message pass for whole, the last of those got.
   */
  method Converse(c: WriteConn, msgs: seq<Message>, cfg: Config, cut: nat, eager: bool)
    returns (sent: nat, got: seq<Message>, partial: Option<Message>, ghost misled: bool)
    requires c.Ready() && c.live == null && c.InFlight().None? && c.asm.done == []
    requires cfg.server == !c.isServer && cfg.Patient()
    requires forall m :: m in msgs ==>
      (m.op == 1 || m.op == 2) && |m.payload| < MAX_SLICE && (cfg.limit == 0 || |m.payload| <= cfg.limit)
    modifies c, c.writeBuf, c.writePool, c.PoolBuffers()
    ensures c.Ready() && sent <= |msgs| && c.asm.done == msgs[..sent]
    // What gets through, whatever fails.
    ensures misled ==> eager && got != [] && EndsOpen(cfg, c.wire[..Min(cut, |c.wire|)])
    ensures
      var whole, rest := if misled then got[..|got| - 1] else got, if misled then Some(got[|got| - 1]) else partial;
      whole <= msgs[..sent] && (cut >= |c.wire| ==> whole == msgs[..sent]) &&
      (rest.Some? ==> |whole| < |msgs| && Within(rest, msgs[|whole|]))
    // Nothing fails.
    ensures c.writeErr.None? ==> sent == |msgs|
    ensures c.writeErr.None? && cut >= |c.wire| ==> got == msgs && partial.None?
  {
    hide WriteConn.Owned, MessageWriter.Buffered, WireIs, ReadAll, PayloadEnd;
    var failed;
    sent, failed := SendAll(c, msgs);
    var k := Min(cut, |c.wire|);
    SentReadsBack(cfg, c, msgs, sent, k);
    var o;
    ghost var early;
    o, early := ReadBack(cfg, c.wire[..k], eager);
    got, partial := o.done, o.partial;
    misled := early && EndsOpen(cfg, c.wire[..k]);
  }

  lemma OpenInFlight(a: Assembly, torn: Option<RawFrame>)
    ensures a.open.Some? ==> FlightOf(a, torn).Some? && Within(a.open, FlightOf(a, torn).value)
  {
  }

  lemma SentIsSmall(cfg: Config, msgs: seq<Message>, sent: nat, a: Assembly)
    requires sent <= |msgs| && (forall m :: m in msgs ==> Sendable(cfg, m)) && a.done == msgs[..sent]
    requires a.open.Some? ==> sent < |msgs| && a.open.value.payload <= msgs[sent].payload
    ensures AllSmall(cfg, a)
  {
    forall m | m in a.done
      ensures Small(cfg, m)
    {
      assert m in msgs;
      assert Sendable(cfg, m);
    }
    if a.open.Some? {
      assert Sendable(cfg, msgs[sent]);
    }
  }
}
