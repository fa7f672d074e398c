/** The relays of internal/network/bridging.go and the stream view of internal/httpmux/websocket.go. */
module Relay {
  import opened Bytes
  import opened Frames
  import opened Reading
  import opened Streams
  import opened ReadConns
  import opened Sources
  import opened Sinks
  import opened WriteConns
  import opened Exchange

  // ----- forwardingWebsocket -----

  /** Messages, and a last one there may be. */
  function Both(ms: seq<Message>, last: Option<Message>): seq<Message> {
    ms + if last.Some? then [last.value] else []
  }

  lemma BothMore(done: seq<Message>, ms: seq<Message>, last: Option<Message>)
    ensures Both(done, None) == done == done + Both([], None)
    ensures Both(done + Both(ms, None), last) == done + Both(ms, last) == done + Both(Both(ms, last), None)
    ensures done + ms + (if last.Some? then [last.value] else []) == done + Both(ms, last)
  {
  }

  /** What has been passed on of input when the loop ends: all of it, if nothing failed on the writing side. */
  predicate Passed(input: Outcome, forwarded: seq<Message>, cut: Option<Message>, all: bool) {
    forwarded <= input.done && (cut.Some? ==> cut == input.partial && forwarded == input.done) &&
    (all ==> forwarded == input.done && cut == input.partial)
  }

  /** The loop goes on, with rest still to come of input. */
  predicate Forwarding(input: Outcome, rest: Outcome, forwarded: seq<Message>) {
    input == rest.Prepend(forwarded)
  }

  lemma NoneForwarded(input: Outcome)
    ensures Forwarding(input, input, [])
  {
  }

  lemma PassedIs(input: Outcome, forwarded: seq<Message>, cut: Option<Message>)
    ensures forall all :: Passed(input, forwarded, cut, all) ==>
      forwarded <= input.done && (cut.Some? ==> cut == input.partial && forwarded == input.done) &&
      (all ==> forwarded == input.done && cut == input.partial)
    ensures Passed(input, forwarded, cut, true) ==> Passed(input, forwarded, cut, false)
  {
  }

  /** All there is to o is message m, whole or cut short. */
  predicate Only(o: Outcome, m: Message) {
    (o.done == [m] && o.partial.None?) || (o.done == [] && o.partial == Some(m))
  }

  /** What one round may pass on of rest, which leaves after if more is to be read. */
  predicate Round(rest: Outcome, after: Outcome, ok: bool, more: bool, m: Option<Message>, all: bool) {
    if !ok then m.Some? || all ==> rest.done == [] && m == rest.partial
    else m.Some? && if more then rest == after.Prepend([m.value]) else Only(rest, m.value)
  }

  lemma ForwardedMore(
      input: Outcome, rest: Outcome, after: Outcome, forwarded: seq<Message>, ok: bool, more: bool, m: Option<Message>,
      all: bool)
    requires Forwarding(input, rest, forwarded) && Round(rest, after, ok, more, m, all)
    ensures var whole := ok && (more || rest.partial.None?);
      var f, cut := if whole then Both(forwarded, m) else forwarded, if whole then None else m;
      if ok && more then Forwarding(input, after, f) && |after.done| < |rest.done| else Passed(input, f, cut, all || ok)
  {
    if ok && more {
      Assoc(forwarded, [m.value], after.done);
    }
  }

  /**
   * forwardingWebsocket: copy messages from r to w until one of them fails. forwarded holds the whole
   * messages passed on; cut is the message an error of r has cut short, if it was passed on as well.
   */
  method ForwardWebsocket(w: WriteConn, r: ReadConn) returns (ghost forwarded: seq<Message>, ghost cut: Option<Message>)
    requires w.Ready() && w.live == null && w.asm.open.None?
    requires r.Valid() && r.readErr.None?
    modifies w, w.writeBuf, w.writePool, w.PoolBuffers(), r
    ensures w.Ready() && w.live == null && r.Valid()
    ensures var input := ReadAll(r.cfg, old(r.St()), old(r.input));
      forwarded <= input.done && (cut.Some? ==> cut == input.partial && forwarded == input.done) &&
      w.asm.done == old(w.asm.done) + forwarded + (if cut.Some? then [cut.value] else []) &&
      (w.writeErr.None? ==> forwarded == input.done && cut == input.partial)
  {
    hide WriteConn.Valid, ReadAll, Passed, Forwarding, Round, Both;
    forwarded, cut := [], None;
    ghost var input, done0 := ReadAll(r.cfg, r.St(), r.input), w.asm.done;
    NoneForwarded(input);
    BothMore(done0, [], None);
    var ok := true;
    while ok
      invariant w.Ready() && w.live == null && w.OwnBuffersOnly()
      invariant r.Valid() && (w.writeErr.None? ==> w.asm.open.None?)
      invariant w.asm.done == done0 + Both(forwarded, cut)
      invariant ok && r.readErr.None? ==> cut.None? && Forwarding(input, ReadAll(r.cfg, r.St(), r.input), forwarded)
      invariant !ok || r.readErr.Some? ==> Passed(input, forwarded, cut, w.writeErr.None? || ok)
      decreases ok, r.readErr.None?, |ReadAll(r.cfg, r.St(), r.input).done|
    {
      ghost var rest, reading := ReadAll(r.cfg, r.St(), r.input), r.readErr.None?;
      ghost var m;
      ok, m := ForwardNext(w, r);
      BothMore(done0, forwarded, m);
      BothMore(done0 + Both(forwarded, cut), [], None);
      if reading {
        ghost var after := ReadAll(r.cfg, r.St(), r.input);
        ForwardedMore(input, rest, after, forwarded, ok, r.readErr.None?, m, w.writeErr.None?);
        ghost var whole := ok && (r.readErr.None? || rest.partial.None?);
        forwarded, cut := if whole then Both(forwarded, m) else forwarded, if whole then None else m;
      } else {
        PassedIs(input, forwarded, cut);
      }
    }
    BothMore(done0, forwarded, cut);
    PassedIs(input, forwarded, cut);
  }

  /** One round of forwardingWebsocket's loop; !ok leaves the loop. */
  method ForwardNext(w: WriteConn, r: ReadConn) returns (ok: bool, ghost m: Option<Message>)
    requires w.Ready() && w.live == null && (w.writeErr.None? ==> w.asm.open.None?)
    requires r.Valid()
    modifies w, w.writeBuf, w.writePool, w.PoolBuffers(), r
    ensures w.Ready() && w.live == null && w.OwnBuffersOnly() && r.Valid()
    ensures w.writeErr.None? ==> w.asm.open.None?
    ensures w.asm.done == Both(old(w.asm.done), m)
    ensures old(r.readErr).Some? ==> !ok && m.None?
    ensures old(r.readErr).None? ==>
      var input := ReadAll(r.cfg, old(r.St()), old(r.input));
      Round(input, ReadAll(r.cfg, r.St(), r.input), ok, r.readErr.None?, m, w.writeErr.None?)
  {
    hide WriteConn.Valid, ReadMessage, Continue, ReadAll, Round, EarlyEnd, NextReader;
    ok, m := false, None;
    BothMore(w.asm.done, [], None);
    if r.readErr.Some? {
      var _, _, _ := r.NextReader();
      return;
    }
    ghost var input := ReadAll(r.cfg, r.St(), r.input);
    NextIsRead(r.cfg, r.St(), r.input);
    var t, src, re := r.NextReader();
    if re.Some? {
      NothingForwarded(input, ReadAll(r.cfg, r.St(), r.input));
      return;
    }
    ghost var st, s := r.St(), r.input;
    var closed;
    ok, closed := ForwardMessage(w, src, t);
    ForwardedRound(r.cfg, t, st, s, r.St(), r.input, ok, closed, r.readErr.None?, w.writeErr.None?);
    if ok || closed {
      m := Some(Message(t, ReadMessage(r.cfg, st, s).payload));
    }
  }

  lemma NothingForwarded(input: Outcome, after: Outcome)
    requires input.done == [] && input.partial.None?
    ensures forall more, all :: Round(input, after, false, more, None, all)
  {
  }

  /** What ForwardMessage did with the message in state st of stream s is a round of the loop. */
  lemma {:induction false} ForwardedRound(
      cfg: Config, t: nat, st: State, s: seq<Byte>, st': State, s': seq<Byte>, ok: bool, closed: bool, more: bool,
      all: bool)
    requires var m := ReadMessage(cfg, st, s);
      if ok then if more then m == Whole(m.payload, st', s') else EarlyEnd(m, m.payload, st')
      else if closed then m.Cut? else !all
    ensures var m := if ok || closed then Some(Message(t, ReadMessage(cfg, st, s).payload)) else None;
      Round(Continue(cfg, Message(t, []), st, s), ReadAll(cfg, st', s'), ok, more, m, all)
  {
    hide ReadMessage, Continue, ReadAll;
    ContinueIs(cfg, t, st, s);
    if ok && !more {
      NothingMore(cfg, st');
    }
  }

  lemma AfterCopy(r: ReadConn, m: MessageEnd, e: ReadError)
    requires r.Valid() && MessageAfter(r, m.payload, Some(e), m)
    ensures e.EndOfFile? ==>
      if r.readErr.None? then m == Whole(m.payload, r.St(), r.input) else EarlyEnd(m, m.payload, r.St())
    ensures e.Broken? ==> m.Cut?
  {
    hide ReadMessage;
  }

  /** io.Copy(dst, src), for the writer of a new message. */
  method CopyMessage(dst: MessageWriter, src: MessageReader) returns (ce: Option<WriteError>, er: Option<ReadError>)
    requires dst.c.Valid() && dst in dst.c.issued && dst.err.None? && dst.content == [] && FromMessage(src).Ready()
    modifies dst, dst.c, dst.c.writeBuf, dst.c.writePool, src.c
    ensures dst.c.Valid() && src.c.Valid() && dst.c.issued == old(dst.c.issued) && dst.c.asm.done == old(dst.c.asm.done)
    ensures dst.c.OwnBuffersOnly()
    ensures ce.Some? ==> dst.Ended(ce)
    ensures var m := ReadMessage(src.c.cfg, old(src.c.St()), old(src.c.input));
      ce.None? ==>
        dst.Copied(m.payload) && dst.c.writer == old(dst.c.writer) &&
        if er.Some? then m.Cut?
        else if src.c.readErr.None? then m == Whole(m.payload, src.c.St(), src.c.input)
        else EarlyEnd(m, m.payload, src.c.St())
  {
    hide WriteConn.Valid, ReadMessage, EarlyEnd;
    ghost var m := ReadMessage(src.c.cfg, src.c.St(), src.c.input);
    assert [] + m.payload == m.payload;
    var nn;
    nn, ce, er := dst.ReadFrom(FromMessage(src));
  }

  /**
   * The body of forwardingWebsocket's loop once NextReader has returned src. ok: the message is passed
   * on, whole for all its reader told. closed: the reader broke off, and what it had delivered is passed
   * on as a message.
   */
  method ForwardMessage(w: WriteConn, src: MessageReader, t: nat) returns (ok: bool, closed: bool)
    requires w.Ready() && w.live == null && (w.writeErr.None? ==> w.asm.open.None?) && IsData(t)
    requires FromMessage(src).Ready()
    modifies w, w.writeBuf, w.writePool, w.PoolBuffers(), src.c
    ensures w.Ready() && w.live == null && w.OwnBuffersOnly() && src.c.Valid()
    ensures w.writeErr.None? ==> w.asm.open.None?
    ensures var m := ReadMessage(src.c.cfg, old(src.c.St()), old(src.c.input));
      if ok then
        (if src.c.readErr.None? then m == Whole(m.payload, src.c.St(), src.c.input)
         else EarlyEnd(m, m.payload, src.c.St())) &&
        w.asm.done == old(w.asm.done) + [Message(t, m.payload)]
      else if closed then m.Cut? && w.asm.done == old(w.asm.done) + [Message(t, m.payload)]
      else w.writeErr.Some? && w.asm.done == old(w.asm.done)
  {
    hide WriteConn.WireOk, WriteConn.Owned, MessageWriter.Buffered, ReadMessage, EarlyEnd, FlightOf;
    ghost var m := ReadMessage(src.c.cfg, src.c.St(), src.c.input);
    ok, closed := false, false;
    var dst, we;
    ghost var flushed;
    dst, we, flushed := w.NextWriter(t);
    assert w.asm.done == old(w.asm.done) + [] == old(w.asm.done);
    if we.Some? {
      return;
    }
    var ce, er := CopyMessage(dst, src);
    if ce.Some? {
      var _ := dst.Close();
      return;
    }
    var e := dst.Close();
    if er.Some? {
      closed := e.None?;
    } else {
      ok := e.None?;
    }
  }

  lemma {:induction false} ContinueIs(cfg: Config, op: nat, st: State, s: seq<Byte>)
    ensures match ReadMessage(cfg, st, s)
      case Whole(p, st', rest) =>
        Continue(cfg, Message(op, []), st, s) == ReadAll(cfg, st', rest).Prepend([Message(op, p)])
      case Cut(p, e) => Continue(cfg, Message(op, []), st, s) == Outcome([], Some(Message(op, p)), e)
  {
    hide ReadMessage, ReadAll;
    assert [] + ReadMessage(cfg, st, s).payload == ReadMessage(cfg, st, s).payload;
  }

  lemma {:induction false} NextIsRead(cfg: Config, st: State, s: seq<Byte>)
    ensures match NextReader(cfg, st, s)
      case NoNext(e) => ReadAll(cfg, st, s) == Outcome([], None, e)
      case Next(op, st', rest) => IsData(op) && ReadAll(cfg, st, s) == Continue(cfg, Message(op, []), st', rest)
  {
    hide Continue;
  }

  // ----- Streams over messages -----

  datatype CopyError = SinkFailed | InvalidWrite | ShortWrite | SourceBroken

  /** What copyBuffer does with one chunk. */
  method WriteChunk(dst: ByteSink, p: seq<Byte>) returns (n: nat, err: Option<CopyError>)
    modifies dst
    ensures n <= |p| && dst.out == old(dst.out) + p[..n]
    ensures err.None? ==> n == |p| && dst.failed == old(dst.failed)
    ensures err.Some? ==> dst.failed && err != Some(SourceBroken)
  {
    n, err := 0, None;
    if |p| > 0 {
      var nw, ew := dst.Write(p);
      if ew {
        err := Some(SinkFailed);
      }
      if nw < 0 || |p| < nw {
        nw := 0;
        if err.None? {
          err := Some(InvalidWrite);
        }
      }
      n := nw;
      if err.None? && |p| != nw {
        err := Some(ShortWrite);
      }
    }
  }

  /** copyBuffer. */
  method CopyBuffer(dst: ByteSink, src: Source, buf: array<Byte>) returns (written: nat, err: Option<CopyError>)
    requires src.Ready() && buf.Length > 0 && {dst as object, buf} !! src.Frame()
    modifies dst, buf, src.Frame()
    ensures written <= |old(src.Ahead())| && dst.out == old(dst.out) + old(src.Ahead())[..written]
    ensures !dst.failed ==> written == |old(src.Ahead())| && (err.None? || err == Some(SourceBroken))
    ensures err.None? ==> written == |old(src.Ahead())| && (src.Honest() ==> old(src.Clean()))
    ensures err == Some(SourceBroken) ==> written == |old(src.Ahead())| && !old(src.Clean())
    ensures dst.failed && !old(dst.failed) ==> err.Some?
    ensures src.FromMessage? ==> src.message.c.Valid()
    ensures src.FromMessage? && (err.None? || err == Some(SourceBroken)) ==>
      MessageAfter(src.message.c, old(src.Ahead()), Some(if err.None? then EndOfFile else Broken), old(src.Before()))
  {
    hide ReadMessage, MessageEnd.Prepend, Source.Ahead, Source.Clean, Source.Before, Source.Ready, MessageAfter;
    written, err := 0, None;
    ghost var ahead0, before0, out0 := src.Ahead(), src.Before(), dst.out;
    ghost var data: seq<Byte> := [];
    PrependNothing(before0);
    while true
      invariant src.Ready() && err.None? && src.Clean() == old(src.Clean())
      invariant written == |data| && Progress(out0, dst.out, data, ahead0, src.Ahead())
      invariant src.FromMessage? ==> src.Before().Prepend(data) == before0
      invariant dst.failed == old(dst.failed)
      decreases |src.Ahead()|
    {
      var nw, er;
      ghost var chunk;
      nw, er, err, chunk := CopyOnce(dst, src, buf, data, before0, out0, ahead0);
      written := written + nw;
      data := data + chunk;
      if err.Some? {
        return;
      }
      match er
      case None =>
      case Some(EndOfFile) =>
        return;
      case Some(Broken) =>
        err := Some(SourceBroken);
        return;
    }
  }

  /** One round of copyBuffer, in terms of everything copied before. */
  method CopyOnce(dst: ByteSink, src: Source, buf: array<Byte>,
                  ghost data: seq<Byte>, ghost before: MessageEnd, ghost out0: seq<Byte>, ghost ahead0: seq<Byte>)
    returns (nw: nat, er: Option<ReadError>, err: Option<CopyError>, ghost chunk: seq<Byte>)
    requires src.Ready() && buf.Length > 0 && {dst as object, buf} !! src.Frame()
    requires Progress(out0, dst.out, data, ahead0, src.Ahead())
    requires src.FromMessage? ==> src.Before().Prepend(data) == before
    modifies dst, buf, src.Frame()
    ensures nw <= |chunk| && data + chunk <= ahead0 && dst.out == out0 + ahead0[..|data| + nw]
    ensures err.None? ==> nw == |chunk| && dst.failed == old(dst.failed)
    ensures err.Some? ==> dst.failed && err != Some(SourceBroken)
    ensures er.None? ==>
      |chunk| > 0 && src.Ready() && src.Clean() == old(src.Clean()) && src.Ahead() == ahead0[|data + chunk|..]
    ensures er.None? && err.None? ==> Progress(out0, dst.out, data + chunk, ahead0, src.Ahead())
    ensures er.None? && src.FromMessage? ==> src.Before().Prepend(data + chunk) == before
    ensures er.Some? ==> data + chunk == ahead0 && (old(src.Clean()) ==> er == Some(EndOfFile))
    ensures er == Some(EndOfFile) && src.Honest() ==> old(src.Clean())
    ensures src.FromMessage? ==> src.message.c.Valid()
    ensures er.Some? && src.FromMessage? ==> MessageAfter(src.message.c, ahead0, er, before)
  {
    hide ReadMessage, MessageEnd.Prepend, Source.Ahead, Source.Clean, Source.Before, Source.Ready, MessageAfter;
    ghost var mid, ahead := src.Before(), src.Ahead();
    var nr;
    nr, er := src.Read(buf, 0, buf.Length);
    chunk := buf[0..nr];
    nw, err := WriteChunk(dst, buf[0..nr]);
    CopiedSoFar(out0, dst.out, data, ahead0, ahead, chunk, nw);
    if src.FromMessage? {
      MessageAfterMore(src.message.c, data, chunk, er, mid, before);
      if er.None? {
        StillReady(src, data + chunk, before);
      }
    }
  }

  lemma CopiedSoFar(
      out0: seq<Byte>, out: seq<Byte>, data: seq<Byte>, ahead0: seq<Byte>, ahead: seq<Byte>, chunk: seq<Byte>, nw: nat)
    requires ahead0 == data + ahead && chunk <= ahead && nw <= |chunk|
    requires out == out0 + data + chunk[..nw]
    ensures data + chunk <= ahead0 && out == out0 + ahead0[..|data| + nw]
    ensures ahead[|chunk|..] == ahead0[|data + chunk|..]
    ensures chunk == ahead ==> data + chunk == ahead0
    ensures nw == |chunk| ==> Progress(out0, out, data + chunk, ahead0, ahead[|chunk|..])
  {
    assert ahead0[..|data| + nw] == data + chunk[..nw];
  }

  /** The payloads of messages, one after another. */
  function Flat(ms: seq<Message>): seq<Byte> {
    if ms == [] then [] else ms[0].payload + Flat(ms[1..])
  }

  lemma {:induction false} FlatAppend(ms: seq<Message>, ns: seq<Message>)
    ensures Flat(ms + ns) == Flat(ms) + Flat(ns)
  {
    if ms == [] {
      assert ms + ns == ns;
    } else {
      FlatAppend(ms[1..], ns);
      assert (ms + ns)[0] == ms[0] && (ms + ns)[1..] == ms[1..] + ns;
      Assoc(ms[0].payload, Flat(ms[1..]), Flat(ns));
    }
  }

  lemma FlatOne(m: Message)
    ensures Flat([m]) == m.payload
  {
    assert [m][1..] == [];
  }

  /** All payload bytes of an outcome, those of a message cut short included. */
  function StreamOf(o: Outcome): seq<Byte> {
    Flat(o.done) + if o.partial.Some? then o.partial.value.payload else []
  }

  lemma StreamOfPrepend(o: Outcome, m: Message)
    ensures StreamOf(o.Prepend([m])) == m.payload + StreamOf(o)
  {
    FlatAppend([m], o.done);
    FlatOne(m);
  }

  /** Every payload byte a connection will still deliver. */
  ghost function Left(r: ReadConn): seq<Byte>
    requires r.Valid()
    reads r
  {
    if r.readErr.Some? then [] else StreamOf(ReadAll(r.cfg, r.St(), r.input))
  }

  /** One round of readWebsocket's loop; !ok leaves the loop. */
  method ReadNext(w: ByteSink, r: ReadConn, buf: array<Byte>) returns (ok: bool, ghost part: seq<Byte>)
    requires r.Valid() && buf.Length > 0 && !w.failed
    modifies w, r, buf
    ensures r.Valid() && w.out == old(w.out) + part
    ensures
      if ok then !w.failed && old(Left(r)) == part + Left(r)
      else part <= old(Left(r)) && (!w.failed ==> part == old(Left(r)))
    ensures ok ==> old(r.readErr).None?
    ensures ok && r.readErr.None? ==>
      |ReadAll(r.cfg, r.St(), r.input).done| < |ReadAll(r.cfg, old(r.St()), old(r.input)).done|
  {
    hide ReadMessage, Continue, ReadAll, MessageAfter;
    ok, part := false, [];
    ghost var input := ReadAll(r.cfg, r.St(), r.input);
    NextIsRead(r.cfg, r.St(), r.input);
    NothingToStream();
    var t, src, re := r.NextReader();
    if re.Some? {
      return;
    }
    ContinueIs(r.cfg, t, r.St(), r.input);
    ghost var m := ReadMessage(r.cfg, r.St(), r.input);
    FlatOne(Message(t, m.payload));
    var n, e := CopyBuffer(w, FromMessage(src), buf);
    part := m.payload[..n];
    if e.None? || e == Some(SourceBroken) {
      AfterCopy(r, m, if e.None? then EndOfFile else Broken);
    }
    if e.None? {
      StreamOfPrepend(ReadAll(r.cfg, r.St(), r.input), Message(t, m.payload));
      if r.readErr.Some? {
        NothingMore(r.cfg, r.St());
      }
      ok := true;
    } else if m.Whole? {
      assert input.done[0] == Message(t, m.payload);
    }
  }

  /** readWebsocket, on its copyBuffer path: every payload byte of r goes to w, in order. */
  method ReadWebsocket(w: ByteSink, r: ReadConn, buf: array<Byte>) returns (ghost part: seq<Byte>)
    requires r.Valid() && r.readErr.None? && buf.Length > 0 && !w.failed
    modifies w, r, buf
    ensures w.out == old(w.out) + part
    ensures var all := StreamOf(ReadAll(r.cfg, old(r.St()), old(r.input)));
      part <= all && (!w.failed ==> part == all)
  {
    hide ReadAll, StreamOf;
    part := [];
    ghost var all, out0 := Left(r), w.out;
    var ok := true;
    while ok
      invariant r.Valid() && w.out == out0 + part
      invariant ok ==> !w.failed && all == part + Left(r)
      invariant !ok ==> part <= all && (!w.failed ==> part == all)
      decreases ok, r.readErr.None?, |ReadAll(r.cfg, r.St(), r.input).done|
    {
      ghost var rest, more := Left(r), [];
      ok, more := ReadNext(w, r, buf);
      assert out0 + part + more == out0 + (part + more);
      assert more <= rest ==> part + more + rest[|more|..] == part + rest;
      part := part + more;
    }
  }

  lemma NothingFlat()
    ensures Flat([]) == []
  {
  }

  lemma {:induction false} SentMore(
      done0: seq<Message>, sent: seq<Message>, p: seq<Byte>, all: seq<Byte>, rest: seq<Byte>, flight: Option<Message>)
    requires all == Flat(sent) + (p + rest)
    ensures all == Flat(sent + [Message(BINARY, p)]) + rest
    ensures done0 + sent + [] == done0 + (sent + []) && sent + [] == sent
    ensures done0 + sent + [Message(BINARY, p)] == done0 + (sent + [Message(BINARY, p)])
    ensures flight.Some? && flight.value.payload <= p ==> Flat(sent) + flight.value.payload <= all
    ensures Flat(sent) + [] <= all
  {
    hide Flat;
    FlatAppend(sent, [Message(BINARY, p)]);
    FlatOne(Message(BINARY, p));
    Assoc(Flat(sent), p, rest);
    Assoc(done0, sent, [Message(BINARY, p)]);
    PrefixOfConcat(Flat(sent), p, rest, []);
    if flight.Some? && flight.value.payload <= p {
      PrefixOfConcat(Flat(sent), p, rest, flight.value.payload);
    }
  }

  /** One binary message, written while no other is. */
  method WriteBinary(w: WriteConn, p: seq<Byte>) returns (ew: Option<WriteError>, ghost more: seq<Message>)
    requires w.Ready() && w.live == null && w.InFlight().None? && |p| < MAX_SLICE
    modifies w, w.writeBuf, w.writePool, w.PoolBuffers()
    ensures w.Ready() && w.live == null && w.OwnBuffersOnly()
    ensures w.asm.done == old(w.asm.done) + more && more == if ew.None? then [Message(BINARY, p)] else []
    ensures if ew.None? then w.InFlight().None? else w.writeErr.Some?
    ensures w.InFlight().Some? ==> w.InFlight().value.op == BINARY && w.InFlight().value.payload <= p
  {
    hide WriteConn.WireOk, WriteConn.Owned;
    ghost var flushed;
    ew, flushed := w.WriteMessage(BINARY, p);
    assert old(w.asm.done) + [] == old(w.asm.done);
    more := if ew.None? then [Message(BINARY, p)] else [];
  }

  /** writeWebsocket: whatever is read from r goes out at once as a binary message. */
  method WriteWebsocket(w: WriteConn, r: ByteSource, buf: array<Byte>) returns (ghost sent: seq<Message>)
    requires w.Ready() && w.live == null && w.InFlight().None?
    requires 0 < buf.Length < MAX_SLICE && buf != w.writeBuf && buf !in w.PoolBuffers()
    modifies w, w.writeBuf, w.writePool, w.PoolBuffers(), r, buf
    ensures w.Ready() && w.live == null && w.OwnBuffersOnly()
    ensures w.asm.done == old(w.asm.done) + sent
    ensures forall m :: m in sent ==> m.op == BINARY && |m.payload| <= buf.Length
    ensures w.writeErr.None? ==> Flat(sent) == old(r.data)
    ensures w.InFlight().Some? ==> w.InFlight().value.op == BINARY && |w.InFlight().value.payload| <= buf.Length
    ensures Flat(sent) + (if w.InFlight().Some? then w.InFlight().value.payload else []) <= old(r.data)
  {
    hide WriteConn.Valid, Flat;
    sent := [];
    assert Flat([]) == [] by {
      NothingFlat();
    }
    ghost var done0, all := w.asm.done, r.data;
    var er: Option<ReadError> := None;
    var ew: Option<WriteError> := None;
    while er.None? && ew.None?
      invariant w.Ready() && w.live == null && w.OwnBuffersOnly()
      invariant w.asm.done == done0 + sent && forall m :: m in sent ==> m.op == BINARY && |m.payload| <= buf.Length
      invariant ew.None? ==> w.InFlight().None? && all == Flat(sent) + r.data
      invariant ew.None? && er.Some? ==> r.data == []
      invariant ew.Some? ==> w.writeErr.Some?
      invariant w.InFlight().Some? ==> w.InFlight().value.op == BINARY && |w.InFlight().value.payload| <= buf.Length
      invariant ew.Some? ==> Flat(sent) + (if w.InFlight().Some? then w.InFlight().value.payload else []) <= all
      decreases er.None? && ew.None?, |r.data|
    {
      var n;
      n, er := r.Read(buf, 0, buf.Length);
      if n > 0 {
        ghost var rest := r.data;
        var p := buf[0..n];
        ghost var more;
        ew, more := WriteBinary(w, p);
        SentMore(done0, sent, p, all, rest, w.InFlight());
        sent := sent + more;
      }
    }
  }

  // ----- A byte stream through a websocket -----

  lemma {:induction false} PrefixStream(o: Outcome, done: seq<Message>, flight: Option<Message>)
    requires ReadsPrefix(o, done, flight)
    ensures StreamOf(o) <= Flat(done) + if flight.Some? then flight.value.payload else []
    ensures o.done == done && flight.None? ==> StreamOf(o) == Flat(done)
  {
    var n := |o.done|;
    assert done == o.done + done[n..];
    FlatAppend(o.done, done[n..]);
    if n < |done| {
      assert done[n..][0] == done[n];
    }
  }

  /**
   * Stream to websocket to stream: what reaches the sink is a prefix of the source, whatever fails on
   * the way and however the data is cut up; all of it when neither end fails and all of the wire
   * arrives. The first cut bytes of it do.
   */
  method Tunnel(w: WriteConn, src: ByteSource, sink: ByteSink, buf: array<Byte>, cfg: Config, cut: nat, eager: bool)
    returns (ghost part: seq<Byte>)
    requires w.Ready() && w.live == null && w.InFlight().None? && w.asm.done == [] && !sink.failed
    requires 0 < buf.Length < MAX_SLICE && buf != w.writeBuf && buf !in w.PoolBuffers()
    requires cfg.server == !w.isServer && cfg.Patient() && (cfg.limit == 0 || buf.Length <= cfg.limit)
    modifies w, w.writeBuf, w.writePool, w.PoolBuffers(), src, sink, buf
    ensures sink.out == old(sink.out) + part && part <= old(src.data)
    ensures w.writeErr.None? && cut >= |w.wire| && !sink.failed ==> part == old(src.data)
  {
    hide WriteConn.Owned, MessageWriter.Buffered, WireIs, ReadAll, ReadsPrefix, StreamOf, Flat;
    ghost var sent := WriteWebsocket(w, src, buf);
    assert [] + sent == sent;
    OpenInFlight(w.asm, w.torn);
    assert AllSmall(cfg, w.asm);
    var k := Min(cut, |w.wire|);
    WireReadsBack(cfg, w.wire, w.log, w.keys, w.asm, w.torn, w.tornBytes, k);
    PrefixStream(ReadAll(cfg, START, w.wire[..k]), sent, w.InFlight());
    var r := new ReadConn(cfg, eager, w.wire[..k]);
    part := ReadWebsocket(sink, r, buf);
  }

  // ----- internal/httpmux/websocket.go -----

  /** The bytes that follow when the current message ends as e says. */
  function StreamAfter(cfg: Config, e: MessageEnd): seq<Byte> {
    match e
    case Whole(p, st, rest) => p + StreamOf(ReadAll(cfg, st, rest))
    case Cut(p, _) => p
  }

  lemma {:induction false} StreamOfContinue(cfg: Config, op: nat, st: State, s: seq<Byte>)
    ensures StreamOf(Continue(cfg, Message(op, []), st, s)) == StreamAfter(cfg, ReadMessage(cfg, st, s))
  {
    hide ReadMessage, ReadAll;
    ContinueIs(cfg, op, st, s);
    match ReadMessage(cfg, st, s)
    case Whole(p, st', rest) => StreamOfPrepend(ReadAll(cfg, st', rest), Message(op, p));
    case Cut(p, _) =>
  }

  /** The ends of messages that follow, that of the current one included. */
  function EndsAfter(cfg: Config, e: MessageEnd): nat {
    match e
    case Whole(_, st, rest) => 1 + |ReadAll(cfg, st, rest).done|
    case Cut(_, _) => 0
  }

  lemma StreamMore(e: MessageEnd, p: seq<Byte>, cfg: Config)
    ensures StreamAfter(cfg, e.Prepend(p)) == p + StreamAfter(cfg, e)
    ensures EndsAfter(cfg, e.Prepend(p)) == EndsAfter(cfg, e)
  {
    hide ReadAll, StreamOf;
    match e
    case Whole(q, st, rest) => Assoc(p, q, StreamOf(ReadAll(cfg, st, rest)));
    case Cut(q, _) =>
  }

  lemma {:induction false} NothingAfter(cfg: Config, st: State)
    ensures StreamAfter(cfg, ReadMessage(cfg, st, [])) == []
  {
    hide AfterFixedHeader;
    if st.rem == 0 && st.final {
      NothingMore(cfg, st);
    } else if st.rem == 0 {
      assert Advance(cfg, st, []) == Failed(UnexpectedEOF);
    }
  }

  lemma NothingToStream()
    ensures forall e :: StreamOf(Outcome([], None, e)) == []
  {
  }

  /** WebsocketConn: a byte stream over messages. */
  class WebsocketStream {
    const ws: ReadConn
    const out: WriteConn
    /** The reader of the current message, if there is one. */
    var r: MessageReader?

    constructor (ws: ReadConn, out: WriteConn)
      ensures this.ws == ws && this.out == out && r == null
    {
      this.ws, this.out, r := ws, out, null;
    }

    ghost predicate Readable()
      reads this, ws
    {
      ws.Valid() && (r != null ==> r.c == ws && ws.messageReader == r)
    }

    /** Every byte still to be read. */
    ghost function Outstanding(): seq<Byte>
      requires Readable()
      reads this, ws
    {
      if ws.readErr.Some? then []
      else if r == null then StreamOf(ReadAll(ws.cfg, ws.St(), ws.input))
      else StreamAfter(ws.cfg, ReadMessage(ws.cfg, ws.St(), ws.input))
    }

    /** The ends of messages still to come. */
    ghost function Ends(): nat
      requires Readable()
      reads this, ws
    {
      if ws.readErr.Some? then 0
      else if r == null then |ReadAll(ws.cfg, ws.St(), ws.input).done|
      else EndsAfter(ws.cfg, ReadMessage(ws.cfg, ws.St(), ws.input))
    }

    /**
     * Read: message boundaries do not show, except as reads of no bytes, one for each. An error comes
     * with the last bytes or after them.
     */
    method Read(b: array<Byte>) returns (n: nat, err: Option<Error>)
      requires Readable()
      modifies this, ws, b
      ensures Readable() && n <= b.Length && b[n..] == old(b[n..])
      ensures old(Outstanding()) == b[..n] + Outstanding()
      ensures err.Some? ==> Outstanding() == [] && ws.readErr.Some?
      ensures Ends() <= old(Ends())
      ensures b.Length > 0 && n == 0 && err.None? ==> Ends() < old(Ends())
    {
      hide ReadMessage, Continue, ReadAll, StreamOf, MessageEnd.Prepend, NextReader, PayloadEnd, SameEnd;
      n := 0;
      if r == null {
        NextIsRead(ws.cfg, ws.St(), ws.input);
        NothingToStream();
        var t, src, e := ws.NextReader();
        if e.Some? {
          return 0, e;
        }
        StreamOfContinue(ws.cfg, t, ws.St(), ws.input);
        ContinueIs(ws.cfg, t, ws.St(), ws.input);
        r := src;
      }
      ghost var m, failed := ReadMessage(ws.cfg, ws.St(), ws.input), ws.readErr.Some?;
      ghost var early;
      n, err, early := r.Read(b, 0, b.Length);
      assert b[0..n] == b[..n];
      if !failed {
        ghost var rest := ReadMessage(ws.cfg, ws.St(), if early then [] else ws.input);
        if err.None? || early {
          StreamMore(rest, b[..n], ws.cfg);
        }
        if early {
          NothingAfter(ws.cfg, ws.St());
        }
      }
      if err == Some(EOF) {
        err := None;
        r := null;
      }
    }

    /** Read to the end, with buffers of any sizes: there are only so many reads of no bytes. */
    method ReadToEnd() returns (all: seq<Byte>)
      requires ws.Valid() && ws.readErr.None? && r == null
      modifies this, ws
      ensures all == StreamOf(ReadAll(ws.cfg, old(ws.St()), old(ws.input)))
    {
      hide ReadAll, StreamOf;
      all := [];
      ghost var goal := Outstanding();
      var more := true;
      while more
        invariant Readable() && goal == all + Outstanding()
        invariant more || Outstanding() == []
        decreases more, |Outstanding()| + Ends()
      {
        var size: nat :| size > 0;
        var b := new Byte[size];
        var n, err := Read(b);
        Assoc(all, b[..n], Outstanding());
        all := all + b[..n];
        more := err.None?;
      }
    }

    /** Write: one binary message. */
    method Write(b: seq<Byte>) returns (n: nat, err: Option<WriteError>)
      requires out.Ready() && out.live == null && |b| < MAX_SLICE
      modifies out, out.writer, out.writeBuf, out.writePool, out.PoolBuffers()
      ensures out.Ready() && out.live == null
      ensures err.None? ==> n == |b| && out.asm.done == old(out.asm.done) + [Message(BINARY, b)]
      ensures err.Some? ==> n == 0 && out.asm.done == old(out.asm.done) && err == out.writeErr
    {
      hide WriteConn.Valid;
      n := 0;
      ghost var flushed;
      err, flushed := out.WriteMessage(BINARY, b);
      assert old(out.asm.done) + [] == old(out.asm.done);
      if err.None? {
        n := |b|;
      }
    }
  }
}
