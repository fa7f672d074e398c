/**
 * What reading a byte stream means: advanceFrame, NextReader and messageReader.Read of
 * third-party/websocket/conn.go as functions of the bytes still to come. The class in
 * ReadConns.dfy computes these functions whatever chunks the transport delivers.
 */
module Reading {
  import opened Bytes
  import opened Masking
  import opened Frames

  const CLOSE_NO_STATUS: nat := 1005

  datatype Error =
    | EOF
    | UnexpectedEOF
    | ReadLimit  // ErrReadLimit, after a close frame has been sent
    | Overflow  // ErrReadLimit for a length no int64 holds
    | ProtocolError
    | HandlerFailed(op: nat)
    | CloseReceived(code: nat)
    | ReplyFailed(instead: Error)  // the close frame that answers instead could not be written

  /**
   * What does not change while reading. pingFails(n) and pongFails(n) tell whether the handler fails on
   * a ping or pong that leaves n bytes of the stream unread, closeFails(n) whether the close frame sent
   * at that point in answer to a violation or a close cannot be written; utf8 is utf8.ValidString.
   */
  datatype Config = Config(
    server: bool,
    limit: nat,
    pingFails: nat -> bool,
    pongFails: nat -> bool,
    closeFails: nat -> bool,
    utf8: seq<Byte> -> bool)
  {
    predicate HandlerFails(op: int, left: nat) {
      (op == PING && pingFails(left)) || (op == PONG && pongFails(left))
    }

    /** The ping and pong handlers never fail. */
    ghost predicate Patient() {
      forall n :: !pingFails(n) && !pongFails(n)
    }
  }

  type Phase = p: nat | p < 4

  /** The reader's fields: readFinal, readRemaining, readMaskKey, readMaskPos, readLength. */
  datatype State = State(final: bool, rem: nat, key: Key, pos: Phase, length: nat)

  datatype Step =
    | DataFrame(op: nat, st: State, rest: seq<Byte>)
    | ControlFrame(op: nat, payload: seq<Byte>, st: State, rest: seq<Byte>)
    | Failed(error: Error)

  predicate ValidCloseCode(code: nat) {
    code in {1000, 1001, 1002, 1003, 1007, 1008, 1009, 1010, 1011, 1012, 1013} || 3000 <= code <= 4999
  }

  /** The two header bytes as a frame header, read against the state left by the frames before. */
  predicate HeaderOk(cfg: Config, final: bool, b0: Byte, b1: Byte) {
    var op, fin := b0 % 16, b0 >= 128;
    b0 / 16 % 8 == 0 &&
    (b1 >= 128) == cfg.server &&
    if IsControl(op) then b1 % 128 <= MAX_CONTROL && fin
    else if IsData(op) then final
    else op == CONTINUATION && !final
  }

  /** The number of length bytes that follow the header's second byte. */
  function ExtraLength(b1: Byte): nat {
    if b1 % 128 == 126 then 2 else if b1 % 128 == 127 then 8 else 0
  }

  function PayloadLength(b1: Byte, ext: seq<Byte>): nat {
    if b1 % 128 >= 126 then FromBE(ext) else b1 % 128
  }

  /** readLength after a data frame of n bytes, in wrapping int64; None when the frame is refused. */
  function CountLength(cfg: Config, length: nat, n: nat): Option<nat> {
    var total := Int64(length + n);
    if total < 0 || (cfg.limit > 0 && total > cfg.limit) then None else Some(total)
  }

  /** What is reported for e, which calls for a close frame, when left bytes of the stream are unread. */
  function Answered(cfg: Config, left: nat, e: Error): Error {
    if cfg.closeFails(left) then ReplyFailed(e) else e
  }

  /** What has gone wrong, whether or not it could be answered. */
  function Cause(e: Error): Error {
    if e.ReplyFailed? then e.instead else e
  }

  /** The end of advanceFrame for a control frame whose payload has been read. */
  function Control(cfg: Config, op: nat, payload: seq<Byte>, st: State, rest: seq<Byte>): Step {
    if cfg.HandlerFails(op, |rest|) then Failed(HandlerFailed(op))
    else if op != CLOSE then ControlFrame(op, payload, st, rest)
    else if |payload| < 2 then Failed(Answered(cfg, |rest|, CloseReceived(CLOSE_NO_STATUS)))
    else if !ValidCloseCode(FromBE(payload[..2])) || !cfg.utf8(payload[2..]) then
      Failed(Answered(cfg, |rest|, ProtocolError))
    else Failed(Answered(cfg, |rest|, CloseReceived(FromBE(payload[..2]))))
  }

  /** advanceFrame, called with no payload left to skip. */
  function Advance(cfg: Config, st: State, s: seq<Byte>): (r: Step)
    ensures r.DataFrame? ==> |r.rest| < |s|
    ensures r.ControlFrame? ==> |r.rest| < |s|
  {
    if |s| < 2 then Failed(UnexpectedEOF)
    else if !HeaderOk(cfg, st.final, s[0], s[1]) then Failed(Answered(cfg, |s| - 2, ProtocolError))
    else AfterFixedHeader(cfg, st, s[0], s[1], s[2..])
  }

  /** advanceFrame after an acceptable first two bytes: length bytes and masking key are next in s. */
  function AfterFixedHeader(cfg: Config, st: State, b0: Byte, b1: Byte, s: seq<Byte>): (r: Step)
    ensures r.DataFrame? ==> |r.rest| <= |s|
    ensures r.ControlFrame? ==> |r.rest| <= |s|
  {
    var x := ExtraLength(b1);
    var h := x + if b1 >= 128 then 4 else 0;
    if |s| < x then Failed(UnexpectedEOF)
    else if Int64(PayloadLength(b1, s[..x])) < 0 then Failed(Overflow)
    else if |s| < h then Failed(UnexpectedEOF)
    else AfterHeader(cfg, st, b0, PayloadLength(b1, s[..x]), if b1 >= 128 then s[x..h] else st.key, b1 >= 128, s[h..])
  }

  /** advanceFrame once the header is read: n payload bytes are next in s. */
  function AfterHeader(cfg: Config, st: State, b0: Byte, n: nat, key: Key, masked: bool, s: seq<Byte>): (r: Step)
    ensures r.DataFrame? ==> |r.rest| <= |s|
    ensures r.ControlFrame? ==> |r.rest| <= |s|
  {
    var op := b0 % 16;
    var pos := if masked then 0 else st.pos;
    if IsControl(op) then
      if |s| < n then Failed(UnexpectedEOF)
      else
        var payload := if masked then MaskSeq(key, 0, s[..n]) else s[..n];
        Control(cfg, op, payload, State(st.final, 0, key, pos, st.length), s[n..])
    else
      match CountLength(cfg, st.length, n)
      case None => Failed(if Int64(st.length + n) < 0 then Overflow else Answered(cfg, |s|, ReadLimit))
      case Some(length) => DataFrame(op, State(b0 >= 128, n, key, pos, length), s)
  }

  // ----- One message, and all messages -----

  datatype MessageEnd =
    | Whole(payload: seq<Byte>, st: State, rest: seq<Byte>)  // io.EOF from the message reader
    | Cut(payload: seq<Byte>, error: Error)
  {
    function Prepend(p: seq<Byte>): MessageEnd {
      match this
      case Whole(q, st, rest) => Whole(p + q, st, rest)
      case Cut(q, e) => Cut(p + q, e)
    }
  }

  /** The first k payload bytes of the current frame, unmasked. */
  function Unmask(cfg: Config, st: State, s: seq<Byte>): seq<Byte> {
    if cfg.server then MaskSeq(st.key, st.pos, s) else s
  }

  function Consume(cfg: Config, st: State, k: nat): State
    requires k <= st.rem
  {
    st.(rem := st.rem - k, pos := if cfg.server then (st.pos + k) % 4 else st.pos)
  }

  /** What messageReader.Read delivers from here to the end of the message. */
  function ReadMessage(cfg: Config, st: State, s: seq<Byte>): MessageEnd
    decreases |s|, st.rem
  {
    if st.rem > 0 then
      var k := Min(st.rem, |s|);
      if k == 0 then Cut([], UnexpectedEOF)
      else ReadMessage(cfg, Consume(cfg, st, k), s[k..]).Prepend(Unmask(cfg, st, s[..k]))
    else if st.final then Whole([], st, s)
    else
      match Advance(cfg, st, s)
      case DataFrame(_, st', rest) => ReadMessage(cfg, st', rest)
      case ControlFrame(_, _, st', rest) => ReadMessage(cfg, st', rest)
      case Failed(e) => Cut([], e)
  }

  datatype NextMessage =
    | Next(op: nat, st: State, rest: seq<Byte>)
    | NoNext(error: Error)

  /** NextReader after readLength has been reset: skip what is left of the current message, find the next one. */
  function NextData(cfg: Config, st: State, s: seq<Byte>): (r: NextMessage)
    ensures r.Next? ==> |r.rest| < |s| && IsData(r.op)
    decreases |s|
  {
    if |s| < st.rem then NoNext(EOF)
    else
      match Advance(cfg, st.(rem := 0), s[st.rem..])
      case DataFrame(op, st', rest) => if IsData(op) then Next(op, st', rest) else NextData(cfg, st', rest)
      case ControlFrame(_, _, st', rest) => NextData(cfg, st', rest)
      case Failed(e) => NoNext(e)
  }

  function NextReader(cfg: Config, st: State, s: seq<Byte>): NextMessage {
    NextData(cfg, st.(length := 0), s)
  }

  /** The complete messages, the start of one cut short, and the error that ends the reading. */
  datatype Outcome = Outcome(done: seq<Message>, partial: Option<Message>, error: Error)
  {
    function Prepend(ms: seq<Message>): Outcome {
      this.(done := ms + done)
    }
  }

  /** Every message of the stream, each read to its end before the next one is asked for. */
  function ReadAll(cfg: Config, st: State, s: seq<Byte>): Outcome
    decreases |s|, 1
  {
    match NextReader(cfg, st, s)
    case NoNext(e) => Outcome([], None, e)
    case Next(op, st', rest) => Continue(cfg, Message(op, []), st', rest)
  }

  /** As ReadAll, from within a message of which m has been read. */
  function Continue(cfg: Config, m: Message, st: State, s: seq<Byte>): Outcome
    decreases |s|, 2
  {
    ReadMessageRest(cfg, st, s);
    match ReadMessage(cfg, st, s)
    case Whole(p, st', rest) => ReadAll(cfg, st', rest).Prepend([m.(payload := m.payload + p)])
    case Cut(p, e) => Outcome([], Some(m.(payload := m.payload + p)), e)
  }

  lemma {:induction false} ReadMessageRest(cfg: Config, st: State, s: seq<Byte>)
    ensures ReadMessage(cfg, st, s).Whole? ==>
      |ReadMessage(cfg, st, s).rest| <= |s| && ReadMessage(cfg, st, s).st.final && ReadMessage(cfg, st, s).st.rem == 0
    decreases |s|, st.rem
  {
    if st.rem > 0 {
      var k := Min(st.rem, |s|);
      if k > 0 {
        ReadMessageRest(cfg, Consume(cfg, st, k), s[k..]);
      }
    } else if !st.final {
      match Advance(cfg, st, s)
      case DataFrame(_, st', rest) => ReadMessageRest(cfg, st', rest);
      case ControlFrame(_, _, st', rest) => ReadMessageRest(cfg, st', rest);
      case Failed(_) =>
    }
  }

  /** Where reading stands with respect to messages: between two of them, or inside one. */
  function ReadFrom(cfg: Config, open: Option<Message>, st: State, s: seq<Byte>): Outcome {
    match open
    case None => ReadAll(cfg, st, s)
    case Some(m) => Continue(cfg, m, st, s)
  }

  // ----- Chunks -----

  /** Inside a message the next data frame can only be a continuation, and skipping cannot fail. */
  lemma InMessageStep(cfg: Config, st: State, s: seq<Byte>)
    ensures !st.final && Advance(cfg, st, s).DataFrame? ==> Advance(cfg, st, s).op == CONTINUATION
    ensures Advance(cfg, st, s) != Failed(EOF)
  {
    hide MaskSeq, PayloadLength, ExtraLength, CountLength, ValidCloseCode;
  }

  lemma ConsumeTwice(cfg: Config, st: State, s: seq<Byte>, t: seq<Byte>)
    requires |s| + |t| <= st.rem
    ensures Consume(cfg, Consume(cfg, st, |s|), |t|) == Consume(cfg, st, |s| + |t|)
    ensures Unmask(cfg, st, s + t) == Unmask(cfg, st, s) + Unmask(cfg, Consume(cfg, st, |s|), t)
  {
    hide MaskSeq;
    MaskConcat(st.key, st.pos, s, t);
    PhaseAdds(st.pos, |s|, |t|);
  }

  lemma PhaseAdds(p: nat, a: nat, b: nat)
    ensures ((p + a) % 4 + b) % 4 == (p + (a + b)) % 4
  {
  }

  /** Taking any part of the current payload first does not change what the message delivers. */
  lemma {:induction false} ReadChunk(cfg: Config, st: State, p: seq<Byte>, rest: seq<Byte>)
    requires 0 < |p| <= st.rem
    ensures ReadMessage(cfg, st, p + rest) == ReadMessage(cfg, Consume(cfg, st, |p|), rest).Prepend(Unmask(cfg, st, p))
  {
    hide MaskSeq, Advance, Unmask, Consume;
    var s := p + rest;
    var k, k' := Min(st.rem, |s|), Min(st.rem - |p|, |rest|);
    var st1 := Consume(cfg, st, |p|);
    assert st1.rem == st.rem - |p| by {
      ConsumeRem(cfg, st, |p|);
    }
    if k' == 0 {
      assert s[..k] == p && s[k..] == rest;
    } else {
      assert s[..k] == p + rest[..k'] && s[k..] == rest[k'..];
      ConsumeTwice(cfg, st, p, rest[..k']);
      var e := ReadMessage(cfg, Consume(cfg, st, k), s[k..]);
      PrependTwice(e, Unmask(cfg, st, p), Unmask(cfg, st1, rest[..k']));
    }
  }

  lemma ConsumeRem(cfg: Config, st: State, k: nat)
    requires k <= st.rem
    ensures Consume(cfg, st, k).rem == st.rem - k
  {
  }

  lemma PrependNothing(e: MessageEnd)
    ensures e.Prepend([]) == e
  {
    match e
    case Whole(q, _, _) => assert [] + q == q;
    case Cut(q, _) => assert [] + q == q;
  }

  lemma PrependTwice(e: MessageEnd, p: seq<Byte>, q: seq<Byte>)
    ensures e.Prepend(q).Prepend(p) == e.Prepend(p + q)
  {
    match e
    case Whole(r, _, _) => assert p + (q + r) == p + q + r;
    case Cut(r, _) => assert p + (q + r) == p + q + r;
  }

  // ----- How a stream ends -----

  /**
   * The reader's state at the end of a stream that ends with payload: everything read, message after
   * message, the last byte part of a data frame. None for a stream that ends in any other way.
   */
  function PayloadEnd(cfg: Config, st: State, s: seq<Byte>): Option<State>
    decreases |s|, st.rem
  {
    if st.rem > 0 then
      if s == [] then None
      else if |s| <= st.rem then Some(Consume(cfg, st, |s|))
      else PayloadEnd(cfg, Consume(cfg, st, st.rem), s[st.rem..])
    else
      match Advance(cfg, if st.final then st.(length := 0) else st, s)
      case DataFrame(_, st', rest) => PayloadEnd(cfg, st', rest)
      case ControlFrame(_, _, st', rest) => PayloadEnd(cfg, st', rest)
      case Failed(_) => None
  }

  /** Reading has come from st and s to st' and s', on the way to the same end. */
  predicate SameEnd(cfg: Config, st: State, s: seq<Byte>, st': State, s': seq<Byte>) {
    |s'| <= |s| && (s' != [] ==> PayloadEnd(cfg, st', s') == PayloadEnd(cfg, st, s))
  }

  lemma {:induction false} NothingEnds(cfg: Config, st: State)
    ensures PayloadEnd(cfg, st, []).None?
  {
    hide AfterFixedHeader;
  }

  lemma {:induction false} PayloadEndChunk(cfg: Config, st: State, p: seq<Byte>, rest: seq<Byte>)
    requires 0 < |p| <= st.rem
    ensures var st' := Consume(cfg, st, |p|);
      PayloadEnd(cfg, st, p + rest) == if rest == [] then Some(st') else PayloadEnd(cfg, st', rest)
  {
    hide Advance, MaskSeq;
    var s, k := p + rest, Min(st.rem - |p|, |rest|);
    if rest == [] {
      assert s == p;
    } else {
      ConsumeTwice(cfg, st, p, rest[..k]);
      assert |s| > st.rem ==> s[st.rem..] == rest[k..];
    }
  }

  lemma {:induction false} PayloadEndStep(cfg: Config, st: State, s: seq<Byte>)
    requires st.rem == 0 && !st.final && !Advance(cfg, st, s).Failed?
    ensures PayloadEnd(cfg, Advance(cfg, st, s).st, Advance(cfg, st, s).rest) == PayloadEnd(cfg, st, s)
  {
    hide Advance;
  }

  /** Between messages only a data opener or a control frame passes, and a control frame leaves things as they are. */
  lemma BetweenMessages(cfg: Config, st: State, s: seq<Byte>)
    ensures st.final && Advance(cfg, st, s).DataFrame? ==> IsData(Advance(cfg, st, s).op)
    ensures var step := Advance(cfg, st, s);
      step.ControlFrame? ==> step.st.rem == 0 && step.st.final == st.final && step.st.length == st.length
  {
    hide MaskSeq, PayloadLength, ExtraLength, CountLength, ValidCloseCode;
  }

  lemma {:induction false} NextKeepsEnd(cfg: Config, st: State, s: seq<Byte>)
    requires st.rem == 0 && st.final && NextReader(cfg, st, s).Next?
    ensures var n := NextReader(cfg, st, s); PayloadEnd(cfg, n.st, n.rest) == PayloadEnd(cfg, st, s)
    decreases |s|
  {
    hide Advance;
    var st0 := st.(length := 0);
    BetweenMessages(cfg, st0, s);
    assert s[0..] == s && st0.(rem := 0) == st0;
    var step := Advance(cfg, st0, s);
    if step.ControlFrame? {
      assert step.st.(length := 0) == step.st;
      NextKeepsEnd(cfg, step.st, step.rest);
    }
  }
}
