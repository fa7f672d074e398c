/** The reading half of Conn and its message readers: third-party/websocket/conn.go. */
module ReadConns {
  import opened Bytes
  import opened Masking
  import opened Frames
  import opened Reading

  /** FormatCloseMessage. */
  function FormatClose(code: nat, text: seq<Byte>): seq<Byte> {
    if code == CLOSE_NO_STATUS then [] else BE(code, 2) + text
  }

  /** A control frame handed to WriteControl by a handler. */
  datatype Reply = Reply(op: nat, data: seq<Byte>)

  /** The answer a step calls for: a pong to each ping, a close to a close, to a violation and to the limit. */
  predicate Answers(step: Step, replies: seq<Reply>) {
    match step
    case DataFrame(_, _, _) => replies == []
    case ControlFrame(op, payload, _, _) => replies == if op == PING then [Reply(PONG, payload)] else []
    case Failed(e) =>
      match Cause(e)
      case CloseReceived(code) => replies == [Reply(CLOSE, FormatClose(code, []))]
      case ProtocolError =>
        |replies| == 1 && replies[0].op == CLOSE && BE(1002, 2) <= replies[0].data && |replies[0].data| <= MAX_CONTROL
      case ReadLimit => replies == [Reply(CLOSE, FormatClose(1009, []))]
      case HandlerFailed(op) => if op == PING then |replies| == 1 && replies[0].op == PONG else replies == []
      case _ => replies == []
  }

  class ReadConn {
    const cfg: Config
    /** Whether the transport may report the end of the stream together with its last bytes. */
    const eager: bool
    /** The bytes still to come before the end of the stream, those buffered in br included. */
    var input: seq<Byte>
    var readErr: Option<Error>
    var readRemaining: int
    var readFinal: bool
    var readLength: int
    var readMaskKey: Key
    var readMaskPos: Phase
    var messageReader: MessageReader?
    /** Control frames the handlers have passed to WriteControl. */
    var replies: seq<Reply>

    ghost predicate Valid()
      reads this
    {
      0 <= readRemaining < TWO_63 && 0 <= readLength < TWO_63
    }

    function St(): State
      requires Valid()
      reads this
    {
      State(readFinal, readRemaining, readMaskKey, readMaskPos, readLength)
    }

    constructor (cfg: Config, eager: bool, input: seq<Byte>)
      ensures Valid() && St() == State(true, 0, [0, 0, 0, 0], 0, 0)
      ensures this.cfg == cfg && this.eager == eager && this.input == input
      ensures readErr.None? && messageReader == null && replies == []
    {
      this.cfg, this.eager, this.input := cfg, eager, input;
      readErr, readRemaining, readFinal, readLength := None, 0, true, 0;
      readMaskKey, readMaskPos, messageReader, replies := [0, 0, 0, 0], 0, null, [];
    }

    /** read: Peek and Discard of n bytes. */
    method ReadBytes(n: nat) returns (p: seq<Byte>, ok: bool)
      modifies this`input
      ensures ok <==> |old(input)| >= n
      ensures old(input) == p + input && (if ok then |p| == n else input == [])
    {
      if |input| >= n {
        p, ok, input := input[..n], true, input[n..];
      } else {
        p, ok, input := input, false, [];
      }
    }

    /** br.Read on a slice of k bytes: some bytes if any are left, otherwise the end of the stream. */
    method BufferedRead(k: nat) returns (p: seq<Byte>, eof: bool)
      modifies this`input
      ensures old(input) == p + input && |p| <= k
      ensures old(input) != [] && k > 0 ==> p != []
      ensures eof ==> input == [] && k > 0 && (p != [] ==> eager)
      ensures old(input) == [] && k > 0 ==> eof
    {
      if k == 0 {
        p, eof := [], false;
      } else if input == [] {
        p, eof := [], true;
      } else {
        var n :| 1 <= n <= k && n <= |input|;
        p, input := input[..n], input[n..];
        eof := false;
        if eager && input == [] {
          eof := *;
        }
      }
    }

    /** setReadRemaining. */
    method SetReadRemaining(n: int) returns (ok: bool)
      modifies this`readRemaining
      ensures ok <==> n >= 0
      ensures readRemaining == if ok then n else old(readRemaining)
    {
      ok := n >= 0;
      if ok {
        readRemaining := n;
      }
    }

    method HandleProtocolError() returns (err: Error)
      modifies this`replies
      ensures err == Answered(cfg, |input|, ProtocolError)
      ensures exists data ::
        replies == old(replies) + [Reply(CLOSE, data)] && BE(1002, 2) <= data && |data| <= MAX_CONTROL
    {
      var text: seq<Byte> := *;
      var data := FormatClose(1002, text);
      if |data| > MAX_CONTROL {
        data := data[..MAX_CONTROL];
      }
      replies := replies + [Reply(CLOSE, data)];
      err := Answered(cfg, |input|, ProtocolError);
    }

    /** advanceFrame. */
    method AdvanceFrame() returns (op: int, err: Option<Error>)
      requires Valid() && readErr.None?
      modifies this`input, this`readRemaining, this`readFinal, this`readLength, this`readMaskKey, this`readMaskPos
      modifies this`replies
      ensures Valid()
      ensures if |old(input)| < old(readRemaining) then err == Some(EOF) && replies == old(replies) else
        var step := Advance(cfg, old(St()).(rem := 0), old(input)[old(readRemaining)..]);
        old(replies) <= replies && Answers(step, replies[|old(replies)|..]) &&
        match step
        case DataFrame(o, st, rest) => err.None? && op == o && St() == st && input == rest
        case ControlFrame(o, _, st, rest) => err.None? && op == o && St() == st && input == rest
        case Failed(e) => err == Some(e)
    {
      hide AfterFixedHeader, Answers, HeaderOk;
      op := -1;
      // 1. Skip the remainder of the previous frame.
      if readRemaining > 0 {
        var _, skipped := ReadBytes(readRemaining);
        if !skipped {
          return op, Some(EOF);
        }
      }
      ghost var st0, s := St().(rem := 0), input;
      assert s == old(input)[old(readRemaining)..];
      // 2. The first two bytes of the frame header.
      var p, ok := ReadBytes(2);
      if !ok {
        AnswersNothing(UnexpectedEOF);
        assert replies[|old(replies)|..] == [];
        return op, Some(UnexpectedEOF);
      }
      assert s[0] == p[0] && s[1] == p[1] && s[2..] == input;
      ok := CheckHeader(p[0], p[1]);
      if !ok {
        var e := HandleProtocolError();
        AnswersViolation(replies[|old(replies)|..]);
        return op, Some(e);
      }
      op, err := FinishHeader(p[0], p[1], st0);
    }

    /** The checks on the first two bytes; all violations are collected before any is reported. */
    method CheckHeader(b0: Byte, b1: Byte) returns (ok: bool)
      requires Valid()
      modifies this`readRemaining, this`readFinal
      ensures Valid() && readRemaining == b1 % 128
      ensures ok <==> HeaderOk(cfg, old(readFinal), b0, b1)
      ensures ok ==> (b1 >= 128) == cfg.server
      ensures ok ==> readFinal == if IsControl(b0 % 16) then old(readFinal) else b0 >= 128
    {
      var opcode, final, masked := b0 % 16, b0 >= 128, b1 >= 128;
      ok := SetReadRemaining(b1 % 128);
      var violated := b0 / 16 % 8 != 0;
      if IsControl(opcode) {
        violated := violated || readRemaining > MAX_CONTROL || !final;
      } else if IsData(opcode) {
        violated := violated || !readFinal;
        readFinal := final;
      } else if opcode == CONTINUATION {
        violated := violated || readFinal;
        readFinal := final;
      } else {
        violated := true;
      }
      violated := violated || masked != cfg.server;
      ok := !violated;
    }

    /** Length bytes, masking key and the rest of the frame; st is the state the header was read in. */
    method FinishHeader(b0: Byte, b1: Byte, ghost st: State) returns (op: int, err: Option<Error>)
      requires Valid() && readRemaining == b1 % 128 && (b1 >= 128) == cfg.server
      requires readFinal == if IsControl(b0 % 16) then st.final else b0 >= 128
      requires readMaskKey == st.key && readMaskPos == st.pos && readLength == st.length
      modifies this`input, this`readRemaining, this`readLength, this`readMaskKey, this`readMaskPos, this`replies
      ensures Valid()
      ensures var step := AfterFixedHeader(cfg, st, b0, b1, old(input));
        old(replies) <= replies && Answers(step, replies[|old(replies)|..]) &&
        match step
        case DataFrame(o, st, rest) => err.None? && op == o && St() == st && input == rest
        case ControlFrame(o, _, st, rest) => err.None? && op == o && St() == st && input == rest
        case Failed(e) => err == Some(e)
    {
      hide AfterHeader, Answers, PayloadLength;
      op := -1;
      ghost var s, x := input, ExtraLength(b1);
      // 3. The frame length.
      err := ReadLength(b1);
      if err.Some? {
        AnswersNothing(err.value);
        assert replies[|old(replies)|..] == [];
        return;
      }
      // 4. The masking key.
      ghost var h := x;
      if b1 >= 128 {
        readMaskPos := 0;
        var p, ok := ReadBytes(4);
        if !ok {
          AnswersNothing(UnexpectedEOF);
          assert replies[|old(replies)|..] == [];
          return op, Some(UnexpectedEOF);
        }
        readMaskKey := p;
        h := x + 4;
        assert s[x..h] == s[x..][..4] && s[h..] == s[x..][4..];
      }
      SameAfterHeader(cfg, st, St(), b0, readRemaining, readMaskKey, b1 >= 128, input);
      op, err := FinishFrame(b0, b1 >= 128);
    }

    /** The length bytes of the header, if any. */
    method ReadLength(b1: Byte) returns (err: Option<Error>)
      requires Valid() && readRemaining == b1 % 128
      modifies this`input, this`readRemaining
      ensures Valid()
      ensures var x := ExtraLength(b1); var s := old(input);
        if |s| < x then err == Some(UnexpectedEOF)
        else if Int64(PayloadLength(b1, s[..x])) < 0 then err == Some(Overflow)
        else err.None? && readRemaining == PayloadLength(b1, s[..x]) && input == s[x..]
    {
      err := None;
      if readRemaining == 126 || readRemaining == 127 {
        var p, ok := ReadBytes(if readRemaining == 126 then 2 else 8);
        if !ok {
          return Some(UnexpectedEOF);
        }
        assert p == old(input)[..ExtraLength(b1)];
        FromBEBound(p);
        PowerValues();
        ok := SetReadRemaining(Int64(FromBE(p)));
        if !ok {
          err := Some(Overflow);
        }
      }
    }

    /** The rest of advanceFrame, once the header is read. */
    method FinishFrame(b0: Byte, masked: bool) returns (op: int, err: Option<Error>)
      requires Valid() && masked == cfg.server && (masked ==> readMaskPos == 0)
      requires !IsControl(b0 % 16) ==> readFinal == (b0 >= 128)
      modifies this`input, this`readRemaining, this`readLength, this`replies
      ensures Valid()
      ensures var step := AfterHeader(cfg, old(St()), b0, old(readRemaining), old(readMaskKey), masked, old(input));
        old(replies) <= replies && Answers(step, replies[|old(replies)|..]) &&
        match step
        case DataFrame(o, st, rest) => err.None? && op == o && St() == st && input == rest
        case ControlFrame(o, _, st, rest) => err.None? && op == o && St() == st && input == rest
        case Failed(e) => err == Some(e)
    {
      hide MaskSeq, FromBE, ValidCloseCode;
      op := -1;
      var opcode := b0 % 16;
      // 5. Data frames: enforce the read limit.
      if !IsControl(opcode) {
        var total := Int64(readLength + readRemaining);
        if total < 0 {
          return op, Some(Overflow);
        }
        readLength := total;
        if cfg.limit > 0 && readLength > cfg.limit {
          replies := replies + [Reply(CLOSE, FormatClose(1009, []))];
          return op, Some(Answered(cfg, |input|, ReadLimit));
        }
        return opcode, None;
      }
      // 6. The control frame's payload.
      var payload: seq<Byte> := [];
      if readRemaining > 0 {
        var ok;
        payload, ok := ReadBytes(readRemaining);
        var _ := SetReadRemaining(0);
        if !ok {
          return op, Some(UnexpectedEOF);
        }
        if cfg.server {
          payload := MaskedCopy(readMaskKey, payload);
        }
      } else {
        assert MaskSeq(readMaskKey, 0, []) == [];
        assert old(input)[0..] == old(input);
      }
      op, err := Process(opcode, payload);
    }

    /** What a control frame calls for. */
    method Process(opcode: nat, payload: seq<Byte>) returns (op: int, err: Option<Error>)
      requires Valid() && IsControl(opcode)
      modifies this`replies
      ensures var step := Control(cfg, opcode, payload, St(), input);
        old(replies) <= replies && Answers(step, replies[|old(replies)|..]) &&
        if step.Failed? then err == Some(step.error) else err.None? && op == opcode
    {
      hide FromBE, ValidCloseCode;
      op := -1;
      if opcode == PING {
        replies := replies + [Reply(PONG, payload)];
        if cfg.pingFails(|input|) {
          return op, Some(HandlerFailed(PING));
        }
      } else if opcode == PONG {
        if cfg.pongFails(|input|) {
          return op, Some(HandlerFailed(PONG));
        }
      } else if opcode == CLOSE {
        var closeCode := CLOSE_NO_STATUS;
        if |payload| >= 2 {
          closeCode := FromBE(payload[..2]);
          if !ValidCloseCode(closeCode) || !cfg.utf8(payload[2..]) {
            var e := HandleProtocolError();
            return op, Some(e);
          }
        }
        replies := replies + [Reply(CLOSE, FormatClose(closeCode, []))];
        return op, Some(Answered(cfg, |input|, CloseReceived(closeCode)));
      }
      op, err := opcode, None;
    }

    /** NextReader. */
    method NextReader() returns (op: int, r: MessageReader?, err: Option<Error>)
      requires Valid()
      modifies this
      ensures Valid()
      ensures old(readErr).Some? ==> err == old(readErr) == readErr && r == null && replies == old(replies)
      ensures old(readErr).None? ==>
        match Reading.NextReader(cfg, old(St()), old(input))
        case Next(o, st, rest) =>
          err.None? && readErr.None? && op == o && r != null && fresh(r) && r.c == this && messageReader == r &&
          St() == st && input == rest
        case NoNext(e) => err == Some(e) == readErr && r == null && messageReader == null
    {
      hide Advance, Answers;
      messageReader := null;
      readLength := 0;
      op, r := -1, null;
      ghost var goal := Reading.NextReader(cfg, old(St()), old(input));
      while readErr.None?
        invariant Valid() && messageReader == null && r == null
        invariant readErr.None? && old(readErr).None? ==> NextData(cfg, St(), input) == goal
        invariant readErr.Some? && old(readErr).None? ==> goal == NoNext(readErr.value)
        invariant old(readErr).Some? ==> readErr == old(readErr) && replies == old(replies)
        decreases readErr.None?, |input|
      {
        NextDataStep(cfg, St(), input);
        var frameType, e := AdvanceFrame();
        if e.Some? {
          readErr := e;
        } else if IsData(frameType) {
          r := new MessageReader(this);
          messageReader := r;
          return frameType, r, None;
        }
      }
      err := readErr;
    }
  }

  lemma AnswersNothing(e: Error)
    requires e == UnexpectedEOF || e == Overflow || e == EOF
    ensures Answers(Failed(e), [])
  {
  }

  lemma AnswersViolation(replies: seq<Reply>)
    requires |replies| == 1 && replies[0].op == CLOSE && BE(1002, 2) <= replies[0].data
    requires |replies[0].data| <= MAX_CONTROL
    ensures Answers(Failed(ProtocolError), replies) && Answers(Failed(ReplyFailed(ProtocolError)), replies)
  {
  }

  lemma {:induction false} ReadMessageStep(cfg: Config, st: State, s: seq<Byte>)
    ensures st.rem > 0 && s == [] ==> ReadMessage(cfg, st, s) == Cut([], UnexpectedEOF)
    ensures st.rem == 0 && st.final ==> ReadMessage(cfg, st, s) == Whole([], st, s)
    ensures st.rem == 0 && !st.final ==>
      ReadMessage(cfg, st, s) ==
      (var step := Advance(cfg, st, s);
       if step.Failed? then Cut([], step.error) else ReadMessage(cfg, step.st, step.rest))
    ensures Advance(cfg, st, s) != Failed(EOF)
    ensures !st.final && Advance(cfg, st, s).DataFrame? ==> Advance(cfg, st, s).op == CONTINUATION
    ensures Advance(cfg, st, s).ControlFrame? ==> IsControl(Advance(cfg, st, s).op)
    ensures s[0..] == s && st.rem == 0 ==> st.(rem := 0) == st
  {
    hide Advance;
    InMessageStep(cfg, st, s);
    ControlStep(cfg, st, s);
  }

  lemma {:induction false} NothingRead(cfg: Config, st: State, s: seq<Byte>)
    ensures Unmask(cfg, st, []) == []
    ensures ReadMessage(cfg, st, s) == ReadMessage(cfg, st, s).Prepend([])
  {
    hide ReadMessage;
    PrependNothing(ReadMessage(cfg, st, s));
  }

  lemma {:induction false} NextDataStep(cfg: Config, st: State, s: seq<Byte>)
    ensures NextData(cfg, st, s) ==
      if |s| < st.rem then NoNext(EOF) else
      var step := Advance(cfg, st.(rem := 0), s[st.rem..]);
      if step.Failed? then NoNext(step.error)
      else if step.DataFrame? && IsData(step.op) then Next(step.op, step.st, step.rest)
      else NextData(cfg, step.st, step.rest)
    ensures |s| >= st.rem && Advance(cfg, st.(rem := 0), s[st.rem..]).ControlFrame? ==>
      IsControl(Advance(cfg, st.(rem := 0), s[st.rem..]).op)
  {
    if |s| >= st.rem {
      var t := s[st.rem..];
      ControlStep(cfg, st.(rem := 0), t);
    }
  }

  lemma ControlStep(cfg: Config, st: State, s: seq<Byte>)
    ensures Advance(cfg, st, s).ControlFrame? ==> IsControl(Advance(cfg, st, s).op)
  {
    hide MaskSeq, PayloadLength, ExtraLength, CountLength, ValidCloseCode;
  }

  /** AfterHeader looks at no more of the state than the header leaves in place. */
  lemma SameAfterHeader(cfg: Config, st: State, st': State, b0: Byte, n: nat, key: Key, masked: bool, s: seq<Byte>)
    requires st'.length == st.length && (masked || st'.pos == st.pos)
    requires IsControl(b0 % 16) ==> st'.final == st.final
    ensures AfterHeader(cfg, st', b0, n, key, masked, s) == AfterHeader(cfg, st, b0, n, key, masked, s)
  {
    hide MaskSeq;
  }

  /** What Read reports together with payload when the transport ends, rem bytes before the end of the frame. */
  function EarlyError(rem: int): Error {
    if rem > 0 then UnexpectedEOF else EOF
  }

  /**
   * When the last payload p of the stream comes together with its end, the report is right unless it
   * completes a frame that is not the last of its message: then io.EOF makes a cut message look whole.
   */
  lemma {:induction false} EarlyEndReport(cfg: Config, st: State, p: seq<Byte>)
    requires 0 < |p| <= st.rem
    ensures (EarlyError(st.rem - |p|) == EOF <==> ReadMessage(cfg, st, p).Whole?) <==> !(|p| == st.rem && !st.final)
  {
    hide Unmask, AfterFixedHeader;
    var st' := Consume(cfg, st, |p|);
    assert p[..|p|] == p && p[|p|..] == [];
    assert ReadMessage(cfg, st', []).Whole? <==> st'.rem == 0 && st.final;
  }

  class MessageReader {
    const c: ReadConn

    constructor (c: ReadConn)
      ensures this.c == c
    {
      this.c := c;
    }

    /** The branch of Read that delivers payload of the current frame. */
    method ReadPayload(b: array<Byte>, lo: nat, hi: nat) returns (n: nat, err: Option<Error>, ghost early: bool)
      requires c.Valid() && lo <= hi <= b.Length && c.readErr.None? && c.readRemaining > 0
      modifies c`input, c`readErr, c`readMaskPos, c`readRemaining, b
      ensures c.Valid() && n <= hi - lo && c.readErr == err
      ensures b[..lo] == old(b[..lo]) && b[lo + n..] == old(b[lo + n..])
      ensures ReadMessage(c.cfg, old(c.St()), old(c.input)) ==
        ReadMessage(c.cfg, c.St(), c.input).Prepend(b[lo..lo + n])
      ensures early <==> n > 0 && err.Some?
      ensures early ==> c.eager && c.input == []
      ensures early ==> err == Some(EarlyError(c.readRemaining))
      ensures err.None? && lo < hi ==> n > 0
      ensures n == 0 && err.Some? ==> err == Some(UnexpectedEOF) && old(c.input) == []
      ensures early ==> PayloadEnd(c.cfg, old(c.St()), old(c.input)) == Some(c.St())
      ensures SameEnd(c.cfg, old(c.St()), old(c.input), c.St(), c.input)
    {
      hide MaskSeq, ReadMessage, Advance, Unmask, MessageEnd.Prepend, PayloadEnd;
      ghost var st, s := c.St(), c.input;
      ghost var p;
      var eof;
      n, eof, p := Fetch(b, lo, if hi - lo > c.readRemaining then c.readRemaining else hi - lo);
      c.readErr := if eof then Some(EOF) else None;
      var ok := c.SetReadRemaining(c.readRemaining - n);
      if n > 0 {
        ReadChunk(c.cfg, st, p, c.input);
        PayloadEndChunk(c.cfg, st, p, c.input);
      } else {
        assert p + c.input == c.input;
        NothingRead(c.cfg, st, s);
      }
      if c.readRemaining > 0 && c.readErr == Some(EOF) {
        c.readErr := Some(UnexpectedEOF);
      }
      early := n > 0 && eof;
      err := c.readErr;
    }

    /** br.Read into b[lo..lo + k], and unmasking of what it delivered. */
    method Fetch(b: array<Byte>, lo: nat, k: nat) returns (n: nat, eof: bool, ghost p: seq<Byte>)
      requires c.Valid() && lo + k <= b.Length && k <= c.readRemaining
      modifies c`input, c`readMaskPos, b
      ensures c.Valid() && n == |p| <= k && old(c.input) == p + c.input
      ensures b[..lo] == old(b[..lo]) && b[lo + n..] == old(b[lo + n..])
      ensures b[lo..lo + n] == Unmask(c.cfg, old(c.St()), p)
      ensures c.readMaskPos == if c.cfg.server then (old(c.readMaskPos) + n) % 4 else old(c.readMaskPos)
      ensures eof ==> c.input == [] && (n > 0 ==> c.eager)
      ensures k > 0 ==> n > 0 || eof
    {
      hide MaskSeq;
      ghost var st := c.St();
      var q;
      q, eof := c.BufferedRead(k);
      p, n := q, |q|;
      assert c.readMaskKey == st.key && c.readMaskPos == st.pos;
      var next := Deliver(b, lo, q);
      c.readMaskPos := next;
    }

    /** The bytes read, in b and unmasked in place. */
    method Deliver(b: array<Byte>, lo: nat, q: seq<Byte>) returns (next: Phase)
      requires lo + |q| <= b.Length
      modifies b
      ensures b[..lo] == old(b[..lo]) && b[lo + |q|..] == old(b[lo + |q|..])
      ensures b[lo..lo + |q|] == if c.cfg.server then MaskSeq(c.readMaskKey, c.readMaskPos, q) else q
      ensures next == if c.cfg.server then (c.readMaskPos + |q|) % 4 else c.readMaskPos
    {
      hide MaskSeq;
      Copy(b, lo, q);
      next := c.readMaskPos;
      if c.cfg.server {
        var addr: nat := *;
        next := MaskBytesWord(c.readMaskKey, c.readMaskPos, b, lo, lo + |q|, addr, WORD_SIZE);
      }
    }

    /**
     * Read into b[lo..hi]. early tells that the transport reported the end of the stream together with
     * the bytes it delivered.
     */
    method Read(b: array<Byte>, lo: nat, hi: nat) returns (n: nat, err: Option<Error>, ghost early: bool)
      requires c.Valid() && lo <= hi <= b.Length
      modifies c, b
      ensures c.Valid() && n <= hi - lo
      ensures b[..lo] == old(b[..lo]) && b[lo + n..] == old(b[lo + n..])
      // A reader the application has left behind, or one on a failed connection.
      ensures old(c.messageReader) != this ==> n == 0 && err == Some(EOF) && unchanged(c)
      ensures old(c.messageReader) == this && old(c.readErr).Some? ==>
        n == 0 && unchanged(c) && err == if old(c.readErr) == Some(EOF) then Some(UnexpectedEOF) else old(c.readErr)
      // The current reader delivers the message, in whatever pieces.
      ensures old(c.messageReader) == this && old(c.readErr).None? && !early ==>
        var now := ReadMessage(c.cfg, old(c.St()), old(c.input));
        match err
        case None => c.messageReader == this && c.readErr.None? && (lo < hi ==> n > 0) &&
          now == ReadMessage(c.cfg, c.St(), c.input).Prepend(b[lo..lo + n])
        case Some(EOF) => n == 0 && now == Whole([], c.St(), c.input) && c.messageReader == null && c.readErr.None?
        case Some(e) => n == 0 && now == Cut([], e) && c.readErr == err && c.messageReader == this
      // The end of the stream together with payload.
      ensures early ==> c.eager && n > 0 && c.input == [] && c.messageReader == this && c.readErr == err
      ensures early ==>
        ReadMessage(c.cfg, old(c.St()), old(c.input)) == ReadMessage(c.cfg, c.St(), []).Prepend(b[lo..lo + n])
      ensures early ==> err == Some(EarlyError(c.readRemaining))
      ensures early ==> PayloadEnd(c.cfg, old(c.St()), old(c.input)) == Some(c.St())
      // On the way to the same end of the stream.
      ensures old(c.messageReader) == this && c.readErr.None? ==>
        SameEnd(c.cfg, old(c.St()), old(c.input), c.St(), c.input)
    {
      hide ReadMessage, Advance, Answers, PayloadEnd;
      n, err, early := 0, Some(EOF), false;
      if c.messageReader != this {
        return;
      }
      ghost var goal := ReadMessage(c.cfg, old(c.St()), old(c.input));
      ghost var end := PayloadEnd(c.cfg, old(c.St()), old(c.input));
      while c.readErr.None?
        invariant c.Valid() && c.messageReader == this && !early
        invariant n == 0 && err == Some(EOF) && b[..] == old(b[..])
        invariant c.readErr.None? && old(c.readErr).None? ==> ReadMessage(c.cfg, c.St(), c.input) == goal
        invariant c.readErr.None? && old(c.readErr).None? ==>
          PayloadEnd(c.cfg, c.St(), c.input) == end && |c.input| <= |old(c.input)|
        invariant c.readErr.Some? && old(c.readErr).None? ==> goal == Cut([], c.readErr.value) && c.readErr != Some(EOF)
        invariant old(c.readErr).Some? ==> unchanged(c)
        decreases c.readErr.None?, |c.input|
      {
        ReadMessageStep(c.cfg, c.St(), c.input);
        if c.readRemaining > 0 {
          n, err, early := ReadPayload(b, lo, hi);
          return;
        }
        if c.readFinal {
          c.messageReader := null;
          return;
        }
        ghost var st, s := c.St(), c.input;
        var frameType, e := c.AdvanceFrame();
        if e.Some? {
          c.readErr := e;
        } else if IsData(frameType) {
          // The internal error of a data opener inside a message never comes up.
          assert false;
        } else {
          PayloadEndStep(c.cfg, st, s);
        }
      }
      err := if c.readErr == Some(EOF) then Some(UnexpectedEOF) else c.readErr;
    }
  }
}
