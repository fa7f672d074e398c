/**
 * RFC 6455 octet by octet: what third-party/websocket/conn.go puts on the wire and how it takes what it
 * finds there, in numbers (the figures of sections 5.2 and 7.4 and the examples of section 5.7).
 */
module Octets {
  import opened Bytes
  import opened Masking
  import opened Frames
  import opened Reading
  import opened Streams
  import opened ReadConns
  import opened WriteConns

  // ----- Writing -----

  /** The payload length behind the first octet, in the shortest of its three forms. */
  function LengthOctets(masked: bool, n: nat): seq<Byte>
    requires n < 0x8000_0000_0000_0000
  {
    var m := if masked then 128 else 0;
    if n <= 125 then [m + n]
    else if n <= 65535 then [m + 126, n / 256, n % 256]
    else
      [m + 127, n / 0x100_0000_0000_0000, n / 0x1_0000_0000_0000 % 256, n / 0x100_0000_0000 % 256,
       n / 0x1_0000_0000 % 256, n / 0x100_0000 % 256, n / 0x1_0000 % 256, n / 256 % 256, n % 256]
  }

  /**
   * The octets of a frame with first octet b0 and payload p as written in the given role; a server has
   * no use for the key.
   */
  function Octets(server: bool, b0: Byte, key: Key, p: seq<Byte>): seq<Byte>
    requires |p| < 0x8000_0000_0000_0000
  {
    [b0] + LengthOctets(!server, |p|) + if server then p else key + MaskSeq(key, 0, p)
  }

  lemma {:induction false} BigEndian2(n: nat)
    requires n < 0x1_0000
    ensures BE(n, 2) == [n / 256, n % 256] && FromBE([n / 256, n % 256]) == n
  {
    PowerValues();
    FromBEOfBE(n, 2);
    assert BE(n / 256, 1) == BE(0, 0) + [n / 256];
    assert BE(n, 2) == BE(n / 256, 1) + [n % 256];
  }

  lemma {:induction false} BigEndian8(n: nat)
    requires n < 0x1_0000_0000_0000_0000
    ensures BE(n, 8) ==
      [n / 0x100_0000_0000_0000, n / 0x1_0000_0000_0000 % 256, n / 0x100_0000_0000 % 256, n / 0x1_0000_0000 % 256,
       n / 0x100_0000 % 256, n / 0x1_0000 % 256, n / 256 % 256, n % 256]
  {
    assert n / 256 / 256 == n / 0x1_0000;
    assert n / 0x1_0000 / 256 == n / 0x100_0000;
    assert n / 0x100_0000 / 256 == n / 0x1_0000_0000;
    assert n / 0x1_0000_0000 / 256 == n / 0x100_0000_0000;
    assert n / 0x100_0000_0000 / 256 == n / 0x1_0000_0000_0000;
    assert n / 0x1_0000_0000_0000 / 256 == n / 0x100_0000_0000_0000;
    assert BE(n / 0x100_0000_0000_0000, 1) == [n / 0x100_0000_0000_0000];
    assert BE(n / 0x1_0000_0000_0000, 2) == BE(n / 0x100_0000_0000_0000, 1) + [n / 0x1_0000_0000_0000 % 256];
    assert BE(n / 0x100_0000_0000, 3) == BE(n / 0x1_0000_0000_0000, 2) + [n / 0x100_0000_0000 % 256];
    assert BE(n / 0x1_0000_0000, 4) == BE(n / 0x100_0000_0000, 3) + [n / 0x1_0000_0000 % 256];
    assert BE(n / 0x100_0000, 5) == BE(n / 0x1_0000_0000, 4) + [n / 0x100_0000 % 256];
    assert BE(n / 0x1_0000, 6) == BE(n / 0x100_0000, 5) + [n / 0x1_0000 % 256];
    assert BE(n / 256, 7) == BE(n / 0x1_0000, 6) + [n / 256 % 256];
  }

  lemma FixedOctets(server: bool, fin: bool, op: nat, n: nat)
    requires op < 16 && n < 0x8000_0000_0000_0000
    ensures FixedHeader(server, fin, op, n) == [op + if fin then 0x80 else 0] + LengthOctets(!server, n)
  {
    hide BE;
    if n >= 65536 {
      BigEndian8(n);
    } else if n > 125 {
      BigEndian2(n);
    }
  }

  /** Any frame as either role writes it. */
  lemma {:induction false} WrittenOctets(server: bool, fin: bool, op: nat, p: seq<Byte>, key: Key)
    requires op < 16 && |p| < 0x8000_0000_0000_0000
    ensures Raw(server, Frame(fin, op, p), key).Wire() ==
      Octets(server, op + if fin then 0x80 else 0, key, p)
  {
    hide MaskSeq, Raw, RawFrame.Wire, FixedHeader, LengthOctets;
    var h := FixedHeader(server, fin, op, |p|);
    FrameWire(server, Frame(fin, op, p), key);
    FixedOctets(server, fin, op, |p|);
    if server {
      assert h + [] == h;
    } else {
      Assoc(h, key, MaskSeq(key, 0, p));
    }
  }

  /** What a server writes for each kind of frame. */
  lemma {:induction false} ServerOctets(p: seq<Byte>, key: Key)
    requires |p| <= 125
    ensures Raw(true, Frame(true, TEXT, p), key).Wire() == [0x81, |p|] + p
    ensures Raw(true, Frame(false, TEXT, p), key).Wire() == [0x01, |p|] + p
    ensures Raw(true, Frame(true, BINARY, p), key).Wire() == [0x82, |p|] + p
    ensures Raw(true, Frame(false, BINARY, p), key).Wire() == [0x02, |p|] + p
    ensures Raw(true, Frame(true, CONTINUATION, p), key).Wire() == [0x80, |p|] + p
    ensures Raw(true, Frame(false, CONTINUATION, p), key).Wire() == [0x00, |p|] + p
    ensures Raw(true, Frame(true, CLOSE, p), key).Wire() == [0x88, |p|] + p
    ensures Raw(true, Frame(true, PING, p), key).Wire() == [0x89, |p|] + p
    ensures Raw(true, Frame(true, PONG, p), key).Wire() == [0x8A, |p|] + p
  {
    hide Raw, RawFrame.Wire;
    forall fin, op: nat | op < 16
      ensures Raw(true, Frame(fin, op, p), key).Wire() == [op + if fin then 0x80 else 0, |p|] + p
    {
      WrittenOctets(true, fin, op, p, key);
    }
  }

  /** Whether two numbers differ in their lowest bit. */
  function Differ(a: nat, b: nat): nat {
    if a % 2 == b % 2 then 0 else 1
  }

  lemma {:induction false} XorDigit(a: nat, b: nat)
    ensures Xor(a, b) == Differ(a, b) + 2 * Xor(a / 2, b / 2)
  {
    hide Xor;
    XorStep(a / 2, b / 2, a % 2, b % 2);
    assert a == 2 * (a / 2) + a % 2 && b == 2 * (b / 2) + b % 2;
  }

  lemma {:induction false} XorFourDigits(a: nat, b: nat)
    ensures Xor(a, b) ==
      Differ(a, b) + 2 * Differ(a / 2, b / 2) + 4 * Differ(a / 4, b / 4) + 8 * Differ(a / 8, b / 8) +
      16 * Xor(a / 16, b / 16)
  {
    hide Xor, Differ;
    XorDigit(a, b);
    XorDigit(a / 2, b / 2);
    XorDigit(a / 4, b / 4);
    XorDigit(a / 8, b / 8);
    assert a / 2 / 2 == a / 4 && a / 4 / 2 == a / 8 && a / 8 / 2 == a / 16;
    assert b / 2 / 2 == b / 4 && b / 4 / 2 == b / 8 && b / 8 / 2 == b / 16;
  }

  /** Exclusive or of two octets, bit by bit. */
  lemma {:induction false} XorOctets(a: Byte, b: Byte)
    ensures Xor(a, b) ==
      Differ(a, b) + 2 * Differ(a / 2, b / 2) + 4 * Differ(a / 4, b / 4) + 8 * Differ(a / 8, b / 8) +
      16 * Differ(a / 16, b / 16) + 32 * Differ(a / 32, b / 32) + 64 * Differ(a / 64, b / 64) +
      128 * Differ(a / 128, b / 128)
  {
    hide Xor, Differ;
    XorFourDigits(a, b);
    XorFourDigits(a / 16, b / 16);
    XorZero();
    assert a / 16 / 2 == a / 32 && a / 16 / 4 == a / 64 && a / 16 / 8 == a / 128 && a / 16 / 16 == 0;
    assert b / 16 / 2 == b / 32 && b / 16 / 4 == b / 64 && b / 16 / 8 == b / 128 && b / 16 / 16 == 0;
  }

  /** Octet i of a masked payload, bit by bit. */
  lemma MaskedOctet(key: Key, p: seq<Byte>, i: nat)
    requires i < |p|
    ensures var a, b := p[i], key[i % 4];
      MaskSeq(key, 0, p)[i] ==
      Differ(a, b) + 2 * Differ(a / 2, b / 2) + 4 * Differ(a / 4, b / 4) + 8 * Differ(a / 8, b / 8) +
      16 * Differ(a / 16, b / 16) + 32 * Differ(a / 32, b / 32) + 64 * Differ(a / 64, b / 64) +
      128 * Differ(a / 128, b / 128)
  {
    hide Differ, Xor;
    XorOctets(p[i], key[i % 4]);
  }

  // ----- Reading: the first two octets -----

  /**
   * Of the 65536 pairs of first octets a reader takes those with the mask bit of its role and an opening
   * text or binary frame between messages (final), a continuation within one, or a whole close, ping or
   * pong of at most 125 octets.
   */
  lemma HeaderOctets(cfg: Config, final: bool, b0: Byte, b1: Byte)
    ensures HeaderOk(cfg, final, b0, b1) <==>
      (if cfg.server then b1 >= 128 else b1 < 128) &&
      ((final && b0 in {0x01, 0x81, 0x02, 0x82}) || (!final && b0 in {0x00, 0x80}) ||
       (b0 in {0x88, 0x89, 0x8A} && b1 % 128 <= 125))
  {
  }

  /** All others are violations, answered as such. */
  lemma Refused(cfg: Config, st: State, b0: Byte, b1: Byte, rest: seq<Byte>)
    requires cfg.server != (b1 >= 128) ||
      !((st.final && b0 in {0x01, 0x81, 0x02, 0x82}) || (!st.final && b0 in {0x00, 0x80}) ||
        (b0 in {0x88, 0x89, 0x8A} && b1 % 128 <= 125))
    ensures Advance(cfg, st, [b0, b1] + rest) == Failed(Answered(cfg, |rest|, ProtocolError))
    ensures Advance(cfg, st, [b0, b1] + rest) ==
      Failed(if cfg.closeFails(|rest|) then ReplyFailed(ProtocolError) else ProtocolError)
  {
    hide HeaderOk;
    HeaderOctets(cfg, st.final, b0, b1);
  }

  /** The reader's fields behind the header of such a frame. */
  function Behind(cfg: Config, st: State, key: Key, final: bool, rem: nat, length: nat): State {
    State(final, rem, if cfg.server then key else st.key, if cfg.server then 0 else st.pos, length)
  }

  lemma {:induction false} OctetsRead(cfg: Config, b0: Byte, key: Key, p: seq<Byte>, rest: seq<Byte>)
    requires b0 / 16 in {0, 8} && |p| < 0x8000_0000_0000_0000
    ensures var r := Raw(!cfg.server, Frame(b0 >= 128, b0 % 16, p), key);
      r.Wire() == Octets(!cfg.server, b0, key, p) && r.fin == (b0 >= 128) && r.op == b0 % 16 && r.rsv == 0 &&
      r.key == key && r.masked == cfg.server && r.body == (if cfg.server then MaskSeq(key, 0, p) else p) &&
      r.Payload() == p && r.form == FormOf(|p|)
  {
    hide MaskSeq;
    WrittenOctets(!cfg.server, b0 >= 128, b0 % 16, p, key);
  }

  /** Frames with opcodes of section 11.8 as the reader takes them, one by one; a data frame's payload comes next. */
  lemma {:induction false} DataOctets(cfg: Config, st: State, b0: Byte, key: Key, p: seq<Byte>, rest: seq<Byte>)
    requires st.length + |p| < 0x8000_0000_0000_0000 && (cfg.limit == 0 || st.length + |p| <= cfg.limit)
    requires if st.final then b0 in {0x01, 0x81, 0x02, 0x82} else b0 in {0x00, 0x80}
    ensures Advance(cfg, st, Octets(!cfg.server, b0, key, p) + rest) ==
      DataFrame(if b0 in {0x01, 0x81} then 1 else if b0 in {0x02, 0x82} then 2 else 0,
                Behind(cfg, st, key, b0 in {0x80, 0x81, 0x82}, |p|, st.length + |p|),
                (if cfg.server then MaskSeq(key, 0, p) else p) + rest)
  {
    hide MaskSeq, Raw, RawFrame.Wire, RawFrame.Header, Advance, Octets;
    var r := Raw(!cfg.server, Frame(b0 >= 128, b0 % 16, p), key);
    var a := Assembly([], if st.final then None else Some(Message(1, [])), false);
    OctetsRead(cfg, b0, key, p, rest);
    RawValid(!cfg.server, Frame(b0 >= 128, b0 % 16, p), key);
    AdvanceHeader(cfg, a, st, r, r.body + rest);
    WireParts(r);
    Assoc(r.Header(), r.body, rest);
    CountIsExact(cfg, st.length, |p|);
    AfterDataHeader(cfg, st, st.length, r, rest);
  }

  lemma RawValid(server: bool, f: Frame, key: Key)
    requires f.op < 16 && |f.payload| < TWO_63
    ensures Raw(server, f, key).Valid() && Raw(server, f, key).ToFrame() == f
  {
  }

  /** One frame too many for the limit is refused, and answered with 1009. */
  lemma {:induction false} LimitOctets(cfg: Config, st: State, b0: Byte, key: Key, p: seq<Byte>, rest: seq<Byte>)
    requires st.length + |p| < 0x8000_0000_0000_0000 && 0 < cfg.limit < st.length + |p|
    requires if st.final then b0 in {0x01, 0x81, 0x02, 0x82} else b0 in {0x00, 0x80}
    ensures Advance(cfg, st, Octets(!cfg.server, b0, key, p) + rest) == Failed(Answered(cfg, |p| + |rest|, ReadLimit))
  {
    hide MaskSeq, Raw, RawFrame.Wire, RawFrame.Header, Advance, Octets;
    var r := Raw(!cfg.server, Frame(b0 >= 128, b0 % 16, p), key);
    var a := Assembly([], if st.final then None else Some(Message(1, [])), false);
    OctetsRead(cfg, b0, key, p, rest);
    RawValid(!cfg.server, Frame(b0 >= 128, b0 % 16, p), key);
    AdvanceHeader(cfg, a, st, r, r.body + rest);
    WireParts(r);
    Assoc(r.Header(), r.body, rest);
    CountIsExact(cfg, st.length, |p|);
  }

  /** A ping or a pong, at any point of a message. */
  lemma {:induction false} PingPongOctets(cfg: Config, st: State, b0: Byte, key: Key, p: seq<Byte>, rest: seq<Byte>)
    requires b0 in {0x89, 0x8A} && |p| <= 125
    ensures Advance(cfg, st, Octets(!cfg.server, b0, key, p) + rest) ==
      if (if b0 == 0x89 then cfg.pingFails(|rest|) else cfg.pongFails(|rest|)) then Failed(HandlerFailed(b0 % 16))
      else ControlFrame(b0 % 16, p, Behind(cfg, st, key, st.final, 0, st.length), rest)
  {
    hide RawFrame.Wire, RawFrame.Header, Raw, Octets, Advance;
    ControlOctets(cfg, st, b0, key, p, rest);
  }

  lemma {:induction false} ControlOctets(cfg: Config, st: State, b0: Byte, key: Key, p: seq<Byte>, rest: seq<Byte>)
    requires b0 in {0x88, 0x89, 0x8A} && |p| <= 125
    ensures Advance(cfg, st, Octets(!cfg.server, b0, key, p) + rest) ==
      Control(cfg, b0 % 16, p, Behind(cfg, st, key, st.final, 0, st.length), rest)
  {
    hide MaskSeq, Raw, RawFrame.Wire, RawFrame.Header, Advance, Octets, Control;
    var r := Raw(!cfg.server, Frame(b0 >= 128, b0 % 16, p), key);
    var a := Assembly([], if st.final then None else Some(Message(1, [])), false);
    OctetsRead(cfg, b0, key, p, rest);
    RawValid(!cfg.server, Frame(b0 >= 128, b0 % 16, p), key);
    AdvanceHeader(cfg, a, st, r, r.body + rest);
    WireParts(r);
    Assoc(r.Header(), r.body, rest);
    assert (r.body + rest)[..|r.body|] == r.body && (r.body + rest)[|r.body|..] == rest;
    MaskTwice(key, 0, p);
  }

  // ----- Reading: close frames -----

  /** The status codes an endpoint may be sent (section 7.4). */
  predicate StatusCode(code: nat) {
    1000 <= code <= 1003 || 1007 <= code <= 1013 || 3000 <= code <= 4999
  }

  /** The code at the head of a close payload. */
  function Status(p: seq<Byte>): nat
    requires |p| >= 2
  {
    p[0] as int * 256 + p[1] as int
  }

  /** A close frame with a code and a text is reported with its code exactly when both are valid. */
  lemma {:induction false} CloseOctets(cfg: Config, st: State, key: Key, c: nat, text: seq<Byte>, rest: seq<Byte>)
    requires c < 0x1_0000 && |text| <= 123
    ensures Advance(cfg, st, Octets(!cfg.server, 0x88, key, [c / 256, c % 256] + text) + rest) ==
      Failed(Answered(cfg, |rest|, if StatusCode(c) && cfg.utf8(text) then CloseReceived(c) else ProtocolError))
  {
    hide Advance, Octets, FromBE;
    var p := [c / 256, c % 256] + text;
    ControlOctets(cfg, st, 0x88, key, p, rest);
    assert p[..2] == [c / 256, c % 256] && p[2..] == text;
    BigEndian2(c);
  }

  /** Without a whole code there is none to be wrong: 1005 is reported. */
  lemma {:induction false} BareCloseOctets(cfg: Config, st: State, key: Key, p: seq<Byte>, rest: seq<Byte>)
    requires |p| <= 1
    ensures Advance(cfg, st, Octets(!cfg.server, 0x88, key, p) + rest) ==
      Failed(Answered(cfg, |rest|, CloseReceived(1005)))
  {
    hide Advance, Octets;
    ControlOctets(cfg, st, 0x88, key, p, rest);
  }

  // ----- The answers, as this endpoint writes them -----

  /** A single reply, whose frame begins with octet b0 and has payload p. */
  ghost predicate OneReply(server: bool, replies: seq<Reply>, b0: Byte, p: seq<Byte>) {
    |replies| == 1 && replies[0].op < 16 && |replies[0].data| < 0x8000_0000_0000_0000 && |p| < 0x8000_0000_0000_0000 &&
    forall key :: Raw(server, Frame(true, replies[0].op, replies[0].data), key).Wire() == Octets(server, b0, key, p)
  }

  lemma {:induction false} ReplyOctets(server: bool, r: Reply)
    requires r.op < 16 && |r.data| < 0x8000_0000_0000_0000
    ensures OneReply(server, [r], 0x80 + r.op, r.data)
  {
    hide Raw, RawFrame.Wire, Octets;
    forall key: Key
      ensures Raw(server, Frame(true, r.op, r.data), key).Wire() == Octets(server, 0x80 + r.op, key, r.data)
    {
      WrittenOctets(server, true, r.op, r.data, key);
    }
  }

  /** A ping is answered by a pong with its payload, a pong by nothing. */
  lemma {:induction false} PingAnswered(
      cfg: Config, st: State, b0: Byte, key: Key, p: seq<Byte>, rest: seq<Byte>, replies: seq<Reply>)
    requires b0 in {0x89, 0x8A} && |p| <= 125
    requires Answers(Advance(cfg, st, Octets(!cfg.server, b0, key, p) + rest), replies)
    ensures b0 == 0x89 && !cfg.pingFails(|rest|) ==> OneReply(cfg.server, replies, 0x8A, p)
    ensures b0 == 0x89 && cfg.pingFails(|rest|) ==> |replies| == 1 && replies[0].op == 10
    ensures b0 == 0x8A ==> replies == []
  {
    hide Advance, Octets, OneReply;
    PingPongOctets(cfg, st, b0, key, p, rest);
    if b0 == 0x89 && !cfg.pingFails(|rest|) {
      ReplyOctets(cfg.server, replies[0]);
      assert replies == [replies[0]];
    }
  }

  /** A valid close is answered by one of the same code; a violation within it by 1002 (0x03EA). */
  lemma {:induction false} CloseAnswered(
      cfg: Config, st: State, key: Key, c: nat, text: seq<Byte>, rest: seq<Byte>, replies: seq<Reply>)
    requires c < 0x1_0000 && |text| <= 123
    ensures Answers(Advance(cfg, st, Octets(!cfg.server, 0x88, key, [c / 256, c % 256] + text) + rest), replies) ==>
      if StatusCode(c) && cfg.utf8(text) then OneReply(cfg.server, replies, 0x88, [c / 256, c % 256])
      else exists why :: OneReply(cfg.server, replies, 0x88, [0x03, 0xEA] + why)
  {
    hide Advance, Octets, OneReply, BE;
    CloseOctets(cfg, st, key, c, text, rest);
    if !Answers(Advance(cfg, st, Octets(!cfg.server, 0x88, key, [c / 256, c % 256] + text) + rest), replies) {
      return;
    }
    ReplyOctets(cfg.server, replies[0]);
    assert replies == [replies[0]];
    BigEndian2(c);
    BigEndian2(1002);
    if StatusCode(c) && cfg.utf8(text) {
      assert [c / 256, c % 256] + [] == [c / 256, c % 256];
    } else {
      assert replies[0].data == [0x03, 0xEA] + replies[0].data[2..];
    }
  }

  /** A close without a code is answered by one without a code. */
  lemma {:induction false} BareCloseAnswered(
      cfg: Config, st: State, key: Key, p: seq<Byte>, rest: seq<Byte>, replies: seq<Reply>)
    requires |p| <= 1 && Answers(Advance(cfg, st, Octets(!cfg.server, 0x88, key, p) + rest), replies)
    ensures OneReply(cfg.server, replies, 0x88, [])
  {
    hide Advance, Octets, OneReply;
    BareCloseOctets(cfg, st, key, p, rest);
    ReplyOctets(cfg.server, replies[0]);
    assert replies == [replies[0]];
  }

  /** Refused octets are answered by a close with 1002, a message over the limit by a bare 1009 (0x03F1). */
  lemma {:induction false} RefusalAnswered(cfg: Config, step: Step, left: nat, replies: seq<Reply>)
    requires Answers(step, replies)
    ensures step == Failed(Answered(cfg, left, ProtocolError)) ==>
      exists why :: OneReply(cfg.server, replies, 0x88, [0x03, 0xEA] + why)
    ensures step == Failed(Answered(cfg, left, ReadLimit)) ==> OneReply(cfg.server, replies, 0x88, [0x03, 0xF1])
  {
    hide OneReply, BE;
    BigEndian2(1002);
    BigEndian2(1009);
    if step.Failed? && Cause(step.error) in {ProtocolError, ReadLimit} {
      ReplyOctets(cfg.server, replies[0]);
      assert replies == [replies[0]];
      if Cause(step.error) == ProtocolError {
        assert replies[0].data == [0x03, 0xEA] + replies[0].data[2..];
      } else {
        assert [0x03, 0xF1] + [] == [0x03, 0xF1];
      }
    }
  }

  // ----- Messages -----

  /** One unfragmented message, text (1) or binary (2). */
  lemma {:induction false} MessageOctets(cfg: Config, t: nat, key: Key, p: seq<Byte>)
    requires t in {1, 2} && |p| < 0x8000_0000_0000_0000 && (cfg.limit == 0 || |p| <= cfg.limit) && cfg.Patient()
    ensures ReadAll(cfg, START, Octets(!cfg.server, 0x80 + t, key, p)) == Outcome([Message(t, p)], None, UnexpectedEOF)
  {
    hide MaskSeq, Octets, Raw, RawFrame.Wire, ReadAll;
    var f := Frame(true, t, p);
    var fs, keys := [f], [key];
    WrittenOctets(!cfg.server, true, t, p, key);
    assert fs[1..] == [] && Accepts(EMPTY, f);
    assert Fold(EMPTY, fs) == Feed(EMPTY, f) == Assembly([Message(t, p)], None, false);
    RoundTrip(cfg, fs, keys);
    var rs := RawAll(!cfg.server, fs, keys);
    assert rs[1..] == [] && WireAll(rs) == rs[0].Wire() + WireAll([]) == rs[0].Wire();
  }

  /** A message in two fragments, with a ping between them. */
  lemma {:induction false} FragmentedOctets(
      cfg: Config, t: nat, k1: Key, p: seq<Byte>, k2: Key, c: seq<Byte>, k3: Key, q: seq<Byte>)
    requires t in {1, 2} && |c| <= 125 && |p| + |q| < 0x8000_0000_0000_0000 && cfg.Patient()
    requires cfg.limit == 0 || |p| + |q| <= cfg.limit
    ensures ReadAll(cfg, START, Octets(!cfg.server, t, k1, p) +
                                (Octets(!cfg.server, 0x89, k2, c) + Octets(!cfg.server, 0x80, k3, q))) ==
      Outcome([Message(t, p + q)], None, UnexpectedEOF)
  {
    hide MaskSeq, Octets, Raw, RawFrame.Wire, ReadAll;
    var fs, keys := [Frame(false, t, p), Frame(true, 9, c), Frame(true, 0, q)], [k1, k2, k3];
    ThreeFrames(t, p, c, q);
    RoundTrip(cfg, fs, keys);
    WrittenOctets(!cfg.server, false, t, p, k1);
    WrittenOctets(!cfg.server, true, 9, c, k2);
    WrittenOctets(!cfg.server, true, 0, q, k3);
    ThreeWires(RawAll(!cfg.server, fs, keys));
  }

  /** A message frame of at most 125 octets cut anywhere within its payload. */
  lemma {:induction false} CutOctets(cfg: Config, t: nat, key: Key, p: seq<Byte>, k: nat)
    requires t in {1, 2} && k < |p| <= 125 && (cfg.limit == 0 || |p| <= cfg.limit)
    ensures var s := Octets(!cfg.server, 0x80 + t, key, p);
      ReadAll(cfg, START, s[..|s| - |p| + k]) == Outcome([], Some(Message(t, p[..k])), UnexpectedEOF)
  {
    hide MaskSeq, Raw, RawFrame.Wire, RawFrame.Header, ReadAll;
    var f := Frame(true, t, p);
    var r := Raw(!cfg.server, f, key);
    OctetsRead(cfg, 0x80 + t, key, p, []);
    RawValid(!cfg.server, f, key);
    WireParts(r);
    CountIsExact(cfg, 0, |p|);
    CutFrame(cfg, EMPTY, START, r, |r.Wire()| - |p| + k);
  }

  /** A stream that ends with the last octet of a nonempty data frame ends open if and only if that has no FIN. */
  lemma {:induction false} EndOctets(cfg: Config, b0: Byte, key: Key, p: seq<Byte>)
    requires b0 in {0x01, 0x02, 0x81, 0x82} && 0 < |p| < 0x8000_0000_0000_0000 && (cfg.limit == 0 || |p| <= cfg.limit)
    ensures var last := PayloadEnd(cfg, START, Octets(!cfg.server, b0, key, p));
      last.Some? && last.value.rem == 0 && last.value.final == (b0 in {0x81, 0x82})
  {
    hide MaskSeq, Octets, Advance;
    var s := Octets(!cfg.server, b0, key, p);
    DataOctets(cfg, START, b0, key, p, []);
    var body := if cfg.server then MaskSeq(key, 0, p) else p;
    assert s + [] == s && body + [] == body && START.(length := 0) == START;
    PayloadEndChunk(cfg, Behind(cfg, START, key, b0 in {0x81, 0x82}, |p|, |p|), body, []);
  }

  /** Passing over an unread frame that is not there as a whole is an end of the stream. */
  lemma {:induction false} SkippedPastEnd(cfg: Config, st: State, s: seq<Byte>)
    requires |s| < st.rem
    ensures NextReader(cfg, st, s) == NoNext(EOF)
  {
  }

  /** Neither data nor an end of the stream is answered. */
  lemma Unanswered(step: Step, replies: seq<Reply>)
    requires Answers(step, replies)
    requires step.DataFrame? || (step.Failed? && step.error in {EOF, UnexpectedEOF, Overflow, HandlerFailed(10)})
    ensures replies == []
  {
  }

  lemma ThreeFrames(t: nat, p: seq<Byte>, c: seq<Byte>, q: seq<Byte>)
    requires t in {1, 2} && |c| <= 125
    ensures var fs := [Frame(false, t, p), Frame(true, 9, c), Frame(true, 0, q)];
      Legal(EMPTY, fs) && Fold(EMPTY, fs) == Assembly([Message(t, p + q)], None, false)
  {
    var f0, f1, f2 := Frame(false, t, p), Frame(true, 9, c), Frame(true, 0, q);
    FoldAppend(EMPTY, [], f0);
    FoldAppend(EMPTY, [f0], f1);
    FoldAppend(EMPTY, [f0, f1], f2);
    assert [] + [f0] == [f0] && [f0] + [f1] == [f0, f1] && [f0, f1] + [f2] == [f0, f1, f2];
  }

  lemma {:induction false} ThreeWires(rs: seq<RawFrame>)
    requires |rs| == 3 && forall r :: r in rs ==> r.Valid()
    ensures WireAll(rs) == rs[0].Wire() + (rs[1].Wire() + rs[2].Wire())
  {
    hide RawFrame.Wire;
    assert rs[1..][0] == rs[1] && rs[2..][0] == rs[2] && rs[1..][1..] == rs[2..] && rs[2..][1..] == [];
    assert WireAll(rs[2..]) == rs[2].Wire() + WireAll([]) == rs[2].Wire();
    assert WireAll(rs[1..]) == rs[1].Wire() + WireAll(rs[2..]);
  }

  /** The payload of a close frame with a code. */
  lemma FormatOctets(c: nat, text: seq<Byte>)
    requires c < 0x1_0000
    ensures FormatClose(c, text) == if c == 1005 then [] else [c / 256, c % 256] + text
  {
    hide BE;
    BigEndian2(c);
  }

  /**
   * The round trip of a close: whatever legal frames were written before it, the peer reads their
   * messages and then reports its code, whatever follows.
   */
  lemma {:induction false} CloseRoundTrip(
      cfg: Config, fs: seq<Frame>, keys: seq<Key>, c: nat, text: seq<Byte>, key: Key, rest: seq<Byte>)
    requires |keys| == |fs| && forall f :: f in fs ==> Writable(f)
    requires Legal(EMPTY, fs) && !Fold(EMPTY, fs).closed && AllSmall(cfg, Fold(EMPTY, fs)) && cfg.Patient()
    requires c < 0x1_0000 && StatusCode(c) && |text| <= 123 && cfg.utf8(text)
    ensures var close := Raw(!cfg.server, Frame(true, 8, FormatClose(c, text)), key).Wire();
      ReadAll(cfg, START, WireAll(RawAll(!cfg.server, fs, keys)) + (close + rest)) ==
      Outcome(Fold(EMPTY, fs).done, Fold(EMPTY, fs).open, Answered(cfg, |rest|, CloseReceived(c)))
  {
    hide MaskSeq, RawAll, WireAll, Welcome, ReadAll, Octets, Advance, Raw, RawFrame.Wire;
    FormatOctets(c, text);
    var tail := Octets(!cfg.server, 0x88, key, [c / 256, c % 256] + text) + rest;
    WrittenOctets(!cfg.server, true, 8, [c / 256, c % 256] + text, key);
    SmallFramesWelcome(cfg, EMPTY, fs, keys, |tail|);
    var st := ReadsFrames(cfg, EMPTY, START, RawAll(!cfg.server, fs, keys), tail);
    var z := Fold(EMPTY, fs);
    CloseOctets(cfg, st, key, c, text, rest);
    CloseOctets(cfg, st.(length := 0), key, c, text, rest);
    if z.open.None? {
      NextStep(cfg, st, tail);
    } else {
      FailsInside(cfg, z.open.value, st, tail);
    }
    assert z.done[0..] + [] == z.done;
  }

  // ----- On a connection -----

  /** The last frame on the wire begins with octet b0 and carries p. */
  ghost predicate EndsWith(c: WriteConn, b0: Byte, p: seq<Byte>)
    requires |p| < 0x8000_0000_0000_0000
    reads c
  {
    exists before, key :: c.wire == before + Octets(c.isServer, b0, key, p)
  }

  lemma {:induction false} LastFrame(c: WriteConn, t: nat, p: seq<Byte>)
    requires c.WireOk() && c.torn.None? && c.log != [] && c.log[|c.log| - 1] == Frame(true, t, p) && t < 16
    ensures |p| < 0x8000_0000_0000_0000 && EndsWith(c, 0x80 + t, p)
  {
    hide MaskSeq, Octets, Raw, RawFrame.Wire, Legal, Fold;
    var n := |c.log| - 1;
    assert Writable(c.log[n]);
    var rs := RawAll(c.isServer, c.log, c.keys);
    WrittenOctets(c.isServer, true, t, p, c.keys[n]);
    WireAllAppend(rs[..n], rs[n]);
    assert rs[..n] + [rs[n]] == rs;
    assert c.wire == WireAll(rs[..n]) + Octets(c.isServer, 0x80 + t, c.keys[n], p);
  }

  /** A message of a server, of any type, as its frame stands on the wire. */
  method WriteOctets(c: WriteConn, t: nat, p: seq<Byte>) returns (err: Option<WriteError>)
    requires c.isServer && c.Ready() && |p| < MAX_SLICE
    modifies c, c.writer, c.writeBuf, c.writePool, c.PoolBuffers()
    ensures c.Ready() && (err == Some(BadOpCode) <==> t !in {1, 2, 8, 9, 10})
    ensures err.None? ==> t in {1, 2, 8, 9, 10} && EndsWith(c, 0x80 + t, p)
  {
    hide WriteConn.WireOk, WriteConn.Owned, MessageWriter.Buffered, EndsWith;
    ghost var flushed;
    err, flushed := c.WriteMessage(t, p);
    if err.None? {
      LastFrame(c, t, p);
    }
  }

  /** What a control frame makes the reader report and reply. */
  lemma {:induction false} Answer(
      cfg: Config, st: State, b0: Byte, key: Key, p: seq<Byte>, rest: seq<Byte>, replies: seq<Reply>)
    requires b0 in {0x88, 0x89, 0x8A} && |p| <= 125 && !cfg.pingFails(|rest|) && !cfg.pongFails(|rest|)
    requires Answers(Advance(cfg, st, Octets(!cfg.server, b0, key, p) + rest), replies)
    ensures var step := Advance(cfg, st, Octets(!cfg.server, b0, key, p) + rest);
      if b0 == 0x89 then step.ControlFrame? && step.op == 9 && replies == [Reply(10, p)]
      else if b0 == 0x8A then step.ControlFrame? && step.op == 10 && replies == []
      else if |p| <= 1 then
        step == Failed(Answered(cfg, |rest|, CloseReceived(1005))) && replies == [Reply(8, [])]
      else if StatusCode(Status(p)) && cfg.utf8(p[2..]) then
        step == Failed(Answered(cfg, |rest|, CloseReceived(Status(p)))) && replies == [Reply(8, p[..2])]
      else
        step == Failed(Answered(cfg, |rest|, ProtocolError)) &&
        |replies| == 1 && replies[0].op == 8 && [0x03, 0xEA] <= replies[0].data && |replies[0].data| <= 125
  {
    hide Advance, Octets, BE;
    if b0 != 0x88 {
      PingPongOctets(cfg, st, b0, key, p, rest);
    } else if |p| <= 1 {
      BareCloseOctets(cfg, st, key, p, rest);
    } else {
      var c := Status(p);
      assert c / 256 == p[0] && c % 256 == p[1] && p == [c / 256, c % 256] + p[2..];
      CloseOctets(cfg, st, key, c, p[2..], rest);
      FormatOctets(c, []);
      BigEndian2(1002);
      assert p[..2] == [c / 256, c % 256] + [];
    }
  }

  lemma NotTorn(c: WriteConn)
    requires c.WireOk() && c.writeErr != Some(Transport)
    ensures c.torn.None?
  {
    hide WireIs;
  }

  /**
   * A control frame comes in, and the handler's answer goes out on the writing half of the connection:
   * a pong to a ping, a close to a close.
   */
  method ReceiveControl(
      r: ReadConn, w: WriteConn, ghost b0: Byte, ghost key: Key, ghost p: seq<Byte>, ghost rest: seq<Byte>)
    returns (op: int, err: Option<Error>, sent: Option<WriteError>)
    requires r.Valid() && r.readErr.None? && r.readRemaining == 0 && w.Valid() && w.isServer == r.cfg.server
    requires b0 in {0x88, 0x89, 0x8A} && |p| <= 125 && r.input == Octets(!r.cfg.server, b0, key, p) + rest
    requires !r.cfg.pingFails(|rest|) && !r.cfg.pongFails(|rest|)
    modifies r, w
    ensures r.Valid() && w.Valid()
    ensures b0 == 0x89 ==> op == 9 && err.None? && (sent.None? ==> EndsWith(w, 0x8A, p))
    ensures b0 == 0x8A ==> op == 10 && err.None? && r.replies == old(r.replies) && w.wire == old(w.wire)
    ensures b0 == 0x88 && |p| <= 1 ==>
      err == Some(Answered(r.cfg, |rest|, CloseReceived(1005))) && (sent.None? ==> EndsWith(w, 0x88, []))
    ensures b0 == 0x88 && |p| >= 2 && StatusCode(Status(p)) && r.cfg.utf8(p[2..]) ==>
      err == Some(Answered(r.cfg, |rest|, CloseReceived(Status(p)))) &&
      (sent.None? ==> EndsWith(w, 0x88, p[..2]))
    ensures b0 == 0x88 && |p| >= 2 && !(StatusCode(Status(p)) && r.cfg.utf8(p[2..])) ==>
      err == Some(Answered(r.cfg, |rest|, ProtocolError)) &&
      (sent.None? ==> exists why | |why| <= 123 :: EndsWith(w, 0x88, [0x03, 0xEA] + why))
  {
    hide Advance, Octets, Answers, WriteConn.WireOk, WriteConn.Owned, MessageWriter.Buffered, EndsWith, BE;
    var n := |r.replies|;
    ghost var st := r.St();
    assert st.(rem := 0) == st && r.input[0..] == r.input;
    op, err := r.AdvanceFrame();
    sent := None;
    var more := r.replies[n..];
    Answer(r.cfg, st, b0, key, p, rest, more);
    if more != [] {
      sent := w.WriteControl(more[0].op, more[0].data);
      if sent.None? {
        NotTorn(w);
        LastFrame(w, more[0].op, more[0].data);
        assert [0x03, 0xEA] <= more[0].data ==> more[0].data == [0x03, 0xEA] + more[0].data[2..];
      }
    }
  }
}
