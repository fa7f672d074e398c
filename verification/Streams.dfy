/**
 * What the reader makes of a stream of frames: which it accepts, which messages it delivers, and what
 * is left of a stream cut anywhere.
 */
module Streams {
  import opened Bytes
  import opened Masking
  import opened Frames
  import opened Reading

  // ----- Headers -----

  /** The header bits section 5.2 and 5.5 ask for, whatever came before. */
  predicate BitsOk(cfg: Config, r: RawFrame) {
    r.rsv == 0 && r.masked == cfg.server && (IsControl(r.op) ==> r.form.Short?)
  }

  lemma Byte0Fields(r: RawFrame)
    requires r.Valid()
    ensures r.Byte0() % 16 == r.op && (r.Byte0() >= 128) == r.fin && r.Byte0() / 16 % 8 == r.rsv
  {
    var b := r.Byte0();
    assert b / 16 == r.rsv + if r.fin then 8 else 0;
  }

  lemma Byte1Fields(r: RawFrame)
    requires r.Valid()
    ensures (r.Byte1() >= 128) == r.masked
    ensures r.Byte1() % 128 <= MAX_CONTROL <==> r.form.Short?
    ensures r.form.Short? ==> r.Byte1() % 128 == |r.body|
    ensures ExtraLength(r.Byte1()) == |r.LengthBytes()|
    ensures PayloadLength(r.Byte1(), r.LengthBytes()) == |r.body|
  {
    PowerValues();
    hide FromBE, BE, Pow256;
    match r.form
    case Short =>
    case Medium => FromBEOfBE(|r.body|, 2);
    case Long => FromBEOfBE(|r.body|, 8);
  }

  lemma HeaderBytes(cfg: Config, a: Assembly, r: RawFrame)
    requires r.Valid() && !a.closed
    ensures HeaderOk(cfg, a.open.None?, r.Byte0(), r.Byte1()) <==> BitsOk(cfg, r) && Accepts(a, r.ToFrame())
    ensures r.Byte0() % 16 == r.op && (r.Byte0() >= 128) == r.fin && (r.Byte1() >= 128) == r.masked
    ensures PayloadLength(r.Byte1(), r.LengthBytes()) == |r.body|
    ensures ExtraLength(r.Byte1()) == |r.LengthBytes()|
  {
    hide MaskSeq, RawFrame.Byte0, RawFrame.Byte1, RawFrame.LengthBytes, ExtraLength, PayloadLength;
    Byte0Fields(r);
    Byte1Fields(r);
  }

  /** Advance on a complete header and anything after it. */
  lemma AdvanceHeader(cfg: Config, a: Assembly, st: State, r: RawFrame, rest: seq<Byte>)
    requires r.Valid() && !a.closed && st.final == a.open.None?
    ensures Advance(cfg, st, r.Header() + rest) ==
            if !(BitsOk(cfg, r) && Accepts(a, r.ToFrame())) then
              Failed(Answered(cfg, |r.Header()| - 2 + |rest|, ProtocolError))
            else if |r.body| >= TWO_63 then Failed(Overflow)
            else AfterHeader(cfg, st, r.Byte0(), |r.body|, if r.masked then r.key else st.key, r.masked, rest)
  {
    hide AfterHeader, HeaderOk, BitsOk, Accepts, PayloadLength, ExtraLength;
    HeaderBytes(cfg, a, r);
    var s := r.Header() + rest;
    var keyBytes := if r.masked then r.key else [];
    assert s[0] == r.Byte0() && s[1] == r.Byte1();
    assert s[2..] == r.LengthBytes() + keyBytes + rest;
    Pieces(r.LengthBytes(), keyBytes, rest);
    assert s[2..][..|r.LengthBytes()|] == r.LengthBytes();
  }

  /** Advance on an incomplete header of an acceptable frame. */
  lemma AdvanceCutHeader(cfg: Config, a: Assembly, st: State, r: RawFrame, c: nat)
    requires r.Valid() && !a.closed && st.final == a.open.None?
    requires BitsOk(cfg, r) && Accepts(a, r.ToFrame()) && |r.body| < TWO_63
    requires c < |r.Header()|
    ensures Advance(cfg, st, r.Header()[..c]) == Failed(UnexpectedEOF)
  {
    hide AfterHeader, HeaderOk, BitsOk, Accepts, PayloadLength, ExtraLength;
    HeaderBytes(cfg, a, r);
    var s := r.Header()[..c];
    var x := |r.LengthBytes()|;
    if c >= 2 {
      assert s[0] == r.Byte0() && s[1] == r.Byte1();
      if c >= 2 + x {
        var keyBytes := if r.masked then r.key else [];
        Pieces([r.Byte0(), r.Byte1()], r.LengthBytes(), keyBytes);
        assert s[2..][..x] == r.Header()[2..2 + x];
      }
    }
  }

  // ----- One frame -----

  function LengthSoFar(a: Assembly): nat {
    if a.open.Some? then |a.open.value.payload| else 0
  }

  /** Everything the reader asks of frame r in state a when left bytes follow it. */
  predicate Welcome(cfg: Config, a: Assembly, r: RawFrame, left: nat) {
    BitsOk(cfg, r) && Accepts(a, r.ToFrame()) && |r.body| < TWO_63 &&
    (!IsControl(r.op) ==> CountLength(cfg, LengthSoFar(a), |r.body|).Some?) &&
    !cfg.HandlerFails(r.op, left) &&
    (r.op == CLOSE ==> CloseOk(cfg, r.Payload()))
  }

  predicate CloseOk(cfg: Config, payload: seq<Byte>) {
    |payload| < 2 || (ValidCloseCode(FromBE(payload[..2])) && cfg.utf8(payload[2..]))
  }

  function CloseCode(payload: seq<Byte>): nat {
    if |payload| < 2 then CLOSE_NO_STATUS else FromBE(payload[..2])
  }

  /** Reader state and assembly agree: at a frame boundary, the same message open, its length counted. */
  predicate Agree(a: Assembly, st: State) {
    !a.closed && st.rem == 0 && st.final == a.open.None? && (a.open.Some? ==> st.length == LengthSoFar(a))
  }

  predicate Passed(step: Step) {
    !step.Failed? || Cause(step.error).CloseReceived?
  }

  /** The reader's state once r's header is read. */
  function HeaderState(st: State, r: RawFrame, rem: nat, length: nat): State {
    var key, pos := if r.masked then r.key else st.key, if r.masked then 0 else st.pos;
    State(if IsControl(r.op) then st.final else r.fin, rem, key, pos, length)
  }

  /**
   * The wrapping sum of two int64 values is negative exactly when it overflows, so a frame is refused
   * exactly when the true sum passes 2^63 - 1 or the limit, and otherwise counted exactly.
   */
  lemma CountIsExact(cfg: Config, length: nat, n: nat)
    requires length < TWO_63 && n < TWO_63
    ensures CountLength(cfg, length, n) ==
      if length + n >= TWO_63 || (cfg.limit > 0 && length + n > cfg.limit) then None else Some(length + n)
  {
    if length + n >= TWO_63 {
      assert Int64(length + n) == length + n - TWO_64;
    }
  }

  /** The step advanceFrame takes on an acceptable frame followed by rest. */
  function AcceptedStep(cfg: Config, st: State, length: nat, r: RawFrame, rest: seq<Byte>): Step {
    if r.op == CLOSE then Failed(Answered(cfg, |rest|, CloseReceived(CloseCode(r.Payload()))))
    else if IsControl(r.op) then ControlFrame(r.op, r.Payload(), HeaderState(st, r, 0, st.length), rest)
    else DataFrame(r.op, HeaderState(st, r, |r.body|, length + |r.body|), r.body + rest)
  }

  /** advanceFrame accepts a frame exactly when the automaton and the bit rules allow it. */
  lemma AdvanceAccepts(cfg: Config, a: Assembly, st: State, r: RawFrame, rest: seq<Byte>)
    requires r.Valid() && !a.closed && st.final == a.open.None?
    requires IsControl(r.op) || st.length == LengthSoFar(a) < TWO_63
    ensures Passed(Advance(cfg, st, r.Wire() + rest)) <==> Welcome(cfg, a, r, |rest|)
    ensures Welcome(cfg, a, r, |rest|) ==>
      Advance(cfg, st, r.Wire() + rest) == AcceptedStep(cfg, st, LengthSoFar(a), r, rest)
  {
    hide BitsOk, Accepts, HeaderOk, Advance, AfterHeader;
    Byte0Fields(r);
    AdvanceHeader(cfg, a, st, r, r.body + rest);
    assert r.Wire() + rest == r.Header() + (r.body + rest);
    if IsControl(r.op) {
      AfterControlHeader(cfg, st, r, rest);
    } else {
      if |r.body| < TWO_63 {
        CountIsExact(cfg, LengthSoFar(a), |r.body|);
      }
      AfterDataHeader(cfg, st, LengthSoFar(a), r, rest);
    }
  }

  lemma AfterControlHeader(cfg: Config, st: State, r: RawFrame, rest: seq<Byte>)
    requires r.Valid() && IsControl(r.op)
    ensures AfterHeader(cfg, st, r.Byte0(), |r.body|, if r.masked then r.key else st.key, r.masked, r.body + rest) ==
            if cfg.HandlerFails(r.op, |rest|) then Failed(HandlerFailed(r.op))
            else if r.op == CLOSE && !CloseOk(cfg, r.Payload()) then Failed(Answered(cfg, |rest|, ProtocolError))
            else AcceptedStep(cfg, st, 0, r, rest)
  {
    hide RawFrame.Byte0, MaskSeq, ValidCloseCode, FromBE;
    Byte0Fields(r);
    assert (r.body + rest)[..|r.body|] == r.body && (r.body + rest)[|r.body|..] == rest;
  }

  lemma AfterDataHeader(cfg: Config, st: State, length: nat, r: RawFrame, rest: seq<Byte>)
    requires r.Valid() && !IsControl(r.op) && st.length == length
    ensures AfterHeader(cfg, st, r.Byte0(), |r.body|, if r.masked then r.key else st.key, r.masked, r.body + rest) ==
            if CountLength(cfg, length, |r.body|).None? then
              Failed(if Int64(length + |r.body|) < 0 then Overflow else Answered(cfg, |r.body + rest|, ReadLimit))
            else
            DataFrame(r.op, HeaderState(st, r, |r.body|, CountLength(cfg, length, |r.body|).value), r.body + rest)
  {
    hide RawFrame.Byte0, MaskSeq, CountLength;
    Byte0Fields(r);
  }

  // ----- The reader accepts exactly the runs of the automaton -----

  /**
   * Reading the stream s to its end, message after message, meets no error but a close frame.
   * NextReader resets readLength between messages.
   */
  predicate Clean(cfg: Config, st: State, s: seq<Byte>)
    decreases |s|
  {
    if |s| <= st.rem then |s| == st.rem
    else
      var step := Advance(cfg, Consume(cfg, st, st.rem).(length := if st.final then 0 else st.length), s[st.rem..]);
      if step.Failed? then Cause(step.error).CloseReceived? else Clean(cfg, step.st, step.rest)
  }

  /** Every frame is welcome where it stands, up to the end or the first close frame. */
  predicate LegalRun(cfg: Config, a: Assembly, rs: seq<RawFrame>)
    requires forall r :: r in rs ==> r.Valid()
    decreases rs
  {
    rs == [] ||
    (Welcome(cfg, a, rs[0], |WireAll(rs[1..])|) &&
     (rs[0].op == CLOSE || LegalRun(cfg, Feed(a, rs[0].ToFrame()), rs[1..])))
  }

  /** The reader's state once the whole of r has been read; length is what readLength stood at. */
  function AfterFrame(cfg: Config, st: State, r: RawFrame, length: nat): State {
    if IsControl(r.op) then HeaderState(st, r, 0, length)
    else Consume(cfg, HeaderState(st, r, |r.body|, length + |r.body|), |r.body|)
  }

  lemma AfterFrameAgrees(cfg: Config, a: Assembly, st: State, r: RawFrame, left: nat)
    requires Agree(a, st) && LengthSoFar(a) < TWO_63
    requires Welcome(cfg, a, r, left) && r.op != CLOSE
    ensures Agree(Feed(a, r.ToFrame()), AfterFrame(cfg, st, r, LengthSoFar(a)))
    ensures LengthSoFar(Feed(a, r.ToFrame())) < TWO_63
  {
    hide MaskSeq;
    if !IsControl(r.op) {
      CountIsExact(cfg, LengthSoFar(a), |r.body|);
    }
  }

  lemma {:induction false} CleanStep(cfg: Config, a: Assembly, st: State, r: RawFrame, rest: seq<Byte>)
    requires r.Valid() && Agree(a, st) && LengthSoFar(a) < TWO_63
    ensures Clean(cfg, st, r.Wire() + rest) <==>
      Welcome(cfg, a, r, |rest|) && (r.op == CLOSE || Clean(cfg, AfterFrame(cfg, st, r, LengthSoFar(a)), rest))
  {
    hide MaskSeq, Advance, Welcome, RawFrame.Wire, Feed, Clean, AcceptedStep, AfterFrame;
    var st0 := st.(length := LengthSoFar(a));
    AdvanceAccepts(cfg, a, st0, r, rest);
    assert st0 == st.(length := if st.final then 0 else st.length);
    CleanUnfold(cfg, st, st0, r.Wire() + rest);
    CleanAccepted(cfg, st0, LengthSoFar(a), r, rest);
    AfterFrameLength(cfg, st, st0, r, LengthSoFar(a));
  }

  lemma AfterFrameLength(cfg: Config, st: State, st0: State, r: RawFrame, length: nat)
    requires st0 == st.(length := length)
    ensures AfterFrame(cfg, st, r, length) == AfterFrame(cfg, st0, r, length)
  {
  }

  lemma {:induction false} CleanUnfold(cfg: Config, st: State, st0: State, s: seq<Byte>)
    requires st.rem == 0 && |s| > 0 && st0 == st.(length := if st.final then 0 else st.length)
    ensures Passed(Advance(cfg, st0, s)) && Advance(cfg, st0, s).Failed? ==> Clean(cfg, st, s)
    ensures !Advance(cfg, st0, s).Failed? ==>
      (Clean(cfg, st, s) <==> Clean(cfg, Advance(cfg, st0, s).st, Advance(cfg, st0, s).rest))
    ensures Clean(cfg, st, s) ==> Passed(Advance(cfg, st0, s))
  {
    hide Advance;
    assert s[0..] == s;
    assert Consume(cfg, st, 0).(length := st0.length) == st0;
  }

  lemma {:induction false} CleanAccepted(cfg: Config, st: State, length: nat, r: RawFrame, rest: seq<Byte>)
    requires length == st.length
    ensures var step := AcceptedStep(cfg, st, length, r, rest);
      if r.op == CLOSE then step.Failed?
      else !step.Failed? && (Clean(cfg, step.st, step.rest) <==> Clean(cfg, AfterFrame(cfg, st, r, length), rest))
  {
    hide MaskSeq, Advance, Clean;
    if !IsControl(r.op) {
      CleanSkipsBody(cfg, HeaderState(st, r, |r.body|, length + |r.body|), r.body, rest);
    }
  }

  /**
   * The reader gets through a sequence of frames without an error exactly when they form a run of the
   * fragmentation automaton, masked for its role, reserved bits clear, lengths in bounds; a close
   * frame ends the run.
   */
  lemma {:induction false} AcceptsExactlyLegalRuns(cfg: Config, a: Assembly, st: State, rs: seq<RawFrame>)
    requires forall r :: r in rs ==> r.Valid()
    requires Agree(a, st) && LengthSoFar(a) < TWO_63
    ensures Clean(cfg, st, WireAll(rs)) <==> LegalRun(cfg, a, rs)
    decreases rs
  {
    if rs != [] {
      hide MaskSeq, Clean, Welcome, Agree, RawFrame.Wire, AfterFrame;
      var rest := WireAll(rs[1..]);
      CleanStep(cfg, a, st, rs[0], rest);
      if Welcome(cfg, a, rs[0], |rest|) && rs[0].op != CLOSE {
        AfterFrameAgrees(cfg, a, st, rs[0], |rest|);
        assert Accepts(a, rs[0].ToFrame()) by {
          WelcomeAccepts(cfg, a, rs[0], |rest|);
        }
        AcceptsExactlyLegalRuns(cfg, Feed(a, rs[0].ToFrame()), AfterFrame(cfg, st, rs[0], LengthSoFar(a)), rs[1..]);
      }
    }
  }

  lemma WelcomeAccepts(cfg: Config, a: Assembly, r: RawFrame, left: nat)
    requires Welcome(cfg, a, r, left)
    ensures BitsOk(cfg, r) && Accepts(a, r.ToFrame()) && |r.body| < TWO_63
    ensures !IsControl(r.op) ==> CountLength(cfg, LengthSoFar(a), |r.body|).Some?
  {
  }

  lemma {:induction false} CleanSkipsBody(cfg: Config, st: State, body: seq<Byte>, rest: seq<Byte>)
    requires st.rem == |body|
    ensures Clean(cfg, st, body + rest) <==> Clean(cfg, Consume(cfg, st, |body|), rest)
  {
    hide MaskSeq, Advance;
    assert (body + rest)[|body|..] == rest;
    assert rest[0..] == rest;
    var st' := Consume(cfg, st, |body|);
    assert Consume(cfg, st', 0) == st';
  }

  // ----- One frame at a time -----

  /** The payload of the current frame is delivered unmasked, then reading goes on after it. */
  lemma {:induction false} ReadBody(cfg: Config, st: State, body: seq<Byte>, rest: seq<Byte>)
    requires st.rem == |body|
    ensures ReadMessage(cfg, st, body + rest) ==
            ReadMessage(cfg, Consume(cfg, st, |body|), rest).Prepend(Unmask(cfg, st, body))
  {
    hide MaskSeq;
    if body == [] {
      assert body + rest == rest;
      assert Unmask(cfg, st, []) == [];
      PrependNothing(ReadMessage(cfg, Consume(cfg, st, 0), rest));
    } else {
      assert (body + rest)[..|body|] == body && (body + rest)[|body|..] == rest;
    }
  }

  lemma {:induction false} ContinueBody(cfg: Config, m: Message, st: State, body: seq<Byte>, rest: seq<Byte>)
    requires st.rem == |body|
    ensures Continue(cfg, m, st, body + rest) ==
            Continue(cfg, m.(payload := m.payload + Unmask(cfg, st, body)), Consume(cfg, st, |body|), rest)
  {
    hide ReadMessage, Unmask, ReadAll;
    ReadBody(cfg, st, body, rest);
    var u := Unmask(cfg, st, body);
    match ReadMessage(cfg, Consume(cfg, st, |body|), rest)
    case Whole(q, _, _) => assert m.payload + (u + q) == m.payload + u + q;
    case Cut(q, _) => assert m.payload + (u + q) == m.payload + u + q;
  }

  /** At the end of its last frame, a message is delivered whole. */
  lemma {:induction false} ContinueEnd(cfg: Config, m: Message, st: State, s: seq<Byte>)
    requires st.rem == 0 && st.final
    ensures Continue(cfg, m, st, s) == ReadAll(cfg, st, s).Prepend([m])
  {
    hide ReadAll;
    assert m.payload + [] == m.payload;
  }

  /** Within a message, an accepted frame header leaves the reader in the middle of that message. */
  lemma {:induction false} ContinueStep(cfg: Config, m: Message, st: State, s: seq<Byte>)
    requires st.rem == 0 && !st.final && !Advance(cfg, st, s).Failed?
    ensures Continue(cfg, m, st, s) == Continue(cfg, m, Advance(cfg, st, s).st, Advance(cfg, st, s).rest)
  {
    hide Advance, ReadAll;
  }

  lemma {:induction false} NextStep(cfg: Config, st: State, s: seq<Byte>)
    requires st.rem == 0
    ensures var step := Advance(cfg, st.(length := 0), s);
      match step
      case ControlFrame(_, _, st', rest) => st'.length == 0 ==> ReadAll(cfg, st, s) == ReadAll(cfg, st', rest)
      case DataFrame(op, st', rest) => IsData(op) ==> ReadAll(cfg, st, s) == Continue(cfg, Message(op, []), st', rest)
      case Failed(e) => ReadAll(cfg, st, s) == Outcome([], None, e)
  {
    hide Advance, Continue;
    assert s[0..] == s;
    var st0 := st.(length := 0);
    assert st0.(rem := 0) == st0;
    var step := Advance(cfg, st0, s);
    if step.ControlFrame? && step.st.length == 0 {
      assert step.st.(length := 0) == step.st;
    }
  }

  /** One whole welcome frame: what it adds to the outcome is what it adds to the assembly. */
  lemma OneFrame(cfg: Config, a: Assembly, st: State, r: RawFrame, rest: seq<Byte>)
    requires r.Valid() && Agree(a, st) && LengthSoFar(a) < TWO_63
    requires Welcome(cfg, a, r, |rest|) && r.op != CLOSE
    ensures var a' := Feed(a, r.ToFrame());
      ReadFrom(cfg, a.open, st, r.Wire() + rest) ==
      ReadFrom(cfg, a'.open, AfterFrame(cfg, st, r, LengthSoFar(a)), rest).Prepend(a'.done[|a.done|..])
  {
    hide MaskSeq, Advance, Continue, ReadAll, RawFrame.Wire;
    var st0 := st.(length := LengthSoFar(a));
    var s := r.Wire() + rest;
    AdvanceAccepts(cfg, a, st0, r, rest);
    assert a.open.Some? ==> st0 == st;
    if a.open.None? {
      NextStep(cfg, st, s);
    } else {
      ContinueStep(cfg, a.open.value, st, s);
    }
    var a' := Feed(a, r.ToFrame());
    if IsControl(r.op) {
      assert a'.done[|a.done|..] == [];
    } else {
      var st1 := HeaderState(st0, r, |r.body|, LengthSoFar(a) + |r.body|);
      var m := if a.open.None? then Message(r.op, []) else a.open.value;
      ContinueBody(cfg, m, st1, r.body, rest);
      assert Unmask(cfg, st1, r.body) == r.Payload();
      assert m.payload + r.Payload() == Extended(a, r.ToFrame()).payload;
      if r.fin {
        ContinueEnd(cfg, Extended(a, r.ToFrame()), Consume(cfg, st1, |r.body|), rest);
        assert a'.done[|a.done|..] == [Extended(a, r.ToFrame())];
      } else {
        assert a'.done[|a.done|..] == [];
      }
    }
  }

  // ----- Whole streams -----

  /** Every frame of rs is welcome in its turn, none is a close frame; left bytes follow the last one. */
  predicate WelcomeRun(cfg: Config, a: Assembly, rs: seq<RawFrame>, left: nat)
    requires forall r :: r in rs ==> r.Valid()
    decreases rs
  {
    rs == [] ||
    (Welcome(cfg, a, rs[0], |WireAll(rs[1..])| + left) && rs[0].op != CLOSE &&
     WelcomeRun(cfg, Feed(a, rs[0].ToFrame()), rs[1..], left))
  }

  lemma {:induction false} WelcomeRunLegal(cfg: Config, a: Assembly, rs: seq<RawFrame>, left: nat)
    requires forall r :: r in rs ==> r.Valid()
    requires WelcomeRun(cfg, a, rs, left)
    ensures Legal(a, FramesOf(rs))
    ensures a.done <= Fold(a, FramesOf(rs)).done
    decreases rs
  {
    if rs != [] {
      hide MaskSeq;
      WelcomeRunLegal(cfg, Feed(a, rs[0].ToFrame()), rs[1..], left);
      assert FramesOf(rs)[1..] == FramesOf(rs[1..]);
    }
  }

  /** Reading welcome frames, then whatever follows them. */
  lemma {:induction false} ReadsFrames(cfg: Config, a: Assembly, st: State, rs: seq<RawFrame>, tail: seq<Byte>)
    returns (st': State)
    requires forall r :: r in rs ==> r.Valid()
    requires Agree(a, st) && LengthSoFar(a) < TWO_63
    requires WelcomeRun(cfg, a, rs, |tail|)
    ensures Legal(a, FramesOf(rs)) && a.done <= Fold(a, FramesOf(rs)).done
    ensures Agree(Fold(a, FramesOf(rs)), st') && LengthSoFar(Fold(a, FramesOf(rs))) < TWO_63
    ensures ReadFrom(cfg, a.open, st, WireAll(rs) + tail) ==
            ReadFrom(cfg, Fold(a, FramesOf(rs)).open, st', tail).Prepend(Fold(a, FramesOf(rs)).done[|a.done|..])
    decreases rs
  {
    hide Welcome, RawFrame.Wire, ReadFrom, Agree, AfterFrame, MaskSeq, Feed;
    WelcomeRunLegal(cfg, a, rs, |tail|);
    if rs == [] {
      st' := st;
      assert WireAll(rs) + tail == tail;
      assert ReadFrom(cfg, a.open, st, tail).Prepend([]) == ReadFrom(cfg, a.open, st, tail);
    } else {
      var r, rest := rs[0], WireAll(rs[1..]) + tail;
      var a', st1 := Feed(a, r.ToFrame()), AfterFrame(cfg, st, r, LengthSoFar(a));
      OneFrame(cfg, a, st, r, rest);
      AfterFrameAgrees(cfg, a, st, r, |rest|);
      st' := ReadsFrames(cfg, a', st1, rs[1..], tail);
      assert WireAll(rs) + tail == r.Wire() + rest;
      assert FramesOf(rs)[1..] == FramesOf(rs[1..]);
      var z := Fold(a, FramesOf(rs));
      assert a.done <= a'.done by {
        FeedGrows(a, r.ToFrame());
      }
      assert a'.done[|a.done|..] + z.done[|a'.done|..] == z.done[|a.done|..];
      var o := ReadFrom(cfg, z.open, st', tail);
      assert o.Prepend(z.done[|a'.done|..]).Prepend(a'.done[|a.done|..]).done ==
        a'.done[|a.done|..] + (z.done[|a'.done|..] + o.done);
    }
  }

  lemma FeedGrows(a: Assembly, f: Frame)
    requires Accepts(a, f)
    ensures a.done <= Feed(a, f).done
  {
  }

  // ----- A frame cut short -----

  /** What the application sees of the message that frame r, cut after c bytes, belongs to. */
  function PartialMessage(a: Assembly, r: RawFrame, c: nat): Option<Message>
    requires r.Valid() && c < |r.Wire()|
  {
    var h := |r.Header()|;
    if IsControl(r.op) || c < h then a.open
    else
      var p := r.Payload()[..c - h];
      if a.open.Some? then Some(a.open.value.(payload := a.open.value.payload + p)) else Some(Message(r.op, p))
  }

  lemma CutFrame(cfg: Config, a: Assembly, st: State, r: RawFrame, c: nat)
    requires r.Valid() && Agree(a, st) && LengthSoFar(a) < TWO_63
    requires BitsOk(cfg, r) && Accepts(a, r.ToFrame()) && |r.body| < TWO_63
    requires !IsControl(r.op) ==> CountLength(cfg, LengthSoFar(a), |r.body|).Some?
    requires c < |r.Wire()|
    ensures ReadFrom(cfg, a.open, st, r.Wire()[..c]) == Outcome([], PartialMessage(a, r, c), UnexpectedEOF)
  {
    hide MaskSeq, Advance, AfterHeader, ReadAll, Continue, CountLength, RawFrame.Header;
    var st0 := st.(length := LengthSoFar(a));
    var h, s := |r.Header()|, r.Wire()[..c];
    if c < h {
      assert s == r.Header()[..c];
      AdvanceCutHeader(cfg, a, st0, r, c);
      CutHere(cfg, a, st, s);
    } else {
      assert s == r.Header() + r.body[..c - h];
      AdvanceHeader(cfg, a, st0, r, r.body[..c - h]);
      if IsControl(r.op) {
        CutControl(cfg, st0, r, c - h);
        CutHere(cfg, a, st, s);
      } else {
        CutData(cfg, a, st, r, c - h);
      }
    }
  }

  /** The stream ends inside a header or a control frame. */
  lemma CutHere(cfg: Config, a: Assembly, st: State, s: seq<Byte>)
    requires Agree(a, st)
    requires Advance(cfg, st.(length := LengthSoFar(a)), s) == Failed(UnexpectedEOF)
    ensures ReadFrom(cfg, a.open, st, s) == Outcome([], a.open, UnexpectedEOF)
  {
    hide Advance;
    if a.open.None? {
      NextStep(cfg, st, s);
    } else {
      assert a.open.value.payload + [] == a.open.value.payload;
      assert st.(length := LengthSoFar(a)) == st;
    }
  }

  lemma CutControl(cfg: Config, st: State, r: RawFrame, k: nat)
    requires r.Valid() && IsControl(r.op) && k < |r.body|
    ensures var key := if r.masked then r.key else st.key;
      AfterHeader(cfg, st, r.Byte0(), |r.body|, key, r.masked, r.body[..k]) == Failed(UnexpectedEOF)
  {
    hide RawFrame.Byte0;
    Byte0Fields(r);
  }

  /** The stream ends inside the payload of a data frame. */
  lemma CutData(cfg: Config, a: Assembly, st: State, r: RawFrame, k: nat)
    requires r.Valid() && Agree(a, st) && LengthSoFar(a) < TWO_63 && k < |r.body| < TWO_63
    requires r.masked == cfg.server && !IsControl(r.op) && Accepts(a, r.ToFrame())
    requires CountLength(cfg, LengthSoFar(a), |r.body|).Some?
    requires var st0, key := st.(length := LengthSoFar(a)), if r.masked then r.key else st.key;
      Advance(cfg, st0, r.Header() + r.body[..k]) ==
      AfterHeader(cfg, st0, r.Byte0(), |r.body|, key, r.masked, r.body[..k])
    ensures ReadFrom(cfg, a.open, st, r.Header() + r.body[..k]) ==
      Outcome([], PartialMessage(a, r, |r.Header()| + k), UnexpectedEOF)
  {
    hide MaskSeq, Advance, CountLength, ReadAll, Continue, RawFrame.Byte0, RawFrame.Header;
    Byte0Fields(r);
    var st0 := st.(length := LengthSoFar(a));
    var s, part := r.Header() + r.body[..k], r.body[..k];
    CountIsExact(cfg, LengthSoFar(a), |r.body|);
    var st1 := HeaderState(st0, r, |r.body|, LengthSoFar(a) + |r.body|);
    assert Advance(cfg, st0, s) == DataFrame(r.op, st1, part);
    var m := if a.open.None? then Message(r.op, []) else a.open.value;
    if a.open.None? {
      NextStep(cfg, st, s);
    } else {
      assert st0 == st;
      ContinueStep(cfg, m, st, s);
    }
    CutBody(cfg, m, st1, part);
    assert Unmask(cfg, st1, part) == r.Payload()[..k] by {
      MaskPrefix(r.key, r.body, k);
    }
    assert Message(r.op, []).payload + r.Payload()[..k] == r.Payload()[..k];
  }

  lemma MaskPrefix(key: Key, s: seq<Byte>, k: nat)
    requires k <= |s|
    ensures MaskSeq(key, 0, s[..k]) == MaskSeq(key, 0, s)[..k]
  {
    hide Xor, XorByte;
  }

  lemma {:induction false} CutBody(cfg: Config, m: Message, st: State, s: seq<Byte>)
    requires |s| < st.rem
    ensures Continue(cfg, m, st, s) == Outcome([], Some(m.(payload := m.payload + Unmask(cfg, st, s))), UnexpectedEOF)
  {
    hide MaskSeq, Advance, ReadAll;
    if s == [] {
      assert Unmask(cfg, st, s) == [];
    } else {
      assert s[..|s|] == s && s[|s|..] == [];
      assert ReadMessage(cfg, Consume(cfg, st, |s|), []) == Cut([], UnexpectedEOF);
      assert Unmask(cfg, st, s) + [] == Unmask(cfg, st, s);
    }
  }

  // ----- What an endpoint writes, its peer reads -----

  /** The reader's state when the connection starts. */
  const START := State(true, 0, [0, 0, 0, 0], 0, 0)

  /** A frame an endpoint may write: opcodes of RFC 6455, and lengths a 64-bit machine can hold. */
  predicate Writable(f: Frame) {
    (IsControl(f.op) || IsData(f.op) || f.op == CONTINUATION) && |f.payload| < TWO_63
  }

  /** fs as the wire shows them, written in the given role with the given masking keys. */
  function RawAll(server: bool, fs: seq<Frame>, keys: seq<Key>): (rs: seq<RawFrame>)
    requires |keys| == |fs| && forall f :: f in fs ==> Writable(f)
    ensures |rs| == |fs|
    ensures forall i :: 0 <= i < |fs| ==> rs[i] == Raw(server, fs[i], keys[i])
    ensures forall r :: r in rs ==> r.Valid()
    ensures FramesOf(rs) == fs
  {
    hide MaskSeq;
    var rs := seq(|fs|, i requires 0 <= i < |fs| => Raw(server, fs[i], keys[i]));
    assert forall i :: 0 <= i < |fs| ==> Writable(fs[i]);
    assert forall i :: 0 <= i < |fs| ==> rs[i].Valid();
    rs
  }

  /** No message outgrows the reader's limit, or what an int64 can count. */
  predicate Small(cfg: Config, m: Message) {
    |m.payload| < TWO_63 && (cfg.limit > 0 ==> |m.payload| <= cfg.limit)
  }

  predicate AllSmall(cfg: Config, a: Assembly) {
    (forall m :: m in a.done ==> Small(cfg, m)) && (a.open.Some? ==> Small(cfg, a.open.value))
  }

  lemma {:induction false} FoldGrows(a: Assembly, fs: seq<Frame>)
    requires Legal(a, fs)
    ensures a.done <= Fold(a, fs).done
    ensures a.closed ==> fs == []
    ensures a.open.Some? ==>
      (Fold(a, fs).open.Some? && LengthSoFar(a) <= LengthSoFar(Fold(a, fs))) ||
      (exists m :: m in Fold(a, fs).done && |m.payload| >= LengthSoFar(a))
    decreases fs
  {
    if fs != [] {
      var a' := Feed(a, fs[0]);
      FoldGrows(a', fs[1..]);
      FeedGrows(a, fs[0]);
      if a.open.Some? && a'.open.None? {
        assert Extended(a, fs[0]) == a'.done[|a.done|];
        assert a'.done[|a.done|] in Fold(a, fs).done;
      }
    }
  }

  /** Small messages are counted without overflow, frame by frame. */
  lemma {:induction false} SmallFramesWelcome(cfg: Config, a: Assembly, fs: seq<Frame>, keys: seq<Key>, left: nat)
    requires |keys| == |fs| && forall f :: f in fs ==> Writable(f)
    requires Legal(a, fs) && !Fold(a, fs).closed && AllSmall(cfg, Fold(a, fs))
    requires cfg.Patient()
    ensures WelcomeRun(cfg, a, RawAll(!cfg.server, fs, keys), left)
    decreases fs
  {
    if fs != [] {
      hide MaskSeq, Raw;
      var f, a' := fs[0], Feed(a, fs[0]);
      var rs := RawAll(!cfg.server, fs, keys);
      assert rs[1..] == RawAll(!cfg.server, fs[1..], keys[1..]);
      SmallFramesWelcome(cfg, a', fs[1..], keys[1..], left);
      FoldGrows(a', fs[1..]);
      FoldGrows(a, fs);
      SmallFrameWelcome(cfg, a, f, keys[0], fs[1..], |WireAll(rs[1..])| + left);
    }
  }

  lemma {:induction false} SmallFrameWelcome(cfg: Config, a: Assembly, f: Frame, key: Key, fs: seq<Frame>, left: nat)
    requires Writable(f) && Accepts(a, f) && Legal(Feed(a, f), fs)
    requires var z := Fold(Feed(a, f), fs); !z.closed && AllSmall(cfg, z)
    requires !cfg.pingFails(left) && !cfg.pongFails(left)
    ensures var r := Raw(!cfg.server, f, key);
      r.ToFrame() == f && r.op == f.op && Welcome(cfg, a, r, left) && r.op != CLOSE
  {
    hide MaskSeq;
    var a' := Feed(a, f);
    FoldGrows(a', fs);
    if !IsControl(f.op) {
      var n := LengthSoFar(a) + |f.payload|;
      var m := Extended(a, f);
      assert |m.payload| == n;
      if f.fin {
        assert m == a'.done[|a.done|];
        assert m in Fold(a', fs).done;
      }
      CountIsExact(cfg, LengthSoFar(a), |f.payload|);
    }
  }

  /**
   * The framing round trip: whatever legal frames a peer of the opposite role writes, fragmented and
   * interleaved with pings and pongs in any way, under any masking keys, the reader delivers exactly
   * the messages they form.
   */
  lemma {:induction false} RoundTrip(cfg: Config, fs: seq<Frame>, keys: seq<Key>)
    requires |keys| == |fs| && forall f :: f in fs ==> Writable(f)
    requires Legal(EMPTY, fs) && !Fold(EMPTY, fs).closed && AllSmall(cfg, Fold(EMPTY, fs))
    requires cfg.Patient()
    ensures ReadAll(cfg, START, WireAll(RawAll(!cfg.server, fs, keys))) ==
            Outcome(Fold(EMPTY, fs).done, Fold(EMPTY, fs).open, UnexpectedEOF)
  {
    hide MaskSeq, RawAll, WireAll, Welcome, ReadAll;
    SmallFramesWelcome(cfg, EMPTY, fs, keys, 0);
    var rs := RawAll(!cfg.server, fs, keys);
    var st' := ReadsFrames(cfg, EMPTY, START, rs, []);
    assert WireAll(rs) + [] == WireAll(rs);
    EndOfStream(cfg, Fold(EMPTY, fs), st');
    var z := Fold(EMPTY, fs);
    assert z.done[0..] + [] == z.done;
  }

  /** A stream that ends between two frames. */
  lemma EndOfStream(cfg: Config, a: Assembly, st: State)
    requires Agree(a, st)
    ensures ReadFrom(cfg, a.open, st, []) == Outcome([], a.open, UnexpectedEOF)
  {
    CutHere(cfg, a, st, []);
  }

  /** After a well-formed close frame nothing is read, whatever follows it. */
  lemma CloseEndsReading(cfg: Config, a: Assembly, st: State, r: RawFrame, rest: seq<Byte>)
    requires r.Valid() && Agree(a, st) && LengthSoFar(a) < TWO_63
    requires r.op == CLOSE && Welcome(cfg, a, r, |rest|)
    ensures ReadFrom(cfg, a.open, st, r.Wire() + rest) ==
      Outcome([], a.open, Answered(cfg, |rest|, CloseReceived(CloseCode(r.Payload()))))
  {
    hide MaskSeq, Advance, ReadAll, Continue, RawFrame.Wire;
    var st0 := st.(length := LengthSoFar(a));
    AdvanceAccepts(cfg, a, st0, r, rest);
    if a.open.None? {
      NextStep(cfg, st, r.Wire() + rest);
    } else {
      assert st0 == st;
      FailsInside(cfg, a.open.value, st, r.Wire() + rest);
    }
  }

  lemma {:induction false} FailsInside(cfg: Config, m: Message, st: State, s: seq<Byte>)
    requires st.rem == 0 && !st.final && Advance(cfg, st, s).Failed?
    ensures Continue(cfg, m, st, s) == Outcome([], Some(m), Advance(cfg, st, s).error)
  {
    hide Advance, ReadAll;
    assert m.payload + [] == m.payload;
  }

  /** The frame in which byte k of the stream falls, and the offset within it. */
  lemma {:induction false} FrameAt(rs: seq<RawFrame>, k: nat) returns (j: nat, c: nat)
    requires forall r :: r in rs ==> r.Valid()
    requires k < |WireAll(rs)|
    ensures j < |rs| && c < |rs[j].Wire()|
    ensures k == |WireAll(rs[..j])| + c
    ensures WireAll(rs)[..k] == WireAll(rs[..j]) + rs[j].Wire()[..c]
  {
    hide RawFrame.Wire;
    var w := rs[0].Wire();
    if k < |w| {
      j, c := 0, k;
      assert WireAll(rs)[..k] == w[..k];
      assert WireAll([]) + w[..k] == w[..k];
    } else {
      j, c := FrameAt(rs[1..], k - |w|);
      assert rs[1..][..j] == rs[1..j + 1] && rs[..j + 1][1..] == rs[1..j + 1];
      assert WireAll(rs[..j + 1]) == w + WireAll(rs[1..j + 1]);
      assert WireAll(rs)[..k] == w + WireAll(rs[1..])[..k - |w|];
      j := j + 1;
    }
  }

  lemma {:induction false} FoldSplit(a: Assembly, fs: seq<Frame>, j: nat)
    requires Legal(a, fs) && j <= |fs|
    ensures Legal(a, fs[..j]) && Legal(Fold(a, fs[..j]), fs[j..])
    ensures Fold(Fold(a, fs[..j]), fs[j..]) == Fold(a, fs)
    decreases fs
  {
    if j == 0 {
      assert fs[..0] == [] && fs[0..] == fs;
    } else {
      FoldSplit(Feed(a, fs[0]), fs[1..], j - 1);
      assert fs[..j][1..] == fs[1..][..j - 1] && fs[1..][j - 1..] == fs[j..];
    }
  }

  /**
   * Truncation: from the first k bytes of what a peer wrote the reader delivers exactly the messages
   * whose frames lie wholly within them, then the start of the next one, and never reports its end.
   */
  lemma Truncation(cfg: Config, fs: seq<Frame>, keys: seq<Key>, k: nat) returns (j: nat, c: nat)
    requires |keys| == |fs| && forall f :: f in fs ==> Writable(f)
    requires Legal(EMPTY, fs) && !Fold(EMPTY, fs).closed && AllSmall(cfg, Fold(EMPTY, fs))
    requires cfg.Patient()
    requires k < |WireAll(RawAll(!cfg.server, fs, keys))|
    ensures j < |fs| && Legal(EMPTY, fs[..j])
    ensures var rs := RawAll(!cfg.server, fs, keys);
      k == |WireAll(rs[..j])| + c && c < |rs[j].Wire()| &&
      ReadAll(cfg, START, WireAll(rs)[..k]) ==
      Outcome(Fold(EMPTY, fs[..j]).done, PartialMessage(Fold(EMPTY, fs[..j]), rs[j], c), UnexpectedEOF)
    ensures Fold(EMPTY, fs[..j]).done <= Fold(EMPTY, fs).done
  {
    hide MaskSeq, RawAll, WireAll, Welcome, ReadAll, RawFrame.Wire, PartialMessage, CountLength;
    var rs := RawAll(!cfg.server, fs, keys);
    j, c := FrameAt(rs, k);
    FoldSplit(EMPTY, fs, j);
    var z := Fold(EMPTY, fs[..j]);
    FoldGrows(z, fs[j..]);
    assert fs[j..][0] == fs[j] && fs[j..][1..] == fs[j + 1..];
    PrefixWelcome(cfg, fs, keys, j, c);
    assert rs[..j] == RawAll(!cfg.server, fs[..j], keys[..j]);
    var tail := rs[j].Wire()[..c];
    var st' := ReadsFrames(cfg, EMPTY, START, rs[..j], tail);
    SmallFrameWelcome(cfg, z, fs[j], keys[j], fs[j + 1..], 0);
    WelcomeAccepts(cfg, z, rs[j], 0);
    CutFrame(cfg, z, st', rs[j], c);
    assert z.done[0..] + [] == z.done;
  }

  lemma PrefixWelcome(cfg: Config, fs: seq<Frame>, keys: seq<Key>, j: nat, left: nat)
    requires |keys| == |fs| && forall f :: f in fs ==> Writable(f)
    requires Legal(EMPTY, fs) && !Fold(EMPTY, fs).closed && AllSmall(cfg, Fold(EMPTY, fs))
    requires cfg.Patient()
    requires j <= |fs|
    ensures WelcomeRun(cfg, EMPTY, RawAll(!cfg.server, fs[..j], keys[..j]), left)
  {
    hide MaskSeq;
    FoldSplit(EMPTY, fs, j);
    var z := Fold(EMPTY, fs[..j]);
    FoldGrows(z, fs[j..]);
    SmallFramesWelcome(cfg, EMPTY, fs[..j], keys[..j], left);
  }

  // ----- Messages cut short -----

  /** part is the start of whole. */
  predicate Within(part: Option<Message>, whole: Message) {
    part.Some? ==> part.value.op == whole.op && part.value.payload <= whole.payload
  }

  /** The i-th message of an assembly, the open one counted last. */
  function MessageAt(a: Assembly, i: nat): Option<Message> {
    if i < |a.done| then Some(a.done[i]) else if i == |a.done| then a.open else None
  }

  /** An open message only ever grows, until it is done. */
  lemma {:induction false} OpenGrows(a: Assembly, fs: seq<Frame>)
    requires Legal(a, fs) && a.open.Some?
    ensures var m := MessageAt(Fold(a, fs), |a.done|); m.Some? && Within(a.open, m.value)
    decreases fs
  {
    if fs != [] {
      var a' := Feed(a, fs[0]);
      FoldGrows(a', fs[1..]);
      if a'.open.Some? {
        OpenGrows(a', fs[1..]);
      }
    }
  }

  /** A frame's message is found in whatever the frames after it assemble to. */
  lemma {:induction false} ExtendedGrows(a: Assembly, f: Frame, fs: seq<Frame>)
    requires Accepts(a, f) && Legal(Feed(a, f), fs) && !IsControl(f.op)
    ensures var m := MessageAt(Fold(Feed(a, f), fs), |a.done|); m.Some? && Within(Some(Extended(a, f)), m.value)
  {
    var a' := Feed(a, f);
    FoldGrows(a', fs);
    if a'.open.Some? {
      OpenGrows(a', fs);
    }
  }

  lemma PartialWithin(a: Assembly, r: RawFrame, c: nat)
    requires r.Valid() && c < |r.Wire()| && Accepts(a, r.ToFrame())
    ensures var p := PartialMessage(a, r, c);
      p == a.open || (!IsControl(r.op) && Within(p, Extended(a, r.ToFrame())))
  {
    hide MaskSeq, RawFrame.Header, RawFrame.Wire;
    assert r.Wire() == r.Header() + r.body by {
      WireParts(r);
    }
  }

  lemma WireParts(r: RawFrame)
    requires r.Valid()
    ensures r.Wire() == r.Header() + r.body && |r.Payload()| == |r.body|
  {
    hide MaskSeq;
  }
}
