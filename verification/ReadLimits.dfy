/** The read limit: what it guarantees, and what an abandoned message does to it. */
module ReadLimits {
  import opened Bytes
  import opened Masking
  import opened Frames
  import opened Reading
  import opened Streams

  /** The most a message may hold: the limit when one is set, and never more than an int64 counts. */
  function Cap(cfg: Config): nat {
    if 0 < cfg.limit < TWO_63 then cfg.limit else TWO_63 - 1
  }

  /** readLength counts at least the payload delivered so far: all but what the current frame still holds. */
  predicate Counted(cfg: Config, st: State) {
    st.rem <= st.length <= Cap(cfg)
  }

  lemma AdvanceCounts(cfg: Config, st: State, s: seq<Byte>)
    requires st.length <= Cap(cfg)
    ensures var step := Advance(cfg, st, s);
      (step.DataFrame? ==> Counted(cfg, step.st) && step.st.length == st.length + step.st.rem) &&
      (step.ControlFrame? ==> step.st.rem == 0 && step.st.length == st.length && step.st.final == st.final)
  {
    hide HeaderOk, MaskSeq, AfterHeader, PayloadLength;
    if |s| >= 2 && HeaderOk(cfg, st.final, s[0], s[1]) {
      var b1, t := s[1], s[2..];
      var x := ExtraLength(b1);
      var h := x + if b1 >= 128 then 4 else 0;
      if |t| >= h {
        var n := PayloadLength(b1, t[..x]);
        LengthBound(b1, t[..x]);
        if Int64(n) >= 0 {
          assert n < TWO_63;
          CountIsExact(cfg, st.length, n);
        }
        AfterHeaderState(cfg, st, s[0], n, if b1 >= 128 then t[x..h] else st.key, b1 >= 128, t[h..]);
      }
    }
  }

  lemma LengthBound(b1: Byte, ext: seq<Byte>)
    requires |ext| <= 8
    ensures PayloadLength(b1, ext) < TWO_64
  {
    PowerValues();
    FromBEBound(ext);
    PowMonotone(|ext|, 8);
  }

  lemma {:induction false} PowMonotone(i: nat, j: nat)
    requires i <= j
    ensures Pow256(i) <= Pow256(j)
    decreases j
  {
    if i < j {
      PowMonotone(i, j - 1);
    }
  }

  lemma AfterHeaderState(cfg: Config, st: State, b0: Byte, n: nat, key: Key, masked: bool, s: seq<Byte>)
    ensures var step := AfterHeader(cfg, st, b0, n, key, masked, s);
      (step.ControlFrame? ==> step.st.rem == 0 && step.st.length == st.length && step.st.final == st.final) &&
      (step.DataFrame? ==> step.st.rem == n && CountLength(cfg, st.length, n) == Some(step.st.length))
  {
    hide MaskSeq, ValidCloseCode, CountLength;
  }

  /** Whatever the peer sends, no message delivers more than the cap. */
  lemma {:induction false} DeliveredWithinCap(cfg: Config, st: State, s: seq<Byte>)
    requires Counted(cfg, st)
    ensures |ReadMessage(cfg, st, s).payload| + (st.length - st.rem) <= Cap(cfg)
    decreases |s|, st.rem
  {
    hide MaskSeq, Advance;
    if st.rem > 0 {
      var k := Min(st.rem, |s|);
      if k > 0 {
        DeliveredWithinCap(cfg, Consume(cfg, st, k), s[k..]);
      }
    } else if !st.final {
      AdvanceCounts(cfg, st, s);
      var step := Advance(cfg, st, s);
      if !step.Failed? {
        DeliveredWithinCap(cfg, step.st, step.rest);
      }
    }
  }

  lemma {:induction false} NextCounts(cfg: Config, st: State, s: seq<Byte>)
    requires st.length <= Cap(cfg)
    ensures NextData(cfg, st, s).Next? ==> Counted(cfg, NextData(cfg, st, s).st)
    decreases |s|
  {
    hide Advance;
    if |s| >= st.rem {
      var st0, rest := st.(rem := 0), s[st.rem..];
      AdvanceCounts(cfg, st0, rest);
      var step := Advance(cfg, st0, rest);
      if step.ControlFrame? || (step.DataFrame? && !IsData(step.op)) {
        NextCounts(cfg, step.st, step.rest);
      }
    }
  }

  /** The read limit: a message NextReader announces never delivers more than the limit. */
  lemma {:induction false} ReadLimitHolds(cfg: Config, st: State, s: seq<Byte>)
    requires NextReader(cfg, st, s).Next?
    ensures var n := NextReader(cfg, st, s); |ReadMessage(cfg, n.st, n.rest).payload| <= Cap(cfg)
  {
    NextCounts(cfg, st.(length := 0), s);
    var n := NextReader(cfg, st, s);
    DeliveredWithinCap(cfg, n.st, n.rest);
  }

  // ----- A message that is not read to its end -----

  /** Where the mask stood in a payload that was skipped does not matter to the frames after it. */
  lemma PositionForgotten(cfg: Config, st: State, q: Phase, s: seq<Byte>)
    requires cfg.server
    ensures Advance(cfg, st.(pos := q), s) == Advance(cfg, st, s)
  {
  }

  lemma {:induction false} NextPositionForgotten(cfg: Config, st: State, q: Phase, s: seq<Byte>)
    requires cfg.server && st.rem == 0
    ensures NextData(cfg, st.(pos := q), s) == NextData(cfg, st, s)
  {
    hide Advance;
    PositionForgotten(cfg, st, q, s);
    assert s[0..] == s;
    assert st.(pos := q).(rem := 0) == st.(pos := q) && st.(rem := 0) == st;
  }

  lemma {:induction false} ShortPayloadIsCut(cfg: Config, st: State, s: seq<Byte>)
    ensures |s| < st.rem ==> ReadMessage(cfg, st, s).Cut?
  {
    hide Advance, MaskSeq;
    if 0 < |s| < st.rem {
      assert s[|s|..] == [];
      assert ReadMessage(cfg, Consume(cfg, st, |s|), []).Cut?;
    }
  }

  /**
   * NextReader on a message not read to its end: it passes over exactly what reading would have
   * delivered, but the continuation frames it passes over are counted in readLength.
   */
  lemma {:induction false} SkippingCounts(cfg: Config, st: State, s: seq<Byte>)
    requires st.length <= Cap(cfg) && ReadMessage(cfg, st, s).Whole?
    ensures var e := ReadMessage(cfg, st, s);
      NextData(cfg, st, s) == NextData(cfg, e.st, e.rest) && e.st.length + st.rem == st.length + |e.payload| &&
      e.st.length <= Cap(cfg)
    decreases |s|, st.rem
  {
    hide Advance, MaskSeq;
    if st.rem > 0 {
      var k := Min(st.rem, |s|);
      ShortPayloadIsCut(cfg, st, s);
      var st1 := Consume(cfg, st, k);
      SkippingCounts(cfg, st1, s[k..]);
      assert s[k..][0..] == s[k..];
      assert NextData(cfg, st.(rem := 0), s[k..]) == NextData(cfg, st, s);
      if cfg.server {
        NextPositionForgotten(cfg, st.(rem := 0), st1.pos, s[k..]);
      }
      assert st1 == st.(rem := 0).(pos := st1.pos);
    } else if !st.final {
      AdvanceCounts(cfg, st, s);
      var step := Advance(cfg, st, s);
      InMessageStep(cfg, st, s);
      SkippingCounts(cfg, step.st, step.rest);
      assert s[0..] == s && st.(rem := 0) == st;
    }
  }

  /** Pings and pongs that the reader lets pass, with left bytes behind them. */
  predicate Quiet(cfg: Config, cs: seq<RawFrame>, left: nat)
    decreases |cs|
  {
    cs == [] ||
    (cs[0].Valid() && IsControl(cs[0].op) && cs[0].op != CLOSE && (forall c :: c in cs[1..] ==> c.Valid()) &&
     Welcome(cfg, EMPTY, cs[0], |WireAll(cs[1..])| + left) && Quiet(cfg, cs[1..], left))
  }

  function AfterQuiet(st: State, cs: seq<RawFrame>): State
    decreases |cs|
  {
    if cs == [] then st else AfterQuiet(HeaderState(st, cs[0], 0, st.length), cs[1..])
  }

  /** Between messages they do not change what comes next. */
  lemma {:induction false} SkipsQuiet(cfg: Config, st: State, cs: seq<RawFrame>, tail: seq<Byte>)
    requires st.rem == 0 && st.final && (forall c :: c in cs ==> c.Valid()) && Quiet(cfg, cs, |tail|)
    ensures NextData(cfg, st, WireAll(cs) + tail) == NextData(cfg, AfterQuiet(st, cs), tail)
    ensures var st' := AfterQuiet(st, cs); st'.rem == 0 && st'.final && st'.length == st.length
    decreases |cs|
  {
    hide MaskSeq, Advance, RawFrame.Wire, Welcome;
    if cs == [] {
      assert WireAll(cs) + tail == tail;
    } else {
      var rest := WireAll(cs[1..]) + tail;
      var s := WireAll(cs) + tail;
      Assoc(cs[0].Wire(), WireAll(cs[1..]), tail);
      AdvanceAccepts(cfg, EMPTY, st, cs[0], rest);
      assert s[0..] == s && st.(rem := 0) == st;
      SkipsQuiet(cfg, HeaderState(st, cs[0], 0, st.length), cs[1..], tail);
    }
  }

  /**
   * The next message, behind any pings and pongs, opens when its first frame fits under the limit
   * together with what was skipped.
   */
  lemma {:induction false} AfterAbandonedMessage(
      cfg: Config, st: State, s: seq<Byte>, cs: seq<RawFrame>, r: RawFrame, rest: seq<Byte>)
    requires r.Valid() && BitsOk(cfg, r) && IsData(r.op) && |r.body| < TWO_63
    requires (forall c :: c in cs ==> c.Valid()) && Quiet(cfg, cs, |r.Wire() + rest|)
    requires var e := ReadMessage(cfg, st.(length := 0), s); e.Whole? && e.rest == WireAll(cs) + (r.Wire() + rest)
    ensures var e := ReadMessage(cfg, st.(length := 0), s);
      |e.payload| >= st.rem &&
      (NextReader(cfg, st, s).Next? <==> |e.payload| - st.rem + |r.body| <= Cap(cfg)) &&
      (NextReader(cfg, e.st, e.rest).Next? <==> |r.body| <= Cap(cfg))
  {
    hide ReadMessage, NextData, RawFrame.Wire, BitsOk, Quiet, AfterQuiet, WireAll;
    var st0, tail := st.(length := 0), r.Wire() + rest;
    var e := ReadMessage(cfg, st0, s);
    SkippingCounts(cfg, st0, s);
    ReadMessageRest(cfg, st0, s);
    SkipsQuiet(cfg, e.st, cs, tail);
    SkipsQuiet(cfg, e.st.(length := 0), cs, tail);
    OpenerFits(cfg, AfterQuiet(e.st, cs), r, rest);
    OpenerFits(cfg, AfterQuiet(e.st.(length := 0), cs), r, rest);
  }

  lemma {:induction false} OpenerFits(cfg: Config, st: State, r: RawFrame, rest: seq<Byte>)
    requires r.Valid() && BitsOk(cfg, r) && IsData(r.op) && |r.body| < TWO_63
    requires st.rem == 0 && st.final && st.length < TWO_63
    ensures NextData(cfg, st, r.Wire() + rest).Next? <==> st.length + |r.body| <= Cap(cfg)
  {
    hide MaskSeq, Advance, AfterHeader, RawFrame.Header;
    var s := r.Wire() + rest;
    AdvanceHeader(cfg, EMPTY, st, r, r.body + rest);
    assert s == r.Header() + (r.body + rest);
    AfterDataHeader(cfg, st, st.length, r, rest);
    CountIsExact(cfg, st.length, |r.body|);
    assert s[0..] == s && st.(rem := 0) == st;
  }

  /** A message of two frames, read from within the first one. */
  lemma {:induction false} TwoFrameMessage(cfg: Config, st: State, body: seq<Byte>, r: RawFrame, rest: seq<Byte>)
    requires r.Valid() && BitsOk(cfg, r) && r.op == CONTINUATION && r.fin && |r.body| < TWO_63
    requires !st.final && st.rem == |body| && st.length + |r.body| <= Cap(cfg)
    ensures var e := ReadMessage(cfg, st, body + (r.Wire() + rest));
      e.Whole? && |e.payload| == |body| + |r.body| && e.rest == rest
  {
    hide MaskSeq, Advance, AfterHeader, RawFrame.Header, ReadMessage;
    var open := Assembly([], Some(Message(TEXT, [])), false);
    var st1 := Consume(cfg, st, |body|);
    ReadBody(cfg, st, body, r.Wire() + rest);
    AdvanceHeader(cfg, open, st1, r, r.body + rest);
    assert r.Wire() + rest == r.Header() + (r.body + rest);
    AfterDataHeader(cfg, st1, st1.length, r, rest);
    CountIsExact(cfg, st1.length, |r.body|);
    var st2 := HeaderState(st1, r, |r.body|, st1.length + |r.body|);
    assert Advance(cfg, st1, r.Wire() + rest) == DataFrame(r.op, st2, r.body + rest);
    ReadBody(cfg, st2, r.body, rest);
    ReadUnfold(cfg, st1, r.Wire() + rest);
    ReadUnfold(cfg, Consume(cfg, st2, |r.body|), rest);
  }

  lemma {:induction false} ReadUnfold(cfg: Config, st: State, s: seq<Byte>)
    requires st.rem == 0
    ensures st.final ==> ReadMessage(cfg, st, s) == Whole([], st, s)
    ensures !st.final && !Advance(cfg, st, s).Failed? ==>
      ReadMessage(cfg, st, s) == ReadMessage(cfg, Advance(cfg, st, s).st, Advance(cfg, st, s).rest)
  {
    hide Advance;
  }

  /**
   * With a limit of 2 bytes, a peer sends two bytes in two frames and then two in one. An application
   * that reads the first message gets the second; one that leaves it unread is refused the second.
   */
  lemma {:induction false} UnreadMessageRefusesNext(cfg: Config)
    requires !cfg.server && cfg.limit == 2
    ensures var key := [0, 0, 0, 0];
      var a1, a2 := Raw(true, Frame(false, TEXT, [97]), key), Raw(true, Frame(true, CONTINUATION, [98]), key);
      var b := Raw(true, Frame(true, TEXT, [99, 100]), key);
      var n := NextReader(cfg, START, a1.Wire() + (a2.Wire() + b.Wire()));
      n.Next? && !NextReader(cfg, n.st, n.rest).Next? &&
      ReadMessage(cfg, n.st, n.rest).Whole? &&
      NextReader(cfg, ReadMessage(cfg, n.st, n.rest).st, ReadMessage(cfg, n.st, n.rest).rest).Next?
  {
    hide MaskSeq, ReadMessage, NextData, Advance, RawFrame.Wire;
    var key := [0, 0, 0, 0];
    var a1, a2 := Raw(true, Frame(false, TEXT, [97]), key), Raw(true, Frame(true, CONTINUATION, [98]), key);
    var b := Raw(true, Frame(true, TEXT, [99, 100]), key);
    var rest := a2.Wire() + b.Wire();
    AdvanceAccepts(cfg, EMPTY, START, a1, rest);
    CountIsExact(cfg, 0, 1);
    var st := HeaderState(START, a1, 1, 1);
    NextUnfold(cfg, START, a1.Wire() + rest);
    TwoFrameMessage(cfg, st, [97], a2, b.Wire());
    TwoFrameMessage(cfg, st.(length := 0), [97], a2, b.Wire());
    assert b.Wire() + [] == b.Wire();
    AfterAbandonedMessage(cfg, st, [97] + rest, [], b, []);
    var e := ReadMessage(cfg, st, [97] + rest);
    ReadMessageRest(cfg, st, [97] + rest);
    OpenerFits(cfg, e.st.(length := 0), b, []);
  }

  lemma NextUnfold(cfg: Config, st: State, s: seq<Byte>)
    requires st.rem == 0 && st.length == 0
    ensures var step := Advance(cfg, st, s);
      step.DataFrame? && IsData(step.op) ==> NextReader(cfg, st, s) == Next(step.op, step.st, step.rest)
  {
    hide Advance;
    assert s[0..] == s && st.(rem := 0) == st && st.(length := 0) == st;
  }
}
