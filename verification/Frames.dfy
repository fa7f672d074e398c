/**
 * Frames and messages of section 5 of RFC 6455: the bytes of a frame, and the automaton that says
 * which frame sequences form messages. Both the writing and the reading side are proved against it.
 */
module Frames {
  import opened Bytes
  import opened Masking

  const CONTINUATION: nat := 0
  const TEXT: nat := 1
  const BINARY: nat := 2
  const CLOSE: nat := 8
  const PING: nat := 9
  const PONG: nat := 10
  const MAX_CONTROL: nat := 125

  predicate IsControl(op: int) {
    op == CLOSE || op == PING || op == PONG
  }

  predicate IsData(op: int) {
    op == TEXT || op == BINARY
  }

  datatype Frame = Frame(fin: bool, op: nat, payload: seq<Byte>)

  datatype Message = Message(op: nat, payload: seq<Byte>)

  // ----- Bytes of a frame -----

  /** How the payload length is written: in seven bits, or in two or eight further bytes. */
  datatype LengthForm = Short | Medium | Long

  /** A frame as it stands on the wire: any bits, any admissible length form, body possibly masked. */
  datatype RawFrame = RawFrame(fin: bool, rsv: nat, op: nat, form: LengthForm, masked: bool, key: Key, body: seq<Byte>)
  {
    predicate Valid() {
      rsv < 8 && op < 16 &&
      match form
      case Short => |body| <= 125
      case Medium => |body| < 0x1_0000
      case Long => |body| < TWO_64
    }

    function Byte0(): Byte
      requires Valid()
    {
      (if fin then 128 else 0) + rsv * 16 + op
    }

    function Byte1(): Byte
      requires Valid()
    {
      (if masked then 128 else 0) + match form case Short => |body| case Medium => 126 case Long => 127
    }

    function LengthBytes(): seq<Byte> {
      match form case Short => [] case Medium => BE(|body|, 2) case Long => BE(|body|, 8)
    }

    function Header(): (h: seq<Byte>)
      requires Valid()
      ensures |h| >= 2
    {
      [Byte0(), Byte1()] + LengthBytes() + (if masked then key else [])
    }

    function Wire(): (w: seq<Byte>)
      requires Valid()
      ensures |w| >= 2
    {
      Header() + body
    }

    /** The payload the frame carries. */
    function Payload(): seq<Byte> {
      if masked then MaskSeq(key, 0, body) else body
    }

    function ToFrame(): Frame {
      Frame(fin, op, Payload())
    }
  }

  /** The shortest length form, the one flushFrame and WriteControl choose. */
  function FormOf(n: nat): LengthForm {
    if n >= 65536 then Long else if n > 125 then Medium else Short
  }

  /** A frame as an endpoint writes it; a client masks with the given key, a server does not mask. */
  function Raw(server: bool, f: Frame, key: Key): (r: RawFrame)
    ensures f.op < 16 && |f.payload| < TWO_63 ==> r.Valid()
    ensures r.ToFrame() == f
  {
    var body := if server then f.payload else MaskSeq(key, 0, f.payload);
    var r := RawFrame(f.fin, 0, f.op, FormOf(|f.payload|), !server, key, body);
    MaskTwice(key, 0, f.payload);
    r
  }

  function WireAll(rs: seq<RawFrame>): seq<Byte>
    requires forall r :: r in rs ==> r.Valid()
  {
    if rs == [] then [] else rs[0].Wire() + WireAll(rs[1..])
  }

  lemma {:induction false} WireAllAppend(rs: seq<RawFrame>, r: RawFrame)
    requires r.Valid() && forall q :: q in rs ==> q.Valid()
    ensures WireAll(rs + [r]) == WireAll(rs) + r.Wire()
  {
    hide RawFrame.Wire;
    if rs == [] {
      assert WireAll([r]) == r.Wire() + WireAll([]);
    } else {
      WireAllAppend(rs[1..], r);
      assert (rs + [r])[1..] == rs[1..] + [r];
    }
  }

  // ----- From frames to messages -----

  /** The messages completed so far, the one still open, and whether a close frame has been seen. */
  datatype Assembly = Assembly(done: seq<Message>, open: Option<Message>, closed: bool)

  const EMPTY := Assembly([], None, false)

  /** Sections 5.4 and 5.5: what may come next. */
  predicate Accepts(a: Assembly, f: Frame) {
    !a.closed &&
    if IsControl(f.op) then f.fin && |f.payload| <= MAX_CONTROL
    else if IsData(f.op) then a.open.None?
    else f.op == CONTINUATION && a.open.Some?
  }

  /** The message a data or continuation frame belongs to, up to and including that frame. */
  function Extended(a: Assembly, f: Frame): Message
    requires Accepts(a, f) && !IsControl(f.op)
  {
    if IsData(f.op) then Message(f.op, f.payload) else Message(a.open.value.op, a.open.value.payload + f.payload)
  }

  function Feed(a: Assembly, f: Frame): Assembly
    requires Accepts(a, f)
  {
    if IsControl(f.op) then a.(closed := f.op == CLOSE)
    else if f.fin then a.(done := a.done + [Extended(a, f)], open := None)
    else a.(open := Some(Extended(a, f)))
  }

  predicate Legal(a: Assembly, fs: seq<Frame>)
    decreases fs
  {
    fs == [] || (Accepts(a, fs[0]) && Legal(Feed(a, fs[0]), fs[1..]))
  }

  function Fold(a: Assembly, fs: seq<Frame>): Assembly
    requires Legal(a, fs)
    decreases fs
  {
    if fs == [] then a else Fold(Feed(a, fs[0]), fs[1..])
  }

  lemma {:induction false} FoldAppend(a: Assembly, fs: seq<Frame>, f: Frame)
    requires Legal(a, fs)
    ensures Legal(a, fs + [f]) <==> Accepts(Fold(a, fs), f)
    ensures Accepts(Fold(a, fs), f) ==> Fold(a, fs + [f]) == Feed(Fold(a, fs), f)
    decreases fs
  {
    if fs == [] {
      assert [f][1..] == [];
      assert fs + [f] == [f];
    } else {
      FoldAppend(Feed(a, fs[0]), fs[1..], f);
      assert (fs + [f])[1..] == fs[1..] + [f];
    }
  }

  /** A legal run has one close frame at most, and nothing after it. */
  lemma {:induction false} CloseIsLast(a: Assembly, fs: seq<Frame>, i: nat)
    requires Legal(a, fs) && i < |fs| && fs[i].op == CLOSE
    ensures i == |fs| - 1
    decreases fs
  {
    if i > 0 {
      CloseIsLast(Feed(a, fs[0]), fs[1..], i - 1);
    } else {
      assert Legal(Feed(a, fs[0]), fs[1..]) && Feed(a, fs[0]).closed;
    }
  }

  function FramesOf(rs: seq<RawFrame>): (fs: seq<Frame>)
    ensures |fs| == |rs|
    ensures forall i :: 0 <= i < |rs| ==> fs[i] == rs[i].ToFrame()
  {
    seq(|rs|, i requires 0 <= i < |rs| => rs[i].ToFrame())
  }
}
