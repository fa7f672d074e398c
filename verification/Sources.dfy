/** io.Reader as the copying loops use it: a plain byte stream, or the reader of the current message. */
module Sources {
  import opened Bytes
  import opened Reading
  import opened ReadConns

  datatype ReadError = EndOfFile | Broken

  /** A byte stream that ends with io.EOF or breaks off with another error. */
  class ByteSource {
    var data: seq<Byte>
    const clean: bool

    constructor (data: seq<Byte>, clean: bool)
      ensures this.data == data && this.clean == clean
    {
      this.data, this.clean := data, clean;
    }

    /** Read into an empty buffer: nothing, and perhaps the error that stands at the end. */
    method Poll() returns (err: Option<ReadError>)
      ensures err.Some? ==> data == [] && err == Some(if clean then EndOfFile else Broken)
    {
      err := None;
      var report: bool := *;
      if report && data == [] {
        err := Some(if clean then EndOfFile else Broken);
      }
    }

    /** Read: at least one byte or an error; the error may come together with the last bytes. */
    method Read(b: array<Byte>, lo: nat, hi: nat) returns (n: nat, err: Option<ReadError>)
      requires lo < hi <= b.Length
      modifies this`data, b
      ensures n <= hi - lo && old(data) == b[lo..lo + n] + data
      ensures b[..lo] == old(b[..lo]) && b[lo + n..] == old(b[lo + n..])
      ensures err.None? ==> n > 0
      ensures err.Some? ==> data == [] && err == Some(if clean then EndOfFile else Broken)
    {
      n := 0;
      if data != [] {
        n :| 1 <= n <= hi - lo && n <= |data|;
      }
      Copy(b, lo, data[..n]);
      data := data[n..];
      err := None;
      if data == [] {
        var report: bool := *;
        if n == 0 || report {
          err := Some(if clean then EndOfFile else Broken);
        }
      }
    }
  }

  /** Writing b[mid..end] extends the part of b written from lo on, and leaves the outside of lo..hi alone. */
  lemma Filled(before: seq<Byte>, after: seq<Byte>, lo: nat, mid: nat, end: nat, hi: nat)
    requires lo <= mid <= end <= hi <= |after| == |before|
    requires after[..mid] == before[..mid] && after[end..] == before[end..]
    ensures after[lo..end] == before[lo..mid] + after[mid..end]
    ensures after[..lo] == before[..lo] && after[hi..] == before[hi..]
  {
    assert forall i :: 0 <= i < mid ==> after[i] == after[..mid][i] == before[i];
    assert forall i :: end <= i < |after| ==> after[i] == after[end..][i - end] == before[i];
  }

  /** Filled, with what has been read of all and what is left of it. */
  lemma FilledFrom(
      before: seq<Byte>, after: seq<Byte>, lo: nat, mid: nat, end: nat, hi: nat, all: seq<Byte>, data: seq<Byte>,
      left: seq<Byte>)
    requires lo <= mid <= end <= hi <= |after| == |before|
    requires after[..mid] == before[..mid] && after[end..] == before[end..]
    requires all == before[lo..mid] + data && data == after[mid..end] + left
    ensures all == after[lo..end] + left
    ensures after[..lo] == before[..lo] && after[hi..] == before[hi..]
  {
    Filled(before, after, lo, mid, end, hi);
    Assoc(before[lo..mid], after[mid..end], left);
  }

  /** io.ReadFull(r, b[lo:hi]), and io.ReadAtLeast for the whole of b[lo:hi]. */
  method ReadFull(r: ByteSource, b: array<Byte>, lo: nat, hi: nat) returns (n: nat, ok: bool)
    requires lo <= hi <= b.Length
    modifies r, b
    ensures n <= hi - lo && old(r.data) == b[lo..lo + n] + r.data
    ensures b[..lo] == old(b[..lo]) && b[hi..] == old(b[hi..])
    ensures ok <==> n == hi - lo
    ensures !ok ==> r.data == []
  {
    n := 0;
    while n < hi - lo
      invariant n <= hi - lo && old(r.data) == b[lo..lo + n] + r.data
      invariant b[..lo] == old(b[..lo]) && b[hi..] == old(b[hi..])
    {
      ghost var before, data := b[..], r.data;
      var m, err := r.Read(b, lo + n, hi);
      FilledFrom(before, b[..], lo, lo + n, lo + n + m, hi, old(r.data), data, r.data);
      n := n + m;
      if err.Some? {
        return n, n == hi - lo;
      }
    }
    ok := true;
  }

  datatype Source = FromBytes(bytes: ByteSource) | FromMessage(message: MessageReader)
  {
    /** The connection read from, if there is one. */
    ghost function Frame(): set<object> {
      match this
      case FromBytes(s) => {s}
      case FromMessage(r) => {r.c}
    }

    /** A source not yet at its end. */
    ghost predicate Ready()
      reads Frame()
    {
      match this
      case FromBytes(_) => true
      case FromMessage(r) => r.c.Valid() && r.c.messageReader == r && r.c.readErr.None?
    }

    /** Everything it will still deliver. */
    ghost function Ahead(): seq<Byte>
      requires Ready()
      reads Frame()
    {
      match this
      case FromBytes(s) => s.data
      case FromMessage(r) => ReadMessage(r.c.cfg, r.c.St(), r.c.input).payload
    }

    /** Whether io.EOF comes exactly at the true end: unless a transport reports its end together with payload. */
    ghost predicate Honest()
      reads Frame()
    {
      FromMessage? ==> !message.c.eager
    }

    /** Whether io.EOF follows. */
    ghost predicate Clean()
      requires Ready()
      reads Frame()
    {
      match this
      case FromBytes(s) => s.clean
      case FromMessage(r) => ReadMessage(r.c.cfg, r.c.St(), r.c.input).Whole?
    }

    /** The end of the current message as it stands before a read. */
    ghost function Before(): MessageEnd
      requires Ready()
      reads Frame()
    {
      match this
      case FromBytes(_) => Cut([], EOF)
      case FromMessage(r) => ReadMessage(r.c.cfg, r.c.St(), r.c.input)
    }

    method Read(b: array<Byte>, lo: nat, hi: nat) returns (n: nat, err: Option<ReadError>)
      requires Ready() && lo < hi <= b.Length && b !in Frame()
      modifies Frame(), b
      ensures n <= hi - lo && b[..lo] == old(b[..lo]) && b[lo + n..] == old(b[lo + n..])
      ensures err.None? ==> n > 0 && Ready() && old(Ahead()) == b[lo..lo + n] + Ahead() && Clean() == old(Clean())
      ensures err.Some? ==> old(Ahead()) == b[lo..lo + n] && (old(Clean()) ==> err == Some(EndOfFile))
      ensures err == Some(EndOfFile) && Honest() ==> old(Clean())
      ensures FromMessage? ==> message.c.Valid() && MessageAfter(message.c, b[lo..lo + n], err, old(Before()))
    {
      hide ReadMessage;
      match this
      case FromBytes(s) =>
        n, err := s.Read(b, lo, hi);
      case FromMessage(r) =>
        var e;
        ghost var early;
        n, e, early := r.Read(b, lo, hi);
        if early {
          NoMorePayload(r.c.cfg, r.c.St());
          assert b[lo..lo + n] + [] == b[lo..lo + n];
        }
        err := if e.None? then None else if e == Some(EOF) then Some(EndOfFile) else Some(Broken);
    }
  }

  /**
   * How the message before stands to the connection after a read that delivered data. An early io.EOF
   * stays with the connection, and comes of a whole message or of a cut one.
   */
  ghost predicate MessageAfter(c: ReadConn, data: seq<Byte>, err: Option<ReadError>, before: MessageEnd)
    requires c.Valid()
    reads c
  {
    match err
    case None => c.readErr.None? && before == ReadMessage(c.cfg, c.St(), c.input).Prepend(data)
    case Some(EndOfFile) =>
      if c.readErr.None? then c.messageReader == null && before == Whole(data, c.St(), c.input)
      else c.eager && c.readErr == Some(EOF) && c.input == [] && EarlyEnd(before, data, c.St())
    case Some(Broken) => c.readErr.Some? && before == Cut(data, c.readErr.value)
  }

  /** The truth behind an io.EOF that comes together with the last of data, in state st. */
  ghost predicate EarlyEnd(before: MessageEnd, data: seq<Byte>, st: State) {
    st.rem == 0 && before == if st.final then Whole(data, st, []) else Cut(data, UnexpectedEOF)
  }

  /** The end of the stream in state st. */
  lemma {:induction false} NoMorePayload(cfg: Config, st: State)
    ensures ReadMessage(cfg, st, []) == if st.rem == 0 && st.final then Whole([], st, []) else Cut([], UnexpectedEOF)
  {
    hide AfterFixedHeader;
  }

  /** Reads add up. */
  lemma MessageAfterMore(
      c: ReadConn, data: seq<Byte>, chunk: seq<Byte>, err: Option<ReadError>, mid: MessageEnd, before: MessageEnd)
    requires c.Valid() && MessageAfter(c, chunk, err, mid) && before == mid.Prepend(data)
    ensures MessageAfter(c, data + chunk, err, before)
  {
    hide ReadMessage;
    if err.None? {
      PrependTwice(ReadMessage(c.cfg, c.St(), c.input), data, chunk);
    }
  }
}
