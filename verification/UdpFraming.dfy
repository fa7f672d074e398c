/**
 * UDP over TCP: each datagram travels as a two-byte little-endian length and its bytes. Encoders and
 * decoders of internal/network/udp.go and dialer/udp.go.
 */
module UdpFraming {
  import opened Bytes
  import opened Pools
  import opened Sources

  const MAX_DATAGRAM: nat := 65535

  /** A datagram as it stands in the stream; the length is truncated to 16 bits. */
  function FrameOf(d: seq<Byte>): (f: seq<Byte>)
    ensures |f| == |d| + 2
  {
    LE(|d| % 0x1_0000, 2) + d
  }

  function Frames(ds: seq<seq<Byte>>): seq<Byte> {
    if ds == [] then [] else FrameOf(ds[0]) + Frames(ds[1..])
  }

  function NonEmpty(ds: seq<seq<Byte>>): seq<seq<Byte>> {
    if ds == [] then [] else (if ds[0] == [] then [] else [ds[0]]) + NonEmpty(ds[1..])
  }

  /** The datagrams a decoder writes out from a stream: whole frames only, empty ones skipped. */
  function Decode(s: seq<Byte>): seq<seq<Byte>>
    decreases |s|
  {
    if |s| < 2 then []
    else
      var n := FromLE(s[..2]);
      if |s| < 2 + n then []
      else (if n == 0 then [] else [s[2..2 + n]]) + Decode(s[2 + n..])
  }

  /** Decoding inverts framing, and ignores an incomplete frame at the end. */
  lemma {:induction false} DecodeFrames(ds: seq<seq<Byte>>, d: seq<Byte>, c: nat)
    requires |d| <= MAX_DATAGRAM && (forall e :: e in ds ==> |e| <= MAX_DATAGRAM)
    requires c < |FrameOf(d)|
    ensures Decode(Frames(ds) + FrameOf(d)[..c]) == NonEmpty(ds)
  {
    hide FrameOf, Decode;
    var tail := FrameOf(d)[..c];
    if ds == [] {
      assert Frames(ds) + tail == tail;
      DecodeCut(d, c);
    } else {
      var rest := Frames(ds[1..]) + tail;
      DecodeFrames(ds[1..], d, c);
      DecodeOne(ds[0], rest);
      Assoc(FrameOf(ds[0]), Frames(ds[1..]), tail);
      var first := [ds[0]];
      assert first[1..] == [];
      assert NonEmpty(first) == if ds[0] == [] then [] else first;
    }
  }

  lemma DecodeCut(d: seq<Byte>, c: nat)
    requires |d| <= MAX_DATAGRAM && c < |FrameOf(d)|
    ensures Decode(FrameOf(d)[..c]) == []
  {
    if c >= 2 {
      FrameLength(d);
      assert FrameOf(d)[..c][..2] == FrameOf(d)[..2];
    }
  }

  lemma FrameLength(d: seq<Byte>)
    requires |d| <= MAX_DATAGRAM
    ensures FromLE(FrameOf(d)[..2]) == |d|
  {
    PowerValues();
    FromLEOfLE(|d|, 2);
    assert FrameOf(d)[..2] == LE(|d|, 2);
  }

  lemma {:induction false} DecodeOne(d: seq<Byte>, rest: seq<Byte>)
    requires |d| <= MAX_DATAGRAM
    ensures Decode(FrameOf(d) + rest) == NonEmpty([d]) + Decode(rest)
  {
    var s := FrameOf(d) + rest;
    FrameLength(d);
    assert s[..2] == FrameOf(d)[..2];
    assert s[2..2 + |d|] == d && s[2 + |d|..] == rest;
    assert [d][1..] == [];
    assert NonEmpty([d]) == if d == [] then [] else [d];
  }

  /** A frame in octets: the two low-order octets of the length, the lowest first, and the datagram. */
  lemma {:induction false} FrameOctets(d: seq<Byte>)
    ensures FrameOf(d) == [|d| % 256, |d| / 256 % 256] + d
  {
    hide LE;
    LittleEndian2(|d| % 0x1_0000);
    LowOctets(|d|);
  }

  lemma {:induction false} LittleEndian2(n: nat)
    requires n < 0x1_0000
    ensures LE(n, 2) == [n % 256, n / 256]
  {
    assert LE(n, 2) == [n % 256] + LE(n / 256, 1);
    assert LE(n / 256, 1) == [n / 256 % 256] + LE(0, 0);
  }

  lemma LowOctets(n: nat)
    ensures n % 0x1_0000 % 256 == n % 256 && n % 0x1_0000 / 256 == n / 256 % 256
  {
  }

  /** What a decoder makes of one, whatever follows, and of anything too short for one. */
  lemma {:induction false} DecodeOctets(d: seq<Byte>, rest: seq<Byte>)
    requires |d| <= 65535
    ensures Decode([|d| % 256, |d| / 256] + d + rest) == (if d == [] then [] else [d]) + Decode(rest)
    ensures forall k :: 0 <= k < |d| + 2 ==> Decode(([|d| % 256, |d| / 256] + d)[..k]) == []
  {
    hide Decode, FrameOf, NonEmpty;
    FrameOctets(d);
    DecodeOne(d, rest);
    assert NonEmpty([d]) == if d == [] then [] else [d] by {
      OneNonEmpty(d);
    }
    forall k | 0 <= k < |d| + 2
      ensures Decode(([|d| % 256, |d| / 256] + d)[..k]) == []
    {
      DecodeCut(d, k);
    }
  }

  lemma OneNonEmpty(d: seq<Byte>)
    ensures NonEmpty([d]) == if d == [] then [] else [d]
  {
    assert [d][1..] == [];
  }

  // ----- The decoding loops -----

  /** The UDP socket: datagrams written until one write fails. */
  class DatagramSink {
    var sent: seq<seq<Byte>>
    var failed: bool

    constructor ()
      ensures sent == [] && !failed
    {
      sent, failed := [], false;
    }

    method Write(d: seq<Byte>) returns (ok: bool)
      requires !failed
      modifies this
      ensures ok ==> sent == old(sent) + [d] && !failed
      ensures !ok ==> sent == old(sent) && failed
    {
      ok := *;
      if ok {
        sent := sent + [d];
      } else {
        failed := true;
      }
    }
  }

  /**
   * The loop of udpToTcp.run and tcpFromUdp.run: frames from the stream r, datagrams to the socket w,
   * with a buffer that gives way to a larger one when a frame needs it. taken is the buffer the loop
   * takes from the pool when the pool's are large enough; it is free again at the end, and not twice.
   */
  method DecodeLoop(r: ByteSource, w: DatagramSink, pool: Pool, size: nat) returns (ghost taken: array?<Byte>)
    requires pool.Valid() && pool.Once() && !w.failed
    modifies r, w, pool, pool.Free()
    ensures pool.Valid() && pool.Once()
    ensures taken == null <==> pool.size < size
    ensures taken != null ==> taken in pool.Free() && (taken in old(pool.Free()) || fresh(taken))
    ensures pool.Free() <= old(pool.Free()) + if taken == null then {} else {taken}
    ensures old(w.sent) <= w.sent && w.sent[|old(w.sent)|..] <= Decode(old(r.data))
    ensures !w.failed ==> w.sent == old(w.sent) + Decode(old(r.data))
  {
    hide Decode, Pool.Once, Pool.Valid, Pool.Free;
    var data, b, length := TakeBuffer(pool, size);
    taken := data;
    ghost var free := pool.Free();
    ghost var sent0, all, done := w.sent, Decode(r.data), [];
    assert all == [] + Decode(r.data);
    var ok := true;
    while ok
      invariant Holding(pool, data, taken, free) && 2 <= length <= b.Length && (fresh(b) || b == taken)
      invariant w.sent == sent0 + done && done <= all
      invariant ok ==> !w.failed && all == done + Decode(r.data)
      invariant !ok && !w.failed ==> done == all
      decreases ok, |r.data|
    {
      ghost var more, s := [], r.data;
      var n;
      ok, n := ReadLength(r, b);
      if ok {
        if n > length {
          b, length := new Byte[n], n;
          if data != null {
            pool.Put(data);
            data := null;
          }
        }
        ok, more := PassOn(r, w, b, n, s);
        Assoc(sent0, done, more);
        Assoc(done, more, Decode(r.data));
        done := done + more;
      }
    }
    if data != null {
      pool.Put(data);
    }
  }

  /** data is the buffer taken, not put back yet, or null once it has been. */
  ghost predicate Holding(pool: Pool, data: array?<Byte>, taken: array?<Byte>, free: set<array<Byte>>)
    reads pool
  {
    pool.Valid() && pool.Once() && (data != null ==> data == taken && data !in pool.Free()) &&
    (data != null ==> data.Length >= pool.size) &&
    pool.Free() == free + if taken == null || data != null then {} else {taken}
  }

  /** A pool buffer if the pool's are of size bytes at least, otherwise a new one. */
  method TakeBuffer(pool: Pool, size: nat) returns (data: array?<Byte>, b: array<Byte>, length: nat)
    requires pool.Valid() && pool.Once()
    modifies pool
    ensures data == null <==> pool.size < size
    ensures if data == null then fresh(b) && length == size else b == data && length == pool.size
    ensures 2 <= length <= b.Length && (b in old(pool.Free()) || fresh(b))
    ensures Holding(pool, data, data, pool.Free()) && pool.Free() <= old(pool.Free())
  {
    if pool.size < size {
      data, b, length := null, new Byte[size], size;
    } else {
      data := pool.Get();
      b, length := data, pool.size;
    }
  }

  /** The length of the next frame. */
  method ReadLength(r: ByteSource, b: array<Byte>) returns (ok: bool, n: nat)
    requires b.Length >= 2
    modifies r, b
    ensures ok ==> |old(r.data)| >= 2 && n == FromLE(old(r.data)[..2]) && r.data == old(r.data)[2..]
    ensures !ok ==> Decode(old(r.data)) == []
  {
    var k;
    k, ok := ReadFull(r, b, 0, 2);
    n := if ok then FromLE(b[..2]) else 0;
  }

  /** The rest of the frame whose length n has been read from s, and its datagram written out. */
  method PassOn(r: ByteSource, w: DatagramSink, b: array<Byte>, n: nat, ghost s: seq<Byte>)
    returns (ok: bool, ghost more: seq<seq<Byte>>)
    requires n <= b.Length && !w.failed
    requires |s| >= 2 && n == FromLE(s[..2]) && r.data == s[2..]
    modifies r, w, b
    ensures w.sent == old(w.sent) + more && |r.data| < |s|
    ensures ok ==> !w.failed && Decode(s) == more + Decode(r.data)
    ensures !ok ==> more == [] && (!w.failed ==> Decode(s) == [])
  {
    ok, more := true, [];
    if n > 0 {
      var k;
      k, ok := ReadFull(r, b, 0, n);
      if ok {
        assert s[2..2 + n] == s[2..][..n] == b[..n] && s[2 + n..] == s[2..][n..];
        ok := w.Write(b[..n]);
        if ok {
          more := [b[..n]];
        }
      }
    }
  }

  // ----- dialer/udp.go: tcpFromUdp.Read -----

  /** UDP carries no more than 65535 bytes in a datagram. */
  predicate AllFit(ds: seq<seq<Byte>>) {
    forall d :: d in ds ==> |d| <= MAX_DATAGRAM
  }

  /** A datagram as a read into a buffer of size bytes delivers it. */
  function Fitted(d: seq<Byte>, size: nat): seq<Byte> {
    if |d| > size then d[..size] else d
  }

  function Received(ds: seq<seq<Byte>>, size: nat): seq<seq<Byte>> {
    if ds == [] then [] else [Fitted(ds[0], size)] + Received(ds[1..], size)
  }

  /** The stream tcpFromUdp makes of datagrams: it passes over empty ones. */
  function Stream(ds: seq<seq<Byte>>, size: nat): seq<Byte> {
    Frames(NonEmpty(Received(ds, size)))
  }

  lemma StreamStep(d: seq<Byte>, ds: seq<seq<Byte>>, size: nat)
    ensures var e := Fitted(d, size);
      Stream([d] + ds, size) == (if e == [] then [] else FrameOf(e)) + Stream(ds, size)
  {
    hide FrameOf;
    assert ([d] + ds)[1..] == ds;
    var e := Fitted(d, size);
    var r := Received(ds, size);
    assert Received([d] + ds, size) == [e] + r;
    Cons(e, r);
    Cons(e, NonEmpty(r));
    assert [] + NonEmpty(r) == NonEmpty(r);
  }

  /** The encoder, datagram by datagram: an empty one is passed over, a long one cut to the size of the buffer. */
  lemma {:induction false} StreamOctets(d: seq<Byte>, ds: seq<seq<Byte>>, size: nat)
    requires 0 < size && |d| <= 65535
    ensures var n := if |d| < size then |d| else size;
      Stream([d] + ds, size) == (if n == 0 then [] else [n % 256, n / 256] + d[..n]) + Stream(ds, size)
    ensures Stream([], size) == []
  {
    hide Stream, FrameOf;
    var n := if |d| < size then |d| else size;
    StreamStep(d, ds, size);
    assert Fitted(d, size) == d[..n];
    FrameOctets(d[..n]);
    NothingStreams(size);
  }

  lemma {:induction false} Cons(e: seq<Byte>, r: seq<seq<Byte>>)
    ensures NonEmpty([e] + r) == (if e == [] then [] else [e]) + NonEmpty(r)
    ensures Frames([e] + r) == FrameOf(e) + Frames(r)
  {
    assert ([e] + r)[1..] == r;
  }

  /** What a read of the socket gives: a datagram, or an error that may pass. */
  datatype Arrival = Arrival(data: seq<Byte>) | Failure

  function Arrived(arrivals: seq<Arrival>): seq<seq<Byte>> {
    if arrivals == [] then []
    else (if arrivals[0].Arrival? then [arrivals[0].data] else []) + Arrived(arrivals[1..])
  }

  predicate Suffix(rest: seq<Arrival>, all: seq<Arrival>) {
    |rest| <= |all| && rest == all[|all| - |rest|..]
  }

  lemma SuffixItself(a: seq<Arrival>)
    ensures Suffix(a, a)
  {
  }

  lemma SuffixTwice(a: seq<Arrival>, b: seq<Arrival>, c: seq<Arrival>)
    requires Suffix(a, b) && Suffix(b, c)
    ensures Suffix(a, c) && (Failure in b ==> Failure in c) && |a| <= |b|
  {
  }

  datatype TcpFromUdpError = Closed | SocketFailed

  class TcpFromUdp {
    const size: nat
    const buf: array<Byte>
    /** The slice c.read of buf. */
    var lo: nat
    var hi: nat
    /** What the socket still gives before it fails for good, and whether Close has been called. */
    var incoming: seq<Arrival>
    var done: bool

    ghost predicate Valid()
      reads this
    {
      size > 0 && buf.Length == size + 2 && lo <= hi <= buf.Length && AllFit(Arrived(incoming))
    }

    constructor (size: nat, incoming: seq<Arrival>)
      requires size > 0 && AllFit(Arrived(incoming))
      ensures Valid() && Outstanding() == Stream(Arrived(incoming), size) && this.size == size && fresh(buf)
    {
      this.size, buf, this.incoming, done := size, new Byte[size + 2], incoming, false;
      lo, hi := 0, 0;
      new;
      assert buf[0..0] == [];
    }

    /** Every byte Read will still deliver. */
    ghost function Outstanding(): seq<Byte>
      requires Valid()
      reads this, buf
    {
      buf[lo..hi] + Stream(Arrived(incoming), size)
    }

    /** Close: the frame in the buffer stays, and the socket gives no more. */
    method Close()
      requires Valid()
      modifies this`done, this`incoming
      ensures Valid() && done && Outstanding() == buf[lo..hi]
    {
      done, incoming := true, [];
      NothingStreams(size);
    }

    /**
     * Read: the rest of the last frame, or of the next nonempty datagram's. An error of the socket
     * loses nothing; one that does not pass comes when everything is delivered.
     */
    method Read(b: array<Byte>) returns (n: nat, err: Option<TcpFromUdpError>)
      requires Valid() && b != buf
      modifies this`lo, this`hi, this`incoming, buf, b
      ensures Valid() && n <= b.Length && b[n..] == old(b[n..]) && Suffix(incoming, old(incoming))
      ensures err.None? ==> old(Outstanding()) == b[..n] + Outstanding() && (b.Length > 0 ==> n > 0)
      ensures err.Some? ==> n == 0 && Outstanding() == old(Outstanding())
      ensures b.Length == 0 ==> err == if done then Some(Closed) else None
      ensures b.Length > 0 && err.Some? ==> err == Some(SocketFailed)
      ensures err == Some(SocketFailed) ==>
        (|incoming| < |old(incoming)| && Failure in old(incoming)) || (incoming == [] && Outstanding() == [])
    {
      hide Stream, FrameOf, AllFit, Arrived;
      n, err := 0, None;
      if b.Length == 0 {
        assert b[..0] == [];
        err := if done then Some(Closed) else None;
        return;
      }
      ghost var all := Outstanding();
      while true
        invariant Valid() && b[..] == old(b[..]) && n == 0 && err.None? && Suffix(incoming, old(incoming))
        invariant Outstanding() == all
        decreases |incoming|, hi - lo
      {
        if hi - lo > 0 {
          n := Take(b);
          return;
        }
        assert buf[lo..hi] == [];
        if incoming == [] {
          NothingArrived();
          NothingStreams(size);
          return 0, Some(SocketFailed);
        }
        if incoming[0].Failure? {
          AfterFailure(incoming);
          incoming := incoming[1..];
          return 0, Some(SocketFailed);
        }
        Receive();
      }
    }

    /** The next bytes of the frame in the buffer. */
    method Take(b: array<Byte>) returns (n: nat)
      requires Valid() && b != buf && lo < hi && b.Length > 0
      modifies this`lo, b
      ensures Valid() && 0 < n <= b.Length && b[n..] == old(b[n..])
      ensures old(Outstanding()) == b[..n] + Outstanding()
    {
      hide Stream, AllFit, Arrived;
      n := Min(b.Length, hi - lo);
      Copy(b, 0, buf[lo..lo + n]);
      Split(buf[..], lo, lo + n, hi);
      Assoc(buf[lo..lo + n], buf[lo + n..hi], Stream(Arrived(incoming), size));
      lo := lo + n;
    }

    /** The socket's next datagram behind room for the length, and the frame made of it. */
    method Receive()
      requires Valid() && lo == hi && incoming != [] && incoming[0].Arrival?
      modifies this`lo, this`hi, this`incoming, buf
      ensures Valid() && Outstanding() == old(Outstanding()) && incoming == old(incoming)[1..]
    {
      hide Stream, AllFit, FrameOf, Arrived;
      var d := incoming[0].data;
      var i := if |d| > size then size else |d|;
      FirstFrame(incoming, size);
      assert d[..i] == Fitted(d, size) && buf[lo..hi] == [];
      ghost var rest := Stream(Arrived(incoming[1..]), size);
      assert Outstanding() == (if i == 0 then [] else FrameOf(d[..i])) + rest;
      incoming := incoming[1..];
      if i > 0 {
        PutFrame(d[..i]);
        lo, hi := 0, 2 + i;
      }
    }

    /** The datagram, and its length in front of it. */
    method PutFrame(d: seq<Byte>)
      requires buf.Length >= 2 + |d|
      modifies buf
      ensures buf[0..2 + |d|] == FrameOf(d)
    {
      Copy(buf, 2, d);
      ghost var w := buf[..];
      Copy(buf, 0, LE(|d| % 0x1_0000, 2));
      assert buf[2..2 + |d|] == buf[2..][..|d|] == w[2..2 + |d|];
      Split(buf[..], 0, 2, 2 + |d|);
    }
  }

  lemma {:induction false} AfterFailure(arrivals: seq<Arrival>)
    requires arrivals != [] && arrivals[0].Failure?
    ensures Arrived(arrivals) == Arrived(arrivals[1..])
  {
  }

  lemma {:induction false} FirstFrame(arrivals: seq<Arrival>, size: nat)
    requires arrivals != [] && arrivals[0].Arrival? && AllFit(Arrived(arrivals))
    ensures AllFit(Arrived(arrivals[1..])) && |arrivals[0].data| <= MAX_DATAGRAM
    ensures var e := Fitted(arrivals[0].data, size);
      [] + Stream(Arrived(arrivals), size) ==
      (if e == [] then [] else FrameOf(e)) + Stream(Arrived(arrivals[1..]), size)
  {
    hide Stream, FrameOf;
    var d, ds := arrivals[0].data, Arrived(arrivals[1..]);
    assert Arrived(arrivals) == [d] + ds;
    assert d == ([d] + ds)[0] && forall e :: e in ds ==> e in [d] + ds;
    StreamStep(d, ds, size);
  }

  lemma NothingStreams(size: nat)
    ensures Stream([], size) == []
  {
  }

  lemma {:induction false} ReceivedFit(ds: seq<seq<Byte>>, size: nat)
    requires AllFit(ds)
    ensures forall d :: d in NonEmpty(Received(ds, size)) ==> 0 < |d| <= MAX_DATAGRAM
    ensures NonEmpty(NonEmpty(Received(ds, size))) == NonEmpty(Received(ds, size))
  {
    if ds != [] {
      ReceivedFit(ds[1..], size);
      var e, r := Fitted(ds[0], size), Received(ds[1..], size);
      assert Received(ds, size) == [e] + r && |e| <= MAX_DATAGRAM;
      Cons(e, r);
      hide NonEmpty, Received, Fitted;
      OneMoreFits(e, NonEmpty(r));
    }
  }

  lemma OneMoreFits(e: seq<Byte>, n: seq<seq<Byte>>)
    requires |e| <= MAX_DATAGRAM && (forall d :: d in n ==> 0 < |d| <= MAX_DATAGRAM) && NonEmpty(n) == n
    ensures var m := (if e == [] then [] else [e]) + n;
      (forall d :: d in m ==> 0 < |d| <= MAX_DATAGRAM) && NonEmpty(m) == m
  {
    if e == [] {
      assert [] + n == n;
    } else {
      Cons(e, n);
    }
  }

  /**
   * Datagrams through the dialer's encoder, whose socket may fail in between, a stream read in any
   * pieces by a reader that gives up at any error or goes on, its first cut bytes, and the decoding
   * loop: what is decoded of them comes out, whole nonempty datagrams in order. That is all of them when
   * neither socket fails and nothing is cut.
   */
  method Deliver(c: TcpFromUdp, w: DatagramSink, pool: Pool, bufSize: nat, cut: nat) returns (ghost out: seq<seq<Byte>>)
    requires c.Valid() && c.lo == c.hi && !w.failed && pool.Valid() && pool.Once()
    modifies c, c.buf, w, pool, pool.Free()
    ensures pool.Valid() && pool.Once() && c.Valid()
    ensures w.sent == old(w.sent) + out && out <= NonEmpty(Received(Arrived(old(c.incoming)), c.size))
    ensures var drained := |old(c.Outstanding())| - |c.Outstanding()|;
      0 <= drained && (!w.failed ==> out == Decode(old(c.Outstanding())[..Min(cut, drained)]))
    ensures Failure !in old(c.incoming) ==> c.Outstanding() == []
    ensures !w.failed && Failure !in old(c.incoming) && cut >= |old(c.Outstanding())| ==>
      out == NonEmpty(Received(Arrived(old(c.incoming)), c.size))
  {
    hide Stream, Decode, Arrived, AllFit, NonEmpty, Received;
    ghost var all, ds := c.Outstanding(), Arrived(c.incoming);
    assert all == Stream(ds, c.size);
    var stream := Drain(c);
    var k := Min(cut, |stream|);
    assert stream[..k] == all[..k];
    StreamDecodes(ds, c.size, k);
    var r := new ByteSource(stream[..k], true);
    ghost var sent := w.sent;
    ghost var taken := DecodeLoop(r, w, pool, bufSize);
    out := w.sent[|sent|..];
  }

  lemma NothingArrived()
    ensures Arrived([]) == []
  {
  }

  /** Read until the reader gives up at an error, at the latest when there is nothing left to read. */
  method Drain(c: TcpFromUdp) returns (stream: seq<Byte>)
    requires c.Valid()
    modifies c, c.buf
    ensures c.Valid() && stream + c.Outstanding() == old(c.Outstanding())
    ensures Failure !in old(c.incoming) ==> c.Outstanding() == []
  {
    hide Stream, Arrived, AllFit, Suffix;
    stream := [];
    assert Suffix(c.incoming, c.incoming) by {
      SuffixItself(c.incoming);
    }
    ghost var all := c.Outstanding();
    var more := true;
    while more
      invariant c.Valid() && stream + c.Outstanding() == all && Suffix(c.incoming, old(c.incoming))
      invariant !more && Failure !in old(c.incoming) ==> c.Outstanding() == []
      decreases more, |c.Outstanding()| + |c.incoming|
    {
      var k: nat :| k > 0;
      var b := new Byte[k];
      ghost var left, incoming := c.Outstanding(), c.incoming;
      var n, err := c.Read(b);
      SuffixTwice(c.incoming, incoming, old(c.incoming));
      if err.None? {
        assert |left| == n + |c.Outstanding()|;
        Assoc(stream, b[..n], c.Outstanding());
        stream := stream + b[..n];
      } else {
        var again: bool := *;
        more := again && c.incoming != [];
      }
    }
  }

  /** Any prefix of the stream decodes to the datagrams wholly in it; all of it to all of them. */
  lemma {:induction false} StreamDecodes(ds: seq<seq<Byte>>, size: nat, k: nat)
    requires AllFit(ds) && k <= |Stream(ds, size)|
    ensures Decode(Stream(ds, size)[..k]) <= NonEmpty(Received(ds, size))
    ensures k == |Stream(ds, size)| ==> Decode(Stream(ds, size)[..k]) == NonEmpty(Received(ds, size))
  {
    var es := NonEmpty(Received(ds, size));
    ReceivedFit(ds, size);
    PrefixDecodes(es, k);
  }

  lemma {:induction false} PrefixDecodes(es: seq<seq<Byte>>, k: nat)
    requires (forall e :: e in es ==> 0 < |e| <= MAX_DATAGRAM) && k <= |Frames(es)|
    ensures Decode(Frames(es)[..k]) <= es
    ensures k == |Frames(es)| ==> Decode(Frames(es)[..k]) == es
  {
    hide FrameOf, Decode;
    if es != [] {
      var f, rest := FrameOf(es[0]), Frames(es[1..]);
      if k < |f| {
        assert Frames(es)[..k] == f[..k];
        DecodeCut(es[0], k);
      } else {
        PrefixDecodes(es[1..], k - |f|);
        assert Frames(es)[..k] == f + rest[..k - |f|];
        DecodeOne(es[0], rest[..k - |f|]);
        var first := [es[0]];
        assert first[1..] == [];
        assert NonEmpty(first) == first;
      }
    } else {
      NothingDecodes();
    }
  }

  lemma NothingDecodes()
    ensures Decode([]) == []
  {
  }
}
