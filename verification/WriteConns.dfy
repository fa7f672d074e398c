/** The writing half of Conn and its message writers: third-party/websocket/conn.go. */
module WriteConns {
  import opened Bytes
  import opened Masking
  import opened Frames
  import opened Streams
  import opened Sources
  import opened Reading
  import opened ReadConns

  const MAX_HEADER: nat := 14
  const DEFAULT_WRITE_BUFFER: nat := 4096
  /** No slice is longer than this, so that lengths add without overflow. */
  const MAX_SLICE: nat := 0x4000_0000_0000_0000

  datatype WriteError =
    | CloseSent
    | Transport
    | Timeout
    | BadOpCode
    | InvalidControlFrame
    | WriteClosed

  /** BufferPool: it may lose a buffer at any time, as sync.Pool does. */
  class BufferPool {
    var free: set<array<Byte>>

    constructor ()
      ensures free == {}
    {
      free := {};
    }

    method Get() returns (b: array?<Byte>)
      modifies this
      ensures b != null ==> b in old(free) && free == old(free) - {b}
      ensures b == null ==> free == old(free)
    {
      var empty: bool := *;
      if empty || free == {} {
        b := null;
      } else {
        b :| b in free;
        free := free - {b};
      }
    }

    method Put(b: array<Byte>)
      modifies this
      ensures free == old(free) + {b}
    {
      free := free + {b};
    }
  }

  /** newMaskKey: any four bytes. */
  method NewMaskKey() returns (key: Key)
  {
    var k0: Byte, k1: Byte, k2: Byte, k3: Byte := *, *, *, *;
    key := [k0, k1, k2, k3];
  }

  /** What has been written so far: whole frames, then perhaps the start of one that failed. */
  ghost predicate WireIs(
      server: bool, wire: seq<Byte>, log: seq<Frame>, keys: seq<Key>, asm: Assembly, torn: Option<RawFrame>, n: nat)
  {
    |keys| == |log| && (forall f :: f in log ==> Writable(f)) &&
    Legal(EMPTY, log) && asm == Fold(EMPTY, log) &&
    match torn
    case None => wire == WireAll(RawAll(server, log, keys))
    case Some(r) =>
      r.Valid() && n < |r.Wire()| && wire == WireAll(RawAll(server, log, keys)) + r.Wire()[..n] &&
      r == Raw(server, r.ToFrame(), r.key) && Writable(r.ToFrame()) && Accepts(asm, r.ToFrame())
  }

  /** The unfinished message of which bytes may have reached the wire, a torn frame included. */
  ghost function FlightOf(asm: Assembly, torn: Option<RawFrame>): Option<Message> {
    if torn.Some? && !IsControl(torn.value.op) && Accepts(asm, torn.value.ToFrame()) then
      Some(Extended(asm, torn.value.ToFrame()))
    else asm.open
  }

  lemma WireGrows(server: bool, wire: seq<Byte>, log: seq<Frame>, keys: seq<Key>, asm: Assembly, f: Frame, key: Key)
    requires WireIs(server, wire, log, keys, asm, None, 0) && Writable(f) && Accepts(asm, f)
    ensures WireIs(server, wire + Raw(server, f, key).Wire(), log + [f], keys + [key], Feed(asm, f), None, 0)
  {
    hide MaskSeq, Raw, RawFrame.Wire;
    FoldAppend(EMPTY, log, f);
    WireAllAppend(RawAll(server, log, keys), Raw(server, f, key));
    assert RawAll(server, log + [f], keys + [key]) == RawAll(server, log, keys) + [Raw(server, f, key)];
  }

  lemma WireTorn(
      server: bool, wire: seq<Byte>, log: seq<Frame>, keys: seq<Key>, asm: Assembly, f: Frame, key: Key, n: nat)
    requires WireIs(server, wire, log, keys, asm, None, 0) && Writable(f) && Accepts(asm, f)
    requires n < |Raw(server, f, key).Wire()|
    ensures WireIs(server, wire + Raw(server, f, key).Wire()[..n], log, keys, asm, Some(Raw(server, f, key)), n)
  {
    hide MaskSeq, RawFrame.Wire, Legal, Fold, WireAll, RawAll;
  }

  lemma TornMeansNothing(server: bool, wire: seq<Byte>, log: seq<Frame>, keys: seq<Key>, asm: Assembly, n: nat)
    ensures WireIs(server, wire, log, keys, asm, None, n) <==> WireIs(server, wire, log, keys, asm, None, 0)
  {
  }

  lemma FeedCloses(a: Assembly, f: Frame)
    requires Accepts(a, f)
    ensures Feed(a, f).closed <==> f.op == CLOSE
  {
  }

  /** The bytes of a control frame. */
  lemma ControlWire(server: bool, op: nat, data: seq<Byte>, key: Key)
    requires IsControl(op) && |data| <= MAX_CONTROL
    ensures Raw(server, Frame(true, op, data), key).Wire() ==
      [op + 128, |data| + if server then 0 else 128] + (if server then data else key + MaskSeq(key, 0, data))
  {
    hide MaskSeq;
    var r := Raw(server, Frame(true, op, data), key);
    assert r.LengthBytes() == [];
  }

  /** The header of a frame up to the masking key. */
  function FixedHeader(server: bool, fin: bool, op: nat, length: nat): seq<Byte>
    requires op < 16
  {
    var b0, b1 := op + if fin then 128 else 0, if server then 0 else 128;
    if length >= 65536 then [b0, b1 + 127] + BE(length, 8)
    else if length > 125 then [b0, b1 + 126] + BE(length, 2)
    else [b0, b1 + length]
  }

  lemma FrameWire(server: bool, f: Frame, key: Key)
    requires f.op < 16 && |f.payload| < TWO_63
    ensures Raw(server, f, key).Wire() ==
      FixedHeader(server, f.fin, f.op, |f.payload|) + (if server then [] else key) +
      (if server then f.payload else MaskSeq(key, 0, f.payload))
  {
    hide MaskSeq, BE;
    assert Raw(server, f, key).Byte0() == f.op + if f.fin then 128 else 0;
  }

  /** Header, key and payload in place in w make the frame. */
  lemma FrameInPlace(server: bool, w: seq<Byte>, framePos: nat, h: nat, pos: nat, f: Frame, key: Key, extra: seq<Byte>)
    requires f.op < 16 && |f.payload| < TWO_63
    requires h == (if server then MAX_HEADER else MAX_HEADER - 4) && framePos <= h && MAX_HEADER <= pos <= |w|
    requires w[framePos..h] == FixedHeader(server, f.fin, f.op, |f.payload|)
    requires !server ==> w[h..MAX_HEADER] == key && extra == []
    requires w[MAX_HEADER..pos] + extra == if server then f.payload else MaskSeq(key, 0, f.payload)
    ensures w[framePos..pos] + extra == Raw(server, f, key).Wire()
  {
    hide MaskSeq, Raw, RawFrame.Wire, FixedHeader;
    FrameWire(server, f, key);
    Split(w, framePos, h, pos);
    Split(w, h, MAX_HEADER, pos);
    Regroup(w[framePos..h], w[h..MAX_HEADER], w[MAX_HEADER..pos], extra);
    assert server ==> w[h..MAX_HEADER] == [];
  }

  class WriteConn {
    const isServer: bool
    const writeBufSize: nat
    const writePool: BufferPool?
    var writeBuf: array?<Byte>
    /** c.writer, the current writer returned to the application. */
    var writer: MessageWriter?
    var isWriting: bool
    var writeErr: Option<WriteError>
    /** The bytes the transport has taken. */
    var wire: seq<Byte>
    /** The frames written whole, their masking keys, and what they assemble to. */
    ghost var log: seq<Frame>
    ghost var keys: seq<Key>
    ghost var asm: Assembly
    /** A frame whose write failed after n bytes. */
    ghost var torn: Option<RawFrame>
    ghost var tornBytes: nat
    /** Every message writer begun on this connection, and the one not yet ended. */
    ghost var issued: set<MessageWriter>
    ghost var live: MessageWriter?
    /** Buffers taken from the pool, made in its place or given at the start, and buffers put back. */
    ghost var gets: nat
    ghost var puts: nat

    ghost predicate WireOk()
      reads this
    {
      WireIs(isServer, wire, log, keys, asm, torn, tornBytes) &&
      match writeErr
      case None => torn.None? && !asm.closed
      case Some(CloseSent) => torn.None? && asm.closed
      case Some(Transport) => torn.Some? && !asm.closed
      case Some(_) => false
    }

    ghost function InFlight(): Option<Message>
      reads this
    {
      FlightOf(asm, torn)
    }

    ghost predicate Owned()
      reads this, issued, writePool, writeBuf
    {
      MAX_HEADER < writeBufSize <= MAX_SLICE && !isWriting &&
      (writer != null ==> writer == live) &&
      (forall w :: w in issued ==> w.c == this && (w.err.None? <==> w == live)) &&
      (live != null ==> live in issued) &&
      (writeBuf == null ==> writePool != null) &&
      (writeBuf != null ==> MAX_HEADER < writeBuf.Length <= MAX_SLICE) &&
      (writePool != null ==>
        (live != null ==> writeBuf != null) && (writeBuf != null ==> live != null || issued == {}) &&
        gets == puts + (if writeBuf != null then 1 else 0) &&
        writeBuf !in writePool.free && forall b :: b in writePool.free ==> MAX_HEADER < b.Length <= MAX_SLICE)
    }

    ghost predicate Valid()
      reads this, issued, writePool, writeBuf
    {
      WireOk() && Owned() &&
      (live == null ==> writeErr.Some? || asm.open.None?) &&
      (live != null ==> live.Buffered() && InFlight() == asm.open)
    }

    /** What a writer has buffered does not matter to who owns what. */
    twostate lemma OwnedKept()
      requires old(Owned()) && unchanged(this) && (writePool != null ==> unchanged(writePool))
      requires forall w :: w in issued ==> w.err == old(w.err)
      ensures Owned()
    {
    }

    /** A connection keeps no other errors than these two. */
    lemma KeptErrors()
      requires WireOk()
      ensures writeErr.Some? ==> writeErr.value.CloseSent? || writeErr.value.Transport?
    {
      hide WireIs;
    }

    /** Without an error no frame has been torn. */
    lemma NothingTorn()
      requires WireOk() && writeErr.None?
      ensures InFlight() == asm.open
    {
      hide WireIs;
    }

    /** Nor do buffers and writers matter to the wire. */
    twostate lemma WireKept()
      requires old(WireOk())
      requires unchanged(this`wire, this`log, this`keys, this`asm, this`torn, this`tornBytes, this`writeErr)
      ensures WireOk() && InFlight() == old(InFlight())
    {
      hide WireIs, FlightOf;
    }

    /** writeFatal: the first error stays. */
    method WriteFatal(err: WriteError) returns (e: WriteError)
      modifies this`writeErr
      ensures e == err
      ensures writeErr == if old(writeErr).None? then Some(err) else old(writeErr)
    {
      if writeErr.None? {
        writeErr := Some(err);
      }
      e := err;
    }

    /** The connection as it was, on the wire and off. */
    twostate predicate Silent()
      reads this
    {
      writeErr == old(writeErr) && wire == old(wire) && asm == old(asm) && log == old(log) && torn == old(torn)
    }

    /**
     * The critical section shared by write and WriteControl: one frame handed to the transport, which
     * takes all of it or fails after any part of it.
     */
    method Send(ghost f: Frame, ghost key: Key, frameType: nat, buf: seq<Byte>) returns (err: Option<WriteError>)
      requires WireOk() && Writable(f) && Accepts(asm.(closed := false), f)
      requires buf == Raw(isServer, f, key).Wire()
      requires frameType == f.op
      modifies this`wire, this`log, this`keys, this`asm, this`torn, this`tornBytes, this`writeErr
      ensures WireOk()
      ensures old(writeErr).Some? ==> err == old(writeErr) && Silent()
      ensures err.None? ==> old(writeErr).None? && asm == Feed(old(asm), f) && log == old(log) + [f]
      ensures err.None? ==> writeErr == if f.op == CLOSE then Some(CloseSent) else None
      ensures err.Some? ==> writeErr == err && asm == old(asm) && log == old(log)
      ensures err.Some? && old(writeErr).None? ==> torn == Some(Raw(isServer, f, key))
      ensures err.None? ==> torn.None?
    {
      hide WireIs, MaskSeq, Raw, RawFrame.Wire, Feed;
      err := writeErr;
      if err.Some? {
        return;
      }
      assert torn.None? && !asm.closed;
      TornMeansNothing(isServer, wire, log, keys, asm, tornBytes);
      var n: nat :| n <= |buf|;
      wire := wire + buf[..n];
      if n < |buf| {
        WireTorn(isServer, old(wire), log, keys, asm, f, key, n);
        torn, tornBytes := Some(Raw(isServer, f, key)), n;
        var e := WriteFatal(Transport);
        return Some(e);
      }
      assert buf[..n] == buf;
      WireGrows(isServer, old(wire), log, keys, asm, f, key);
      assert asm.(closed := false) == asm;
      log, keys, asm := log + [f], keys + [key], Feed(asm, f);
      TornMeansNothing(isServer, wire, log, keys, asm, tornBytes);
      FeedCloses(old(asm), f);
      if frameType == CLOSE {
        var _ := WriteFatal(CloseSent);
      }
    }

    /** What WriteControl refuses before it takes the lock. */
    function Refusal(messageType: nat, data: seq<Byte>): Option<WriteError> {
      if !IsControl(messageType) then Some(BadOpCode)
      else if |data| > MAX_CONTROL then Some(InvalidControlFrame)
      else None
    }

    /** WriteControl with the lock held. */
    method WriteControlLocked(messageType: nat, data: seq<Byte>) returns (err: Option<WriteError>)
      requires WireOk()
      modifies this`wire, this`log, this`keys, this`asm, this`torn, this`tornBytes, this`writeErr
      ensures WireOk()
      ensures asm.done == old(asm.done) && asm.open == old(asm.open) && InFlight() == old(InFlight())
      ensures old(writeErr).Some? ==> Silent()
      ensures Refusal(messageType, data).Some? ==>
        err == Refusal(messageType, data) && writeErr == old(writeErr) && wire == old(wire)
      ensures Refusal(messageType, data).None? && err.Some? ==> err == writeErr && log == old(log)
      ensures err.None? ==> old(writeErr).None? && log == old(log) + [Frame(true, messageType, data)]
      ensures err.None? ==> writeErr == if messageType == CLOSE then Some(CloseSent) else None
      ensures err.Some? ==> log == old(log)
    {
      hide WireIs, MaskSeq;
      err := Refusal(messageType, data);
      if err.Some? {
        return;
      }
      var b0, b1 := messageType + 128, |data|;
      if !isServer {
        b1 := b1 + 128;
      }
      var buf: seq<Byte> := [b0, b1];
      var key := NewMaskKey();
      if isServer {
        buf := buf + data;
      } else {
        var masked := MaskedCopy(key, data);
        buf := buf + key + masked;
      }
      ControlWire(isServer, messageType, data, key);
      err := Send(Frame(true, messageType, data), key, messageType, buf);
    }

    /** Control frames leave the data writer as it was. */
    twostate lemma ControlKeepsValid()
      requires old(Valid()) && WireOk() && asm.open == old(asm.open) && InFlight() == old(InFlight())
      requires unchanged(`writeBuf, `writer, `isWriting, `issued, `live, `gets, `puts)
      requires unchanged(issued) && (writePool != null ==> unchanged(writePool))
      requires writeBuf != null ==> unchanged(writeBuf)
      requires old(writeErr).Some? ==> writeErr.Some?
      ensures Valid()
    {
      hide WireOk, FlightOf;
    }

    /**
     * WriteControl, waiting for the lock: a timeout writes nothing. Any error of the connection, found
     * or met, is the one that stays.
     */
    method WriteControl(messageType: nat, data: seq<Byte>) returns (err: Option<WriteError>)
      requires Valid()
      modifies this`wire, this`log, this`keys, this`asm, this`torn, this`tornBytes, this`writeErr
      ensures Valid()
      ensures asm.done == old(asm.done) && asm.open == old(asm.open) && InFlight() == old(InFlight())
      ensures err == Some(BadOpCode) <==> !(8 <= messageType <= 10)
      ensures err == Some(InvalidControlFrame) <==> 8 <= messageType <= 10 && |data| > 125
      ensures err.Some? && 8 <= messageType <= 10 && |data| <= 125 ==> err == Some(Timeout) || err == writeErr
      ensures err.None? ==> log != [] && log[|log| - 1] == Frame(true, messageType, data)
      ensures err.None? ==> old(writeErr).None? && writeErr == if messageType == CLOSE then Some(CloseSent) else None
      ensures old(writeErr).Some? ==> writeErr == old(writeErr) && wire == old(wire) && log == old(log)
      ensures err == Some(Timeout) ==> writeErr == old(writeErr) && wire == old(wire) && log == old(log)
    {
      hide WireOk, Owned, FlightOf, MessageWriter.Buffered;
      var timeout: bool := *;
      if timeout && Refusal(messageType, data).None? {
        return Some(Timeout);
      }
      OthersWrite();
      err := WriteControlLocked(messageType, data);
      ControlKeepsValid();
      KeptErrors();
    }

    /** Other goroutines' WriteControl calls between two critical sections of the data writer. */
    method OthersWrite()
      requires WireOk()
      modifies this`wire, this`log, this`keys, this`asm, this`torn, this`tornBytes, this`writeErr
      ensures WireOk()
      ensures asm.done == old(asm.done) && asm.open == old(asm.open) && InFlight() == old(InFlight())
      ensures old(writeErr).Some? ==> Silent()
    {
      var more: bool := *;
      var fuel: nat := *;
      while more && fuel > 0
        invariant WireOk()
        invariant asm.done == old(asm.done) && asm.open == old(asm.open) && InFlight() == old(InFlight())
        invariant old(writeErr).Some? ==> Silent()
        decreases fuel
      {
        var op: nat := *;
        var data: seq<Byte> := *;
        var _ := WriteControlLocked(op, data);
        more, fuel := *, fuel - 1;
      }
    }

    /** write: the data writer's way to the transport. */
    method Write(ghost f: Frame, ghost key: Key, frameType: nat, buf0: seq<Byte>, buf1: seq<Byte>)
      returns (err: Option<WriteError>)
      requires WireOk() && Writable(f) && Accepts(asm.(closed := false), f)
      requires buf0 + buf1 == Raw(isServer, f, key).Wire()
      requires frameType == f.op
      modifies this`wire, this`log, this`keys, this`asm, this`torn, this`tornBytes, this`writeErr
      ensures WireOk()
      ensures err.Some? ==> writeErr == err && asm.done == old(asm.done) && asm.open == old(asm.open)
      ensures err.Some? && InFlight() != old(InFlight()) ==>
        !IsControl(f.op) && InFlight() == Some(Extended(old(asm.(closed := false)), f))
      ensures err.None? ==> InFlight() == asm.open
      ensures err.None? ==> old(writeErr).None?
      ensures err.None? ==> (var a := Feed(old(asm).(closed := false), f); asm.done == a.done && asm.open == a.open)
      ensures err.None? ==> torn.None? && log != [] && log[|log| - 1] == f
    {
      hide WireIs, Raw, RawFrame.Wire;
      OthersWrite();
      err := Send(f, key, frameType, buf0 + buf1);
    }

    /** write between the two changes of isWriting: with one data writer the panic never happens. */
    method WriteAlone(ghost f: Frame, ghost key: Key, frameType: nat, buf0: seq<Byte>, buf1: seq<Byte>)
      returns (err: Option<WriteError>)
      requires WireOk() && Owned() && Writable(f) && Accepts(asm.(closed := false), f)
      requires buf0 + buf1 == Raw(isServer, f, key).Wire()
      requires frameType == f.op
      modifies this`wire, this`log, this`keys, this`asm, this`torn, this`tornBytes, this`writeErr, this`isWriting
      ensures WireOk() && Owned()
      ensures err.Some? ==> writeErr == err && asm.done == old(asm.done) && asm.open == old(asm.open)
      ensures err.Some? && InFlight() != old(InFlight()) ==>
        !IsControl(f.op) && InFlight() == Some(Extended(old(asm.(closed := false)), f))
      ensures err.None? ==> InFlight() == asm.open
      ensures err.None? ==> (var a := Feed(old(asm).(closed := false), f); asm.done == a.done && asm.open == a.open)
      ensures err.None? ==> torn.None? && log != [] && log[|log| - 1] == f
    {
      hide WireIs, Raw, RawFrame.Wire, FlightOf, Feed, Extended, Accepts;
      if isWriting {
        assert false;
      }
      isWriting := true;
      err := Write(f, key, frameType, buf0, buf1);
      isWriting := false;
    }

    /**
     * newConn, the writing half. A buffer given by the caller is the first one used, and goes to the pool
     * if there is one.
     */
    constructor (isServer: bool, size: int, pool: BufferPool?, buffer: array?<Byte>)
      requires size <= MAX_SLICE - MAX_HEADER
      requires pool != null ==>
        buffer !in pool.free && forall b :: b in pool.free ==> MAX_HEADER < b.Length <= MAX_SLICE
      requires buffer != null ==> MAX_HEADER < buffer.Length <= MAX_SLICE
      ensures Valid() && this.isServer == isServer && writePool == pool && live == null && writer == null
      ensures wire == [] && writeErr.None? && log == [] && asm == EMPTY && puts == 0 && issued == {}
      ensures writeBufSize == (if size <= 0 then 4096 else size) + 14
      ensures
        if pool != null || buffer != null then writeBuf == buffer
        else writeBuf != null && fresh(writeBuf) && writeBuf.Length == writeBufSize
    {
      hide WireIs;
      var n := (if size <= 0 then DEFAULT_WRITE_BUFFER else size) + MAX_HEADER;
      this.isServer, writeBufSize, writePool := isServer, n, pool;
      writeBuf := buffer;
      if pool == null && buffer == null {
        writeBuf := new Byte[n];
      }
      writer, isWriting, writeErr, wire := null, false, None, [];
      log, keys, asm, torn, tornBytes := [], [], EMPTY, None, 0;
      issued, live, gets, puts := {}, null, if buffer == null then 0 else 1, 0;
      new;
      NothingWritten(isServer);
    }

    ghost function PoolBuffers(): set<array<Byte>>
      reads this, writePool
    {
      if writePool == null then {} else writePool.free
    }

    /** The buffer in use and those in the pool are new ones, or were there before. */
    twostate predicate OwnBuffersOnly()
      reads this, writePool
    {
      (writeBuf == null || fresh(writeBuf) || writeBuf == old(writeBuf) || writeBuf in old(PoolBuffers())) &&
      forall b :: b in PoolBuffers() ==> fresh(b) || b == old(writeBuf) || b in old(PoolBuffers())
    }

    /** A connection with no message being written, or one that NextWriter has returned. */
    ghost predicate Ready()
      reads this, issued, writePool, writeBuf
    {
      Valid() && writer == live
    }

    /** What ending the previous writer may have written: its message, if that was a data message. */
    twostate predicate PreviousFlushed(new flushed: seq<Message>) {
      flushed == [] ||
      (old(live) != null && IsData(old(live.op)) && flushed == [Message(old(live.op), old(live.content))])
    }

    twostate predicate PreviousMustFlush() {
      old(live) != null && IsData(old(live.op))
    }

    /** In flight is what was before or, of a writer ended on the way, a beginning of its message. */
    twostate predicate PreviousFlight()
      reads this
    {
      if old(live) == null then InFlight() == old(InFlight())
      else Begins(InFlight(), old(live.op), old(live.content))
    }

    /**
     * The start of beginMessage: end the previous message if the application has not. flushed holds it
     * when that wrote it out.
     */
    method EndPrevious() returns (ghost flushed: seq<Message>)
      requires Ready()
      modifies this, writer, writeBuf, writePool
      ensures Valid() && writer == null && live == null && issued == old(issued) && OwnBuffersOnly()
      ensures asm.done == old(asm.done) + flushed && PreviousFlushed(flushed) && PreviousFlight()
      ensures old(live) == null ==> asm.open == old(asm.open)
      ensures flushed == [] && PreviousMustFlush() ==> writeErr.Some?
    {
      hide WireOk;
      flushed := [];
      assert asm.done + [] == asm.done;
      if writer != null {
        ghost var w := writer;
        var e := writer.Close();
        if e.None? && IsData(w.op) {
          flushed := [Message(w.op, w.content)];
        }
        writer := null;
      }
    }

    /** beginMessage: the previous message ended, a buffer taken. */
    method BeginMessage(messageType: nat)
      returns (mw: MessageWriter?, err: Option<WriteError>, ghost flushed: seq<Message>)
      requires Ready()
      modifies this, writer, writeBuf, writePool
      ensures Valid() && writer == null && old(issued) <= issued && OwnBuffersOnly()
      ensures asm.done == old(asm.done) + flushed && PreviousFlushed(flushed) && PreviousFlight()
      ensures old(live) == null ==> asm.open == old(asm.open)
      ensures err.None? ==>
        mw != null && fresh(mw) && live == mw && mw in issued && mw.Fresh(this, messageType) && asm.open.None?
      ensures err.None? ==> (PreviousMustFlush() ==> flushed != [])
      ensures err.Some? ==> mw == null && live == null
      ensures Refused(messageType, err)
    {
      hide WireOk, FlightOf, MessageWriter.Buffered;
      mw := null;
      flushed := EndPrevious();
      if !IsControl(messageType) && !IsData(messageType) {
        return null, Some(BadOpCode), flushed;
      }
      OthersWrite();
      err := writeErr;
      if err.None? {
        mw := StartMessage(messageType);
      }
    }

    /** A type that is none is refused with an error of its own, anything else only with the connection's. */
    predicate Refused(messageType: nat, err: Option<WriteError>)
      reads this
    {
      if !IsControl(messageType) && !IsData(messageType) then err == Some(BadOpCode) else err == writeErr
    }

    /** The message writer and its buffer. */
    method StartMessage(messageType: nat) returns (mw: MessageWriter)
      requires Valid() && live == null && writer == null && writeErr.None?
      requires IsControl(messageType) || IsData(messageType)
      modifies this`writeBuf, this`gets, this`issued, this`live, writePool
      ensures Valid() && issued == old(issued) + {mw}
      ensures fresh(mw) && live == mw && mw.Fresh(this, messageType)
      ensures OwnBuffersOnly()
    {
      hide WireOk, FlightOf;
      NothingTorn();
      mw := new MessageWriter(this, messageType);
      if writeBuf == null {
        var b := TakeBuffer();
        writeBuf, gets := b, gets + 1;
      }
      issued := issued + {mw};
      live := mw;
      assert writeBuf[MAX_HEADER..MAX_HEADER] == [];
      WireKept();
    }

    /** A buffer from the pool, or a new one when the pool has none. */
    method TakeBuffer() returns (b: array<Byte>)
      requires Owned() && writePool != null
      modifies writePool
      ensures b in old(writePool.free) || fresh(b)
      ensures MAX_HEADER < b.Length <= MAX_SLICE
      ensures writePool.free <= old(writePool.free) && b !in writePool.free
    {
      var got := writePool.Get();
      if got != null {
        b := got;
      } else {
        b := new Byte[writeBufSize];
      }
    }

    /** NextWriter. */
    method NextWriter(messageType: nat)
      returns (mw: MessageWriter?, err: Option<WriteError>, ghost flushed: seq<Message>)
      requires Ready()
      modifies this, writer, writeBuf, writePool
      ensures Ready() && old(issued) <= issued && OwnBuffersOnly()
      ensures asm.done == old(asm.done) + flushed && PreviousFlushed(flushed) && PreviousFlight()
      ensures old(live) == null ==> asm.open == old(asm.open)
      ensures err.None? ==>
        mw != null && fresh(mw) && writer == mw && mw in issued && mw.Fresh(this, messageType) && asm.open.None?
      ensures err.None? ==> (PreviousMustFlush() ==> flushed != [])
      ensures err.Some? ==> mw == null && writer == null
      ensures Refused(messageType, err)
      ensures err == Some(BadOpCode) <==> !(1 <= messageType <= 2 || 8 <= messageType <= 10)
    {
      hide WireIs;
      mw, err, flushed := BeginMessage(messageType);
      if err.None? {
        writer := mw;
      }
    }

    /**
     * A whole message written, or not. Written: the previous one, if that was open, and then this one.
     * Not: done is at most the previous one, and in flight what was before, a beginning of the previous
     * message, or of this one.
     */
    twostate predicate Written(
        messageType: nat, data: seq<Byte>, new err: Option<WriteError>, new flushed: seq<Message>)
      reads this, issued, writePool, writeBuf
    {
      Ready() && writer == null && old(issued) <= issued && OwnBuffersOnly() && PreviousFlushed(flushed) &&
      match err
      case None =>
        (PreviousMustFlush() ==> flushed != []) && asm.open.None? && InFlight().None? &&
        if IsData(messageType) then asm.done == old(asm.done) + flushed + [Message(messageType, data)]
        else
          IsControl(messageType) && asm.done == old(asm.done) + flushed &&
          log != [] && log[|log| - 1] == Frame(true, messageType, data)
      case Some(e) =>
        asm.done == old(asm.done) + flushed && (PreviousFlight() || Begins(InFlight(), messageType, data)) &&
        ((e == InvalidControlFrame && IsControl(messageType)) || Refused(messageType, err))
    }

    /** WriteMessage. */
    method WriteMessage(messageType: nat, data: seq<Byte>)
      returns (err: Option<WriteError>, ghost flushed: seq<Message>)
      requires Ready() && |data| < MAX_SLICE
      modifies this, writer, writeBuf, writePool, PoolBuffers()
      ensures Written(messageType, data, err, flushed)
      ensures isServer && err.None? ==> torn.None? && log != [] && log[|log| - 1] == Frame(true, messageType, data)
      ensures err == Some(BadOpCode) <==> !(1 <= messageType <= 2 || 8 <= messageType <= 10)
      ensures isServer ==> (err == Some(InvalidControlFrame) ==> 8 <= messageType <= 10 && |data| > 125)
    {
      hide WireOk, Owned, FlightOf, MessageWriter.Buffered, PreviousFlushed, PreviousFlight, PreviousMustFlush;
      if isServer {
        err, flushed := WriteFast(messageType, data);
      } else {
        err, flushed := WriteBuffered(messageType, data);
      }
      KeptErrors();
    }

    /** A server writes one frame straight from the buffer and the rest of data. */
    method WriteFast(messageType: nat, data: seq<Byte>) returns (err: Option<WriteError>, ghost flushed: seq<Message>)
      requires isServer && Ready() && |data| < MAX_SLICE
      modifies this, writer, writeBuf, writePool, PoolBuffers()
      ensures Written(messageType, data, err, flushed)
      ensures err.None? ==> torn.None? && log != [] && log[|log| - 1] == Frame(true, messageType, data)
      ensures err == Some(InvalidControlFrame) ==> 8 <= messageType <= 10 && |data| > 125
    {
      hide WireOk, FlightOf, MessageWriter.Buffered;
      var mw;
      mw, err, flushed := BeginMessage(messageType);
      if err.None? {
        var n := if writeBuf.Length - mw.pos < |data| then writeBuf.Length - mw.pos else |data|;
        mw.Append(data[..n]);
        assert [] + data[..n] + data[n..] == data;
        err := mw.FlushFrame(true, data[n..]);
      }
      KeptErrors();
    }

    /** A client goes through a message writer. */
    method WriteBuffered(messageType: nat, data: seq<Byte>)
      returns (err: Option<WriteError>, ghost flushed: seq<Message>)
      requires Ready() && |data| < MAX_SLICE
      modifies this, writer, writeBuf, writePool, PoolBuffers()
      ensures Written(messageType, data, err, flushed)
    {
      hide WireOk, FlightOf, MessageWriter.Buffered;
      var mw;
      mw, err, flushed := NextWriter(messageType);
      if err.Some? {
        return;
      }
      var _, we := mw.Write(data);
      if we.Some? {
        return we, flushed;
      }
      assert [] + data == data;
      err := mw.Close();
    }
  }

  lemma NothingWritten(server: bool)
    ensures WireIs(server, [], [], [], EMPTY, None, 0)
  {
  }

  /** Nothing in flight, or a beginning of the message. */
  predicate Begins(flight: Option<Message>, op: nat, content: seq<Byte>) {
    flight.Some? ==> flight.value.op == op && flight.value.payload <= content
  }

  class MessageWriter {
    const c: WriteConn
    var pos: nat
    var frameType: nat
    var err: Option<WriteError>
    /** The message type, and everything the application has written to this message. */
    ghost const op: nat
    ghost var content: seq<Byte>

    constructor (c: WriteConn, messageType: nat)
      ensures this.c == c && pos == MAX_HEADER && frameType == messageType == op && err.None? && content == []
    {
      this.c, pos, frameType, err, op, content := c, MAX_HEADER, messageType, None, messageType, [];
    }

    /** A writer to which nothing has been written. */
    ghost predicate Fresh(conn: WriteConn, messageType: nat)
      reads this
    {
      c == conn && op == frameType == messageType && content == [] && pos == MAX_HEADER && err.None?
    }

    ghost predicate Buffered()
      reads this, c, c.writeBuf
    {
      c.writeBuf != null && MAX_HEADER <= pos <= c.writeBuf.Length && (IsControl(op) || IsData(op)) &&
      if frameType == op then c.asm.open.None? && content == c.writeBuf[MAX_HEADER..pos]
      else
        frameType == CONTINUATION && IsData(op) && c.asm.open.Some? && c.asm.open.value.op == op &&
        content == c.asm.open.value.payload + c.writeBuf[MAX_HEADER..pos]
    }

    /** endMessage: the first error ends the message and gives the buffer back. */
    method EndMessage(e: WriteError) returns (r: WriteError)
      requires c.WireOk() && c.Owned() && c.live == this && (c.writeErr.Some? || c.asm.open.None?)
      modifies this`err, c`writer, c`writeBuf, c`live, c`puts, c.writePool
      ensures c.Valid() && r == e && err == Some(e) && c.live == null && c.writer == null
      ensures c.OwnBuffersOnly()
    {
      hide WriteConn.WireOk, FlightOf;
      r := e;
      if err.Some? {
        return;
      }
      err := Some(e);
      c.writer := null;
      c.live := null;
      if c.writePool != null {
        c.writePool.Put(c.writeBuf);
        c.writeBuf := null;
        c.puts := c.puts + 1;
      }
      c.WireKept();
    }

    /** The frame header, right-justified against the masking key or the payload. */
    method PutHeader(final: bool, length: nat) returns (framePos: nat, ghost h: nat)
      requires c.writeBuf != null && c.writeBuf.Length > MAX_HEADER && frameType < 16
      modifies c.writeBuf
      ensures h == if c.isServer then MAX_HEADER else MAX_HEADER - 4
      ensures framePos <= h && c.writeBuf[framePos..h] == FixedHeader(c.isServer, final, frameType, length)
      ensures c.writeBuf[h..] == old(c.writeBuf[h..])
    {
      hide BE;
      var b0 := frameType + if final then 128 else 0;
      var b1 := if c.isServer then 0 else 128;
      framePos := if c.isServer then 4 else 0;
      h := framePos + 10;
      if length >= 65536 {
        PutExtended(framePos, b0, b1 + 127, BE(length, 8));
      } else if length > 125 {
        framePos := framePos + 6;
        PutExtended(framePos, b0, b1 + 126, BE(length, 2));
      } else {
        framePos := framePos + 8;
        c.writeBuf[framePos], c.writeBuf[framePos + 1] := b0, b1 + length;
      }
    }

    /** Two header bytes and a length of several bytes. */
    method PutExtended(at: nat, b0: Byte, b1: Byte, length: seq<Byte>)
      requires c.writeBuf != null && at + 2 + |length| <= c.writeBuf.Length
      modifies c.writeBuf
      ensures c.writeBuf[at..at + 2 + |length|] == [b0, b1] + length
      ensures c.writeBuf[at + 2 + |length|..] == old(c.writeBuf[at + 2 + |length|..])
    {
      c.writeBuf[at], c.writeBuf[at + 1] := b0, b1;
      ghost var w := c.writeBuf[..];
      Copy(c.writeBuf, at + 2, length);
      Split(c.writeBuf[..], at, at + 2, at + 2 + |length|);
      SameHead(c.writeBuf[..], w, at + 2, at, at + 2);
    }

    /** The whole frame in place: header, masking key and masked payload. */
    method BuildFrame(final: bool, extra: seq<Byte>) returns (framePos: nat, ghost key: Key)
      requires c.writeBuf != null && MAX_HEADER <= pos <= c.writeBuf.Length && c.writeBuf.Length > MAX_HEADER
      requires frameType < 16 && (extra != [] ==> c.isServer)
      requires pos - MAX_HEADER + |extra| < TWO_63
      modifies c.writeBuf
      ensures framePos <= MAX_HEADER
      ensures var f := Frame(final, frameType, old(c.writeBuf[MAX_HEADER..pos]) + extra);
        |f.payload| < TWO_63 && c.writeBuf[framePos..pos] + extra == Raw(c.isServer, f, key).Wire()
    {
      hide MaskSeq, Raw, RawFrame.Wire, FixedHeader;
      ghost var payload, before := c.writeBuf[MAX_HEADER..pos], c.writeBuf[..];
      ghost var h;
      framePos, h := PutHeader(final, pos - MAX_HEADER + |extra|);
      ghost var w := c.writeBuf[..];
      SameTail(w, before, h, MAX_HEADER, pos);
      key := [0, 0, 0, 0];
      if !c.isServer {
        key := PutMask();
        assert payload + extra == payload;
        SameHead(c.writeBuf[..], w, h, framePos, h);
      }
      FrameInPlace(c.isServer, c.writeBuf[..], framePos, h, pos, Frame(final, frameType, payload + extra), key, extra);
    }

    /** The masking key in place, and the payload masked. */
    method PutMask() returns (key: Key)
      requires c.writeBuf != null && MAX_HEADER <= pos <= c.writeBuf.Length
      modifies c.writeBuf
      ensures c.writeBuf[..MAX_HEADER - 4] == old(c.writeBuf[..MAX_HEADER - 4])
      ensures c.writeBuf[MAX_HEADER - 4..MAX_HEADER] == key
      ensures c.writeBuf[MAX_HEADER..pos] == MaskSeq(key, 0, old(c.writeBuf[MAX_HEADER..pos]))
    {
      hide MaskSeq;
      key := NewMaskKey();
      ghost var before := c.writeBuf[..];
      Copy(c.writeBuf, MAX_HEADER - 4, key);
      ghost var w := c.writeBuf[..];
      SameTail(w, before, MAX_HEADER, MAX_HEADER, pos);
      var addr: nat := *;
      var _ := MaskBytesWord(key, 0, c.writeBuf, MAX_HEADER, pos, addr, WORD_SIZE);
      SameHead(c.writeBuf[..], w, MAX_HEADER, 0, MAX_HEADER - 4);
      SameHead(c.writeBuf[..], w, MAX_HEADER, MAX_HEADER - 4, MAX_HEADER);
    }

    /** Whether a frame of n payload bytes would break the rules for control frames. */
    predicate InvalidControl(final: bool, n: int)
      reads this
    {
      IsControl(frameType) && (!final || n > MAX_CONTROL)
    }

    /** The part of flushFrame that builds the frame and writes it. */
    method Transmit(final: bool, extra: seq<Byte>) returns (werr: Option<WriteError>)
      requires c.Valid() && c.live == this && (extra != [] ==> c.isServer)
      requires |extra| < MAX_SLICE
      requires !InvalidControl(final, pos - MAX_HEADER + |extra|)
      modifies this`content, c`wire, c`log, c`keys, c`asm, c`torn, c`tornBytes, c`writeErr, c`isWriting, c.writeBuf
      ensures c.WireOk() && c.Owned() && content == old(content) + extra
      ensures c.InFlight().Some? ==> c.InFlight().value.op == op && c.InFlight().value.payload <= content
      ensures werr.Some? ==> c.writeErr == werr && c.asm.done == old(c.asm.done) && c.asm.open == old(c.asm.open)
      ensures werr.None? ==> c.InFlight() == c.asm.open
      ensures werr.None? ==> c.log != [] && c.torn.None?
      ensures werr.None? && final && frameType == op ==> c.log[|c.log| - 1] == Frame(true, op, content)
      ensures werr.None? ==> c.log[|c.log| - 1] == Frame(final, frameType, old(c.writeBuf[MAX_HEADER..pos]) + extra)
      ensures werr.None? && IsControl(op) ==> c.asm.done == old(c.asm.done) && c.asm.open.None?
      ensures werr.None? && IsControl(op) ==> c.log[|c.log| - 1] == Frame(true, op, content)
      ensures werr.None? && IsData(op) && final ==>
        c.asm.done == old(c.asm.done) + [Message(op, content)] && c.asm.open.None?
      ensures werr.None? && IsData(op) && !final ==>
        c.asm.done == old(c.asm.done) && c.asm.open == Some(Message(op, content))
    {
      hide WriteConn.WireOk, FlightOf, Raw, RawFrame.Wire, Accepts, Extended, Feed;
      ghost var f := Frame(final, frameType, c.writeBuf[MAX_HEADER..pos] + extra);
      ghost var a := c.asm.(closed := false);
      NextInMessage(a, op, content, frameType, c.writeBuf[MAX_HEADER..pos], extra, final);
      var framePos, key := BuildFrame(final, extra);
      werr := c.WriteAlone(f, key, frameType, c.writeBuf[framePos..pos], extra);
      content := content + extra;
    }

    /** What follows is a continuation frame. */
    method NextFrame()
      requires c.WireOk() && c.Owned() && c.live == this && IsData(op)
      requires c.asm.open == c.InFlight() == Some(Message(op, content))
      modifies this`pos, this`frameType
      ensures Open() && pos == MAX_HEADER && frameType == CONTINUATION
    {
      hide WireIs;
      pos := MAX_HEADER;
      frameType := CONTINUATION;
      assert content == content + c.writeBuf[MAX_HEADER..pos];
    }

    /** A control frame that is not final, or too long. */
    method RefuseControl(ghost extra: seq<Byte>) returns (r: WriteError)
      requires Open() && IsControl(frameType)
      modifies this, c`writer, c`writeBuf, c`live, c`puts, c.writePool
      ensures c.Valid() && r == InvalidControlFrame && Ended(Some(r)) && content == old(content) + extra
      ensures c.OwnBuffersOnly()
    {
      hide WireIs;
      content := content + extra;
      r := EndMessage(InvalidControlFrame);
    }

    /** flushFrame. */
    method FlushFrame(final: bool, extra: seq<Byte>) returns (e: Option<WriteError>)
      requires c.Valid() && c.live == this && (extra != [] ==> c.isServer)
      requires |extra| < MAX_SLICE
      modifies this, c, c.writeBuf, c.writePool
      ensures c.Valid() && c.issued == old(c.issued) && content == old(content) + extra
      ensures c.OwnBuffersOnly()
      ensures e.None? && !final ==>
        c.live == this && c.writeBuf == old(c.writeBuf) && pos == MAX_HEADER && frameType == CONTINUATION &&
        c.writer == old(c.writer) && c.asm.done == old(c.asm.done)
      ensures e.None? && final ==>
        c.live == null && c.writer == null && err == Some(WriteClosed) && c.log != [] &&
        c.asm.open.None? && c.InFlight().None? &&
        if IsData(op) then c.asm.done == old(c.asm.done) + [Message(op, content)]
        else c.asm.done == old(c.asm.done) && c.log[|c.log| - 1] == Frame(true, op, content)
      ensures e.None? && final ==> c.torn.None?
      ensures e.None? && final && old(frameType) == op ==> c.log[|c.log| - 1] == Frame(true, op, content)
      ensures e.Some? ==>
        Ended(e) && c.asm.done == old(c.asm.done) &&
        (if old(InvalidControl(final, pos - MAX_HEADER + |extra|)) then e == Some(InvalidControlFrame)
         else c.writeErr == e)
      ensures old(InvalidControl(final, pos - MAX_HEADER + |extra|)) ==> e.Some?
    {
      hide WriteConn.WireOk, WriteConn.Owned, FlightOf;
      var length := pos - MAX_HEADER + |extra|;
      if IsControl(frameType) && (!final || length > MAX_CONTROL) {
        var r := RefuseControl(extra);
        return Some(r);
      }
      var werr := Transmit(final, extra);
      if werr.Some? {
        var r := EndMessage(werr.value);
        return Some(r);
      }
      if final {
        var _ := EndMessage(WriteClosed);
        return None;
      }
      NextFrame();
      e := None;
    }

    /** The state of a writer whose message has not ended. */
    ghost predicate Open()
      reads c, c.issued, c.writePool, c.writeBuf
      ensures Open() ==> c.Valid() && c.live == this && err.None?
      ensures Open() ==> c.writeBuf != null && MAX_HEADER <= pos <= c.writeBuf.Length && MAX_HEADER < c.writeBuf.Length
    {
      c.Valid() && c.live == this
    }

    /** ncopy: how much of max bytes fits, after a flush if the buffer is full. */
    method NCopy(max: nat) returns (n: nat, e: Option<WriteError>)
      requires Open() && max > 0
      modifies this, c, c.writeBuf, c.writePool
      ensures c.Valid() && c.issued == old(c.issued) && content == old(content) && c.asm.done == old(c.asm.done)
      ensures c.OwnBuffersOnly()
      ensures e.None? ==> Open() && c.writeBuf == old(c.writeBuf) && c.writer == old(c.writer)
      ensures e.None? ==> 0 < n == Min(max, c.writeBuf.Length - pos)
      ensures old(c.writeBuf.Length - pos) > 0 ==> e.None? && pos == old(pos) && c.log == old(c.log)
      ensures e.Some? ==> Ended(e) && n == 0
    {
      hide WriteConn.WireOk;
      n := 0;
      e := None;
      if c.writeBuf.Length - pos <= 0 {
        e := FlushFrame(false, []);
        if e.Some? {
          return;
        }
      }
      n := c.writeBuf.Length - pos;
      if n > max {
        n := max;
      }
    }

    /** A message ended by an error: the connection's, or a control frame that does not fit in one frame. */
    ghost predicate Ended(e: Option<WriteError>)
      reads this, c
    {
      e.Some? && err == e && c.live == null && c.writer == null &&
      (c.writeErr == e || (e == Some(InvalidControlFrame) && IsControl(op))) &&
      (c.InFlight().Some? ==> c.InFlight().value.op == op && c.InFlight().value.payload <= content)
    }

    /** Bytes put behind those in the buffer become part of the message. */
    twostate lemma BufferedMore(chunk: seq<Byte>)
      requires old(Buffered()) && unchanged(c) && frameType == old(frameType) && old(pos) <= pos <= c.writeBuf.Length
      requires c.writeBuf[..old(pos)] == old(c.writeBuf[..pos]) && c.writeBuf[old(pos)..pos] == chunk
      requires content == old(content) + chunk
      ensures Buffered()
    {
      SameHead(c.writeBuf[..], old(c.writeBuf[..]), old(pos), MAX_HEADER, old(pos));
      Split(c.writeBuf[..], MAX_HEADER, old(pos), pos);
      if frameType != op {
        Assoc(c.asm.open.value.payload, c.writeBuf[MAX_HEADER..old(pos)], chunk);
      }
    }

    /** Buffer p, which fits. */
    method Append(p: seq<Byte>)
      requires Open() && pos + |p| <= c.writeBuf.Length
      modifies this`pos, this`content, c.writeBuf
      ensures Open() && content == old(content) + p && pos == old(pos) + |p|
    {
      hide WriteConn.WireOk, WriteConn.Owned, Buffered;
      Copy(c.writeBuf, pos, p);
      pos := pos + |p|;
      content := content + p;
      c.OwnedKept();
      BufferedMore(p);
    }

    /** Buffer all of p, flushing whenever the buffer is full. */
    method Fill(p: seq<Byte>) returns (e: Option<WriteError>)
      requires Open()
      modifies this, c, c.writeBuf, c.writePool
      ensures c.Valid() && c.issued == old(c.issued) && c.asm.done == old(c.asm.done)
      ensures c.OwnBuffersOnly()
      ensures e.None? ==>
        Open() && c.writer == old(c.writer) && c.writeBuf == old(c.writeBuf) && content == old(content) + p
      ensures e.Some? ==> Ended(e) && content <= old(content) + p
    {
      hide WriteConn.WireOk, WriteConn.Owned, Buffered;
      var rest := p;
      e := None;
      while |rest| > 0
        invariant Open() && c.writer == old(c.writer) && c.writeBuf == old(c.writeBuf)
        invariant c.issued == old(c.issued) && c.asm.done == old(c.asm.done)
        invariant c.OwnBuffersOnly()
        invariant e.None? && content + rest == old(content) + p
      {
        var n;
        n, e := NCopy(|rest|);
        if e.Some? {
          return;
        }
        Append(rest[..n]);
        assert content + rest[n..] == old(content) + p;
        rest := rest[n..];
      }
    }

    /** Write. */
    method Write(p: seq<Byte>) returns (n: nat, e: Option<WriteError>)
      requires c.Valid() && this in c.issued
      requires |p| < MAX_SLICE
      modifies this, c, c.writeBuf, c.writePool
      ensures c.Valid() && c.issued == old(c.issued) && c.asm.done == old(c.asm.done)
      ensures c.OwnBuffersOnly()
      ensures old(err).Some? ==> n == 0 && e == old(err) && Untouched()
      ensures old(err).None? && e.None? ==> n == |p| && Open() && content == old(content) + p
      ensures old(err).None? && e.None? ==> c.writer == old(c.writer) && c.writeBuf == old(c.writeBuf)
      ensures old(err).None? && e.Some? ==> n == 0 && Ended(e) && content <= old(content) + p
    {
      hide WriteConn.WireOk;
      n, e := 0, err;
      if err.Some? {
        return;
      }
      if |p| > 2 * c.writeBuf.Length && c.isServer {
        // Straight from the caller's bytes, past the buffer.
        e := FlushFrame(false, p);
      } else {
        e := Fill(p);
      }
      if e.None? {
        n := |p|;
      }
    }

    /** WriteString. */
    method WriteString(p: seq<Byte>) returns (n: nat, e: Option<WriteError>)
      requires c.Valid() && this in c.issued
      modifies this, c, c.writeBuf, c.writePool
      ensures c.Valid() && c.issued == old(c.issued) && c.asm.done == old(c.asm.done)
      ensures c.OwnBuffersOnly()
      ensures old(err).Some? ==> n == 0 && e == old(err) && Untouched()
      ensures old(err).None? && e.None? ==> n == |p| && Open() && content == old(content) + p
      ensures old(err).None? && e.None? ==> c.writer == old(c.writer) && c.writeBuf == old(c.writeBuf)
      ensures old(err).None? && e.Some? ==> n == 0 && Ended(e) && content <= old(content) + p
    {
      hide WriteConn.WireOk;
      n, e := 0, err;
      if err.Some? {
        return;
      }
      e := Fill(p);
      if e.None? {
        n := |p|;
      }
    }

    /** A writer whose message has ended changes nothing, least of all another message's buffer. */
    twostate predicate Untouched()
      reads this, c, c.writeBuf
    {
      unchanged(this) && unchanged(c) && (c.writeBuf != null ==> unchanged(c.writeBuf))
    }

    /** Close. */
    method Close() returns (e: Option<WriteError>)
      requires c.Valid() && this in c.issued
      modifies this, c, c.writeBuf, c.writePool
      ensures c.Valid() && c.issued == old(c.issued) && content == old(content) && err.Some?
      ensures c.OwnBuffersOnly()
      ensures old(err).Some? ==> e == old(err) && Untouched()
      ensures old(err).None? && e.None? ==> err == Some(WriteClosed) && c.live == null && c.writer == null
      ensures old(err).None? && e.None? ==> c.asm.open.None? && c.InFlight().None?
      ensures old(err).None? && e.None? && IsData(op) ==> c.asm.done == old(c.asm.done) + [Message(op, content)]
      ensures old(err).None? && e.None? && IsControl(op) ==>
        c.asm.done == old(c.asm.done) && c.log != [] && c.log[|c.log| - 1] == Frame(true, op, content)
      ensures old(err).None? && e.Some? ==> Ended(e) && c.asm.done == old(c.asm.done)
    {
      hide WriteConn.WireOk;
      if err.Some? {
        return err;
      }
      e := FlushFrame(true, []);
      assert content == old(content) + [] == old(content);
    }

    /** ReadFrom: fill the buffer straight from a reader until it ends. */
    method ReadFrom(src: Source) returns (nn: nat, e: Option<WriteError>, er: Option<ReadError>)
      requires c.Valid() && this in c.issued && src.Ready()
      requires src.Frame() !! {this, c, c.writeBuf, c.writePool} && src.Frame() !! c.issued
      modifies this, c, c.writeBuf, c.writePool, src.Frame()
      ensures c.Valid() && c.issued == old(c.issued) && c.asm.done == old(c.asm.done)
      ensures c.OwnBuffersOnly()
      ensures old(err).Some? ==> nn == 0 && e == old(err) && Untouched() && unchanged(src.Frame())
      ensures old(err).None? && e.Some? ==> Ended(e) && content <= old(content) + old(src.Ahead())
      ensures e.None? ==> old(err).None? && Copied(old(content) + old(src.Ahead())) && nn == |old(src.Ahead())|
      ensures e.None? ==> c.writer == old(c.writer) && c.writeBuf == old(c.writeBuf)
      ensures e.None? ==> er != Some(EndOfFile) && (old(src.Clean()) ==> er.None?)
      ensures e.None? && er.None? && src.Honest() ==> old(src.Clean())
      ensures src.FromMessage? ==> src.message.c.Valid()
      ensures src.FromMessage? && e.None? ==>
        MessageAfter(src.message.c, old(src.Ahead()), if er.None? then Some(EndOfFile) else er, old(src.Before()))
    {
      hide WriteConn.WireOk, Buffered;
      if err.Some? {
        nn, e, er := 0, err, None;
        SourceKept(src);
        return;
      }
      nn, e, er := CopyFrom(src);
    }

    ghost predicate Copied(all: seq<Byte>)
      reads this, c, c.issued, c.writePool, c.writeBuf
    {
      Open() && content == all
    }

    /** The copying loop of ReadFrom. */
    method CopyFrom(src: Source) returns (nn: nat, e: Option<WriteError>, er: Option<ReadError>)
      requires Open() && this in c.issued && src.Ready()
      requires src.Frame() !! {this, c, c.writeBuf, c.writePool} && src.Frame() !! c.issued
      modifies this, c, c.writeBuf, c.writePool, src.Frame()
      ensures c.Valid() && c.issued == old(c.issued) && c.asm.done == old(c.asm.done)
      ensures c.OwnBuffersOnly()
      ensures e.Some? ==> Ended(e) && content <= old(content) + old(src.Ahead())
      ensures e.None? ==> Copied(old(content) + old(src.Ahead())) && nn == |old(src.Ahead())|
      ensures e.None? ==> c.writer == old(c.writer) && c.writeBuf == old(c.writeBuf)
      ensures e.None? ==> er != Some(EndOfFile) && (old(src.Clean()) ==> er.None?)
      ensures e.None? && er.None? && src.Honest() ==> old(src.Clean())
      ensures src.FromMessage? ==> src.message.c.Valid()
      ensures src.FromMessage? && e.None? ==>
        MessageAfter(src.message.c, old(src.Ahead()), if er.None? then Some(EndOfFile) else er, old(src.Before()))
    {
      hide WriteConn.Valid, Open, ReadMessage, MessageEnd.Prepend;
      hide Source.Ahead, Source.Clean, Source.Before, Source.Ready, MessageAfter;
      nn, e, er := 0, None, None;
      ghost var data: seq<Byte> := [];
      ghost var content0, ahead0, before0 := content, src.Ahead(), src.Before();
      PrependNothing(before0);
      while true
        invariant Open() && c.writer == old(c.writer) && c.writeBuf == old(c.writeBuf)
        invariant c.issued == old(c.issued) && c.asm.done == old(c.asm.done)
        invariant c.OwnBuffersOnly()
        invariant e.None? && er.None? && src.Ready() && src.Clean() == old(src.Clean())
        invariant nn == |data| && Progress(content0, content, data, ahead0, src.Ahead())
        invariant src.FromMessage? ==> src.Before().Prepend(data) == before0
        decreases |src.Ahead()|
      {
        e := FlushIfFull();
        if e.Some? {
          SourceKept(src);
          return;
        }
        ghost var content1, ahead1 := content, src.Ahead();
        var n, rerr, chunk := ReadMore(src, data, before0);
        ProgressMore(content0, content1, data, ahead0, ahead1, chunk);
        nn := nn + n;
        data := data + chunk;
        match rerr
        case None =>
        case Some(EndOfFile) =>
          return;
        case Some(Broken) =>
          er := rerr;
          return;
      }
    }

    method FlushIfFull() returns (e: Option<WriteError>)
      requires Open()
      modifies this, c, c.writeBuf, c.writePool
      ensures c.Valid() && c.issued == old(c.issued) && c.asm.done == old(c.asm.done) && content == old(content)
      ensures c.OwnBuffersOnly()
      ensures e.None? ==>
        Open() && c.writer == old(c.writer) && c.writeBuf == old(c.writeBuf) && pos < c.writeBuf.Length
      ensures e.Some? ==> Ended(e)
    {
      hide WriteConn.WireOk, WriteConn.Owned, Buffered;
      e := None;
      if pos == c.writeBuf.Length {
        e := FlushFrame(false, []);
      }
    }

    /** One more read, in terms of everything read so far. */
    method ReadMore(src: Source, ghost data: seq<Byte>, ghost before: MessageEnd)
      returns (n: nat, rerr: Option<ReadError>, ghost chunk: seq<Byte>)
      requires Open() && src.Ready() && pos < c.writeBuf.Length
      requires src.Frame() !! {this, c, c.writeBuf, c.writePool} && src.Frame() !! c.issued
      requires src.FromMessage? ==> src.Before().Prepend(data) == before
      modifies this`pos, this`content, c.writeBuf, src.Frame()
      ensures Open() && |chunk| == n && content == old(content) + chunk
      ensures rerr.None? ==>
        n > 0 && src.Ready() && old(src.Ahead()) == chunk + src.Ahead() && src.Clean() == old(src.Clean())
      ensures rerr.Some? ==> old(src.Ahead()) == chunk && (old(src.Clean()) ==> rerr == Some(EndOfFile))
      ensures rerr == Some(EndOfFile) && src.Honest() ==> old(src.Clean())
      ensures src.FromMessage? ==> src.message.c.Valid()
      ensures src.FromMessage? && rerr.None? ==> src.Before().Prepend(data + chunk) == before
      ensures src.FromMessage? && rerr.Some? ==> MessageAfter(src.message.c, data + chunk, rerr, before)
    {
      hide WriteConn.WireOk, WriteConn.Owned, Buffered, ReadMessage, MessageEnd.Prepend;
      hide Source.Ahead, Source.Clean, Source.Before, Source.Ready, MessageAfter;
      ghost var mid := src.Before();
      n, rerr, chunk := ReadIntoBuffer(src);
      if src.FromMessage? {
        MessageAfterMore(src.message.c, data, chunk, rerr, mid, before);
        if rerr.None? {
          StillReady(src, data + chunk, before);
        }
      }
    }

    /** One read straight into the buffer. */
    method ReadIntoBuffer(src: Source) returns (n: nat, rerr: Option<ReadError>, ghost chunk: seq<Byte>)
      requires Open() && src.Ready() && pos < c.writeBuf.Length
      requires src.Frame() !! {this, c, c.writeBuf, c.writePool} && src.Frame() !! c.issued
      modifies this`pos, this`content, c.writeBuf, src.Frame()
      ensures Open() && |chunk| == n && content == old(content) + chunk
      ensures rerr.None? ==>
        n > 0 && src.Ready() && old(src.Ahead()) == chunk + src.Ahead() && src.Clean() == old(src.Clean())
      ensures rerr.Some? ==> old(src.Ahead()) == chunk && (old(src.Clean()) ==> rerr == Some(EndOfFile))
      ensures rerr == Some(EndOfFile) && src.Honest() ==> old(src.Clean())
      ensures src.FromMessage? ==> src.message.c.Valid() && MessageAfter(src.message.c, chunk, rerr, old(src.Before()))
    {
      hide WriteConn.WireOk, WriteConn.Owned, Buffered;
      hide ReadMessage, MessageEnd.Prepend, Source.Ahead, Source.Clean, Source.Before, Source.Ready, MessageAfter;
      n, rerr := src.Read(c.writeBuf, pos, c.writeBuf.Length);
      chunk := c.writeBuf[pos..pos + n];
      content := content + chunk;
      pos := pos + n;
      c.OwnedKept();
      BufferedMore(chunk);
    }
  }

  /** The next frame of a message as the automaton takes it. */
  lemma NextInMessage(
      a: Assembly, op: nat, content: seq<Byte>, frameType: nat, buffered: seq<Byte>, extra: seq<Byte>, final: bool)
    requires !a.closed && (IsControl(op) || IsData(op)) && |buffered| + |extra| < TWO_63
    requires
      if frameType == op then a.open.None? && content == buffered
      else
        frameType == CONTINUATION && IsData(op) && a.open.Some? && a.open.value.op == op &&
        content == a.open.value.payload + buffered
    requires IsControl(frameType) ==> final && |buffered + extra| <= MAX_CONTROL
    ensures var f := Frame(final, frameType, buffered + extra);
      Writable(f) && Accepts(a, f) &&
      if IsControl(op) then
        f == Frame(true, op, content + extra) && Feed(a, f).done == a.done && Feed(a, f).open == a.open == None
      else
        var m := Message(op, content + extra);
        !IsControl(frameType) && Extended(a, f) == m &&
        Feed(a, f) == if final then a.(done := a.done + [m], open := None) else a.(open := Some(m))
  {
    if frameType != op {
      Assoc(a.open.value.payload, buffered, extra);
    }
  }

  /** data has come from the reader into the message; ahead is still to come. */
  ghost predicate Progress(
      content0: seq<Byte>, content: seq<Byte>, data: seq<Byte>, ahead0: seq<Byte>, ahead: seq<Byte>)
  {
    content == content0 + data && ahead0 == data + ahead
  }

  lemma ProgressMore(
      content0: seq<Byte>, content: seq<Byte>, data: seq<Byte>, ahead0: seq<Byte>, ahead: seq<Byte>, chunk: seq<Byte>)
    requires Progress(content0, content, data, ahead0, ahead) && chunk <= ahead
    ensures Progress(content0, content + chunk, data + chunk, ahead0, ahead[|chunk|..])
    ensures chunk == ahead ==> content + chunk == content0 + ahead0 && data + chunk == ahead0
  {
  }

  lemma SourceKept(src: Source)
    requires src.Ready()
    ensures src.FromMessage? ==> src.message.c.Valid()
  {
  }

  lemma StillReady(src: Source, data: seq<Byte>, before: MessageEnd)
    requires src.Ready() && src.FromMessage? && src.message.c.Valid() && MessageAfter(src.message.c, data, None, before)
    ensures src.Before().Prepend(data) == before
  {
    hide ReadMessage;
  }
}
