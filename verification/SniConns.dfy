/** Reading a ClientHello off a connection and giving its bytes back: sniproxy/sniff.go, sniproxy/listener.go. */
module SniConns {
  import opened Bytes
  import opened ClientHello
  import opened Pools
  import opened Sources

  datatype SniffError = NoHeader | NotTls | RecordTooShort | NoBody | NotHello

  /** What readClientHello makes of a stream: how much of it is kept for replay, or that the connection is closed. */
  datatype Sniff = Kept(length: nat, error: Option<SniffError>) | Closed(reason: SniffError)

  function Sniffing(s: seq<Byte>): (o: Sniff)
    ensures o.Kept? ==> 0 < o.length <= |s|
  {
    if |s| < 5 then Closed(NoHeader)
    else if s[0] != 0x16 then Kept(5, Some(NotTls))
    else
      var length := FromBE(s[3..5]);
      if length < 38 then Kept(5, Some(RecordTooShort))
      else if |s| < 5 + length then Closed(NoBody)
      else Kept(5 + length, if s[5] != 0x01 then Some(NotHello) else None)
  }

  /** The length in a record header. */
  function Announced(s: seq<Byte>): nat
    requires |s| >= 5
  {
    s[3] as int * 256 + s[4] as int
  }

  lemma Two(a: Byte, b: Byte)
    ensures FromBE([a, b]) == 256 * a + b
  {
    var s := [a, b];
    assert s[..1] == [a];
    assert FromBE([a]) == a;
  }

  lemma AnnouncedIs(s: seq<Byte>)
    requires |s| >= 5
    ensures FromBE(s[3..5]) == Announced(s)
  {
    hide FromBE;
    assert s[3..5] == [s[3], s[4]];
    Two(s[3], s[4]);
  }

  /**
   * Which streams close the connection, what is kept of the others, and why no name is looked for, by
   * their bytes.
   */
  lemma SniffingIs(s: seq<Byte>)
    ensures Sniffing(s).Closed? <==>
      |s| < 5 || (s[0] == 0x16 && Announced(s) >= 38 && |s| < 5 + Announced(s))
    ensures |s| < 5 ==> Sniffing(s) == Closed(NoHeader)
    ensures |s| >= 5 && s[0] != 0x16 ==> Sniffing(s) == Kept(5, Some(NotTls))
    ensures |s| >= 5 && s[0] == 0x16 && Announced(s) < 38 ==> Sniffing(s) == Kept(5, Some(RecordTooShort))
    ensures |s| >= 5 && s[0] == 0x16 && Announced(s) >= 38 ==>
      Sniffing(s) ==
        if |s| < 5 + Announced(s) then Closed(NoBody)
        else Kept(5 + Announced(s), if s[5] == 0x01 then None else Some(NotHello))
  {
    hide FromBE;
    if |s| >= 5 {
      AnnouncedIs(s);
    }
  }

  /** readClientHello. The buffer returned is kept[..length]. */
  method ReadClientHello(pool: Pool, r: ByteSource)
    returns (kept: array<Byte>, length: nat, closed: bool, err: Option<SniffError>)
    requires pool.Valid() && pool.Once()
    modifies pool, r, pool.Free()
    ensures pool.Valid() && pool.Once() && kept !in pool.Free()
    ensures pool.Free() <= old(pool.Free()) && (kept in old(pool.Free()) || fresh(kept))
    ensures closed <==> Sniffing(old(r.data)).Closed?
    ensures closed ==> err == Some(Sniffing(old(r.data)).reason)
    ensures !closed ==> Sniffing(old(r.data)) == Kept(length, err) && length <= kept.Length
    ensures !closed ==> kept[..length] + r.data == old(r.data)
    // The same by the bytes.
    ensures var s := old(r.data);
      closed <==> |s| < 5 || (s[0] == 0x16 && Announced(s) >= 38 && |s| < 5 + Announced(s))
    ensures closed ==> err == Some(if |old(r.data)| < 5 then NoHeader else NoBody)
    ensures var s := old(r.data);
      !closed ==>
        if s[0] != 0x16 then length == 5 && err == Some(NotTls)
        else if Announced(s) < 38 then length == 5 && err == Some(RecordTooShort)
        else length == 5 + Announced(s) && err == if s[5] == 0x01 then None else Some(NotHello)
  {
    hide FromBE;
    ghost var s := r.data;
    SniffingIs(s);
    var buf := pool.Get();
    var n, ok := ReadFull(r, buf, 0, 5);
    if !ok {
      return buf, n, true, Some(NoHeader);
    }
    assert buf[..5] == s[..5];
    if buf[0] != 0x16 {
      return buf, 5, false, Some(NotTls);
    }
    var recordLength := FromBE(buf[3..5]);
    assert buf[3..5] == s[3..5];
    if recordLength < 38 {
      return buf, 5, false, Some(RecordTooShort);
    }
    var size := 5 + recordLength;
    kept, n, ok := ReadRecord(r, buf, pool.size >= size, size, s);
    if !ok {
      return kept, 5 + n, true, Some(NoBody);
    }
    assert kept[5] == s[..size][5];
    length, closed := size, false;
    err := if kept[5] != 0x01 then Some(NotHello) else None;
  }

  /** The rest of a record of size bytes of the stream s, in buf if it fits there. */
  method ReadRecord(r: ByteSource, buf: array<Byte>, fits: bool, size: nat, ghost s: seq<Byte>)
    returns (kept: array<Byte>, n: nat, ok: bool)
    requires 5 <= size && 5 <= buf.Length && (fits ==> size <= buf.Length)
    requires |s| >= 5 && buf[..5] == s[..5] && r.data == s[5..]
    modifies r, buf
    ensures (kept == buf || fresh(kept)) && size <= kept.Length
    ensures ok <==> |s| >= size
    ensures ok ==> kept[..size] == s[..size] && kept[..size] + r.data == s
  {
    if fits {
      kept := buf;
    } else {
      kept := new Byte[size];
      Copy(kept, 0, buf[..5]);
    }
    assert kept[..5] == s[..5];
    n, ok := ReadFull(r, kept, 5, size);
    if ok {
      assert kept[..size] == kept[..5] + kept[5..size];
      assert s == s[..5] + s[5..];
      Assoc(kept[..5], kept[5..size], r.data);
    }
  }

  /** The streams on which parsing indexes past the record: sniffSNI panics, which ends the process. */
  predicate Crashes(s: seq<Byte>) {
    var o := Sniffing(s);
    o.Kept? && o.error.None? && Parse(s[..o.length]) == OutOfRange
  }

  /**
   * That happens exactly on a whole ClientHello record of 43 bytes, or one that ends one byte behind
   * its session id.
   */
  lemma CrashesExactly(s: seq<Byte>)
    ensures Crashes(s) <==>
      |s| >= 43 && s[0] == 0x16 && s[5] == 0x01 &&
      38 <= Announced(s) <= |s| - 5 && (Announced(s) == 38 || Announced(s) - 40 == s[43])
  {
    hide Parse, FromBE;
    var o := Sniffing(s);
    SniffingIs(s);
    if o.Kept? && o.error.None? {
      StaysInside(s[..o.length]);
    }
  }

  /** The shortest record: a length of 38, and nothing behind the random bytes. */
  lemma CrashExample(random: seq<Byte>, rest: seq<Byte>)
    requires |random| == 37
    ensures var s := [0x16, 3, 1, 0, 38, 1] + random + rest;
      Sniffing(s) == Kept(43, None) && Parse(s[..43]) == OutOfRange && Crashes(s)
  {
    hide Parse, FromBE;
    var s := [0x16, 3, 1, 0, 38, 1] + random + rest;
    SniffingIs(s);
    CrashesExactly(s);
  }

  /** sniffSNI: what it kept, and the host name or an error. crashed: it does not return, nor does the process go on. */
  method SniffSni(pool: Pool, r: ByteSource)
    returns (kept: array<Byte>, length: nat, closed: bool, crashed: bool, err: Option<SniffError>, sni: Sniffed)
    requires pool.Valid() && pool.Once()
    modifies pool, r, pool.Free()
    ensures crashed <==> Crashes(old(r.data))
    ensures pool.Valid() && pool.Once() && kept !in pool.Free()
    ensures closed <==> Sniffing(old(r.data)).Closed?
    ensures !closed ==> Sniffing(old(r.data)) == Kept(length, err) && 0 < length <= kept.Length
    ensures !closed ==> kept[..length] + r.data == old(r.data)
    ensures err.None? <==> Sniffing(old(r.data)) == Kept(length, None)
    ensures err.None? ==> sni == Parse(old(r.data)[..length])
  {
    hide Parse;
    kept, length, closed, err := ReadClientHello(pool, r);
    crashed, sni := false, Fail(NotHandshake);
    if err.None? {
      sni := ParseClientHello(kept[..length]);
      assert kept[..length] == old(r.data)[..length];
      crashed := sni == OutOfRange;
    }
  }

  class SniConn {
    const conn: ByteSource
    const pool: Pool
    var buffer: array?<Byte>
    var length: nat
    var n: nat

    ghost predicate Valid()
      reads this, pool
    {
      pool.Valid() && pool.Once() && (buffer != null ==> n < length <= buffer.Length && buffer !in pool.Free())
    }

    /** What reads are still to deliver: what was sniffed, then the connection. */
    ghost function Outstanding(): seq<Byte>
      requires Valid()
      reads this, pool, buffer, conn
    {
      (if buffer != null then buffer[n..length] else []) + conn.data
    }

    /** The connection made over to the bridge, with what sniffing has kept. */
    constructor (conn: ByteSource, pool: Pool, kept: array<Byte>, length: nat)
      requires pool.Valid() && pool.Once() && 0 < length <= kept.Length && kept !in pool.Free()
      ensures Valid() && this.conn == conn && this.pool == pool && buffer == kept
      ensures Outstanding() == kept[..length] + conn.data
    {
      this.conn, this.pool, buffer, this.length, n := conn, pool, kept, length, 0;
    }

    /**
     * Read. The kept buffer goes to the pool when its last byte is delivered, if it is of the pool's
     * size, and is not looked at again. An empty b gets the answer of the connection itself.
     */
    method Read(b: array<Byte>) returns (k: nat, err: Option<ReadError>)
      requires Valid() && b != buffer
      modifies this, pool, conn, b
      ensures Valid() && k <= b.Length && old(Outstanding()) == b[..k] + Outstanding()
      ensures err.None? && b.Length > 0 ==> k > 0
      ensures err.Some? ==> conn.data == [] && err == Some(if conn.clean then EndOfFile else Broken)
      ensures err.Some? && b.Length > 0 ==> Outstanding() == []
      ensures b.Length == 0 ==> buffer == old(buffer) && n == old(n)
      ensures buffer == null || buffer == old(buffer)
      ensures var done := old(buffer) != null && buffer == null && old(buffer).Length == pool.size;
        pool.Free() == old(pool.Free()) + if done then {old(buffer)} else {}
    {
      if b.Length == 0 {
        k := 0;
        err := conn.Poll();
        return;
      }
      if buffer != null {
        k := Replay(b);
        err := None;
        if n >= length {
          Release();
        }
      } else {
        k, err := conn.Read(b, 0, b.Length);
      }
    }

    /** The next of the kept bytes. */
    method Replay(b: array<Byte>) returns (k: nat)
      requires buffer != null && n < length <= buffer.Length && b != buffer && b.Length > 0
      modifies this`n, b
      ensures 0 < k <= b.Length && n == old(n) + k <= length
      ensures buffer[old(n)..length] == b[..k] + buffer[n..length]
    {
      k := Min(b.Length, length - n);
      Copy(b, 0, buffer[n..n + k]);
      Split(buffer[..], n, n + k, length);
      n := n + k;
    }

    /** All of them delivered. */
    method Release()
      requires buffer != null && pool.Valid() && pool.Once() && buffer !in pool.Free()
      modifies this`buffer, pool
      ensures buffer == null && pool.Valid() && pool.Once()
      ensures pool.Free() == old(pool.Free()) + if old(buffer).Length == pool.size then {old(buffer)} else {}
    {
      if buffer.Length == pool.size {
        pool.Put(buffer);
      }
      buffer := null;
    }
  }

  /**
   * A well-formed ClientHello at the head of a stream is kept whole, and gives the host name of its
   * server_name extension.
   */
  lemma SniffsHello(h: Hello, rest: seq<Byte>)
    requires WellFormed(h)
    ensures Sniffing(Serialise(h) + rest) == Kept(|Serialise(h)|, None)
    ensures h.extensions.Some? && HostName(h.extensions.value).Some? ==>
      Parse((Serialise(h) + rest)[..|Serialise(h)|]) == Found(HostName(h.extensions.value).value)
  {
    hide Parse, BE, FromBE, HostName, Block;
    var m, n := Serialise(h), 4 + |Content(h)|;
    ParseSerialise(h);
    assert (m + rest)[..|m|] == m;
    PowerValues();
    FromBEOfBE(n, 2);
    assert (m + rest)[3..5] == BE(n, 2);
  }

  /** Read a connection to its end, in any pieces. */
  method ReadOut(c: SniConn) returns (out: seq<Byte>)
    requires c.Valid()
    modifies c, c.pool, c.conn
    ensures out == old(c.Outstanding()) && c.pool.Valid() && c.pool.Once()
  {
    out := [];
    ghost var all := c.Outstanding();
    var more := true;
    while more
      invariant c.Valid() && all == out + c.Outstanding()
      invariant more || c.Outstanding() == []
      invariant c.buffer == null || c.buffer == old(c.buffer)
      decreases more, |c.Outstanding()|
    {
      var size: nat :| size > 0;
      var b := new Byte[size];
      var k, e := c.Read(b);
      Assoc(out, b[..k], c.Outstanding());
      out := out + b[..k];
      more := e.None?;
    }
  }

  /**
   * Sniff a connection, then read everything through SniConn, in any pieces: the original stream comes
   * out, unless the connection was closed or the process has crashed.
   */
  method SniffAndReplay(pool: Pool, r: ByteSource) returns (closed: bool, crashed: bool, replayed: seq<Byte>)
    requires pool.Valid() && pool.Once()
    modifies pool, r, pool.Free()
    ensures var s := old(r.data);
      closed <==> |s| < 5 || (s[0] == 0x16 && Announced(s) >= 38 && |s| < 5 + Announced(s))
    ensures var s := old(r.data);
      crashed <==>
        |s| >= 43 && s[0] == 0x16 && s[5] == 0x01 && 38 <= Announced(s) <= |s| - 5 &&
        (Announced(s) == 38 || Announced(s) - 40 == s[43])
    ensures replayed == if closed || crashed then [] else old(r.data)
    ensures pool.Valid() && pool.Once()
  {
    hide Parse, FromBE;
    SniffingIs(r.data);
    CrashesExactly(r.data);
    hide Sniffing, Crashes, Announced;
    var kept, length, err, sni;
    kept, length, closed, crashed, err, sni := SniffSni(pool, r);
    replayed := [];
    if closed || crashed {
      return;
    }
    var c := new SniConn(r, pool, kept, length);
    replayed := ReadOut(c);
  }
}
