/** Several connections, and other users, on one pool of write buffers: third-party/websocket/conn.go. */
module Sharing {
  import opened Bytes
  import opened Frames
  import opened WriteConns
  import opened Exchange

  /** Two connections on one pool, with no buffer in common. */
  ghost predicate Apart(c: WriteConn, d: WriteConn)
    reads c, d
  {
    c != d && c.writePool != null && c.writePool == d.writePool && (c.writeBuf != null ==> c.writeBuf != d.writeBuf)
  }

  /** The buffers in the pool of two connections, and those they hold. */
  ghost function Buffers(c: WriteConn, d: WriteConn): set<array<Byte>>
    reads c, d, c.writePool
  {
    c.PoolBuffers() + (if c.writeBuf == null then {} else {c.writeBuf}) +
    (if d.writeBuf == null then {} else {d.writeBuf})
  }

  /** Whatever others take from the pool and put there, as long as it is not the buffer d holds, d stays sound. */
  twostate lemma OthersKeepValid(d: WriteConn)
    requires old(d.Valid()) && unchanged(d) && unchanged(d.issued) && (d.writeBuf != null ==> unchanged(d.writeBuf))
    requires d.writePool != null ==> d.writeBuf !in d.writePool.free
    requires d.writePool != null ==> forall b :: b in d.writePool.free ==> MAX_HEADER < b.Length <= MAX_SLICE
    ensures d.Valid()
  {
    hide WireIs;
  }

  /** What one connection does by itself leaves the other sound, and the two without a common buffer. */
  twostate lemma SharingIsSafe(c: WriteConn, d: WriteConn)
    requires old(c.Valid()) && old(d.Valid()) && old(Apart(c, d))
    requires c.Valid() && c.OwnBuffersOnly()
    requires unchanged(d) && unchanged(d.issued) && (d.writeBuf != null ==> unchanged(d.writeBuf))
    ensures d.Valid() && Apart(c, d)
  {
    hide WireIs;
    assert old(d.writeBuf !in c.writePool.free) && c.writePool.free == c.PoolBuffers();
    OthersKeepValid(d);
  }

  /** One message on c, while d stands by, perhaps in the middle of a message of its own. */
  method OneTurn(c: WriteConn, d: WriteConn, m: Message) returns (err: Option<WriteError>)
    requires c.Ready() && c.live == null && c.InFlight().None? && d.Ready() && Apart(c, d)
    requires IsData(m.op) && |m.payload| < MAX_SLICE
    modifies c, c.writeBuf, c.writePool, c.PoolBuffers()
    ensures c.Ready() && c.live == null && d.Ready() && Apart(c, d)
    ensures unchanged(d) && unchanged(d.issued) && (d.writeBuf != null ==> unchanged(d.writeBuf))
    ensures forall b :: b in Buffers(c, d) ==> b in old(Buffers(c, d)) || fresh(b)
    ensures err.None? ==> c.asm.done == old(c.asm.done) + [m] && c.InFlight().None?
    ensures err.Some? ==> c.asm.done == old(c.asm.done) && c.writeErr.Some?
  {
    hide WireIs;
    err := WriteOne(c, m);
    OthersKeepValid(d);
  }

  /**
   * Two connections on one pool write their messages in any order: each gets its own done, as if it were
   * alone, and never does one hold the buffer of the other.
   */
  method TakeTurns(c: WriteConn, d: WriteConn, ms: seq<Message>, ns: seq<Message>) returns (i: nat, j: nat)
    requires c.Ready() && c.live == null && c.InFlight().None? && c.asm.done == []
    requires d.Ready() && d.live == null && d.InFlight().None? && d.asm.done == [] && Apart(c, d)
    requires forall m :: m in ms + ns ==> IsData(m.op) && |m.payload| < MAX_SLICE
    modifies c, d, c.writePool, Buffers(c, d)
    ensures c.Ready() && d.Ready() && Apart(c, d)
    ensures i <= |ms| && c.asm.done == ms[..i] && (c.writeErr.None? ==> i == |ms|)
    ensures j <= |ns| && d.asm.done == ns[..j] && (d.writeErr.None? ==> j == |ns|)
  {
    hide WriteConn.Valid;
    i, j := 0, 0;
    var more, left := true, true;
    while more || left
      invariant c.Ready() && c.live == null && d.Ready() && d.live == null && Apart(c, d)
      invariant i <= |ms| && c.asm.done == ms[..i] && (more ==> c.InFlight().None?)
      invariant j <= |ns| && d.asm.done == ns[..j] && (left ==> d.InFlight().None?)
      invariant !more ==> i == |ms| || c.writeErr.Some?
      invariant !left ==> j == |ns| || d.writeErr.Some?
      invariant forall b :: b in Buffers(c, d) ==> b in old(Buffers(c, d)) || fresh(b)
      decreases |ms| - i + |ns| - j, more, left
    {
      var turn: bool := *;
      if more && (turn || !left) {
        if i == |ms| {
          more := false;
        } else {
          assert ms[i] in ms + ns;
          var err := OneTurn(c, d, ms[i]);
          if err.None? {
            i := i + 1;
          } else {
            more := false;
          }
        }
      } else {
        if j == |ns| {
          left := false;
        } else {
          assert ns[j] in ms + ns && Buffers(c, d) == Buffers(d, c);
          var err := OneTurn(d, c, ns[j]);
          assert Buffers(c, d) == Buffers(d, c);
          if err.None? {
            j := j + 1;
          } else {
            left := false;
          }
        }
      }
    }
  }
}
