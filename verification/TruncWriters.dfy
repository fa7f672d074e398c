/**
 * truncWriter of third-party/websocket/compression.go: all but the last four bytes go downstream (section
 * 7.2.1 of RFC 7692).
 */
module TruncWriters {
  import opened Bytes
  import opened Sinks

  function Max(a: int, b: int): int {
    if a < b then b else a
  }

  class TruncWriter {
    const w: ByteSink
    var n: nat
    const p: array<Byte>
    ghost var written: seq<Byte>

    /** Downstream and what is held back make up everything written, and as much as four bytes are held back. */
    ghost predicate Valid()
      reads this, w, p
    {
      p.Length == 4 && n == Min(4, |written|) && w.out + p[..n] == written
    }

    constructor (w: ByteSink)
      requires w.out == []
      ensures Valid() && this.w == w && fresh(p) && written == []
    {
      this.w, n, p := w, 0, new Byte[4];
      written := [];
    }

    /**
     * Write. As long as downstream takes what it is given, Valid goes on holding of everything
     * written. The count returned leaves out the bytes of data now held back in place of others,
     * although they have been taken; it is right exactly when all of data fits behind the bytes held.
     */
    method Write(data: seq<Byte>) returns (k: nat, err: bool)
      requires Valid() && !w.failed
      modifies this, w, p
      ensures written == old(written) + data
      ensures !w.failed ==> Valid() && !err && k == |data| - Max(0, Min(4, old(n) + |data| - 4))
      ensures !w.failed ==> (k == |data| <==> old(n) + |data| <= 4)
      ensures err ==> w.failed
    {
      ghost var before := w.out + p[..n];
      written := written + data;
      k := 0;
      if n < 4 {
        k := Fill(data);
        Assoc(w.out, old(p[..n]), data[..k]);
        if k == |data| {
          assert data[..k] == data;
          return k, false;
        }
      }
      Assoc(before, data[..k], data[k..]);
      assert data == data[..k] + data[k..];
      assert w.out + p[..n] + data[k..] == written;
      assert p[..n] == p[..];
      var nn;
      nn, err := PassOn(data[k..]);
      k := k + nn;
      assert p[..n] == p[..];
    }

    /** Fill the buffer first. */
    method Fill(data: seq<Byte>) returns (k: nat)
      requires p.Length == 4 && n <= 4
      modifies this`n, p
      ensures k == Min(4 - old(n), |data|) && n == old(n) + k
      ensures p[..n] == old(p[..n]) + data[..k]
    {
      k := Min(4 - n, |data|);
      Copy(p, n, data[..k]);
      Split(p[..], 0, n, n + k);
      n := n + k;
    }

    /** Behind a full buffer: as many of its bytes as there are new ones go, then all the new ones but the last four. */
    method PassOn(rest: seq<Byte>) returns (k: nat, err: bool)
      requires p.Length == 4 && !w.failed
      modifies w, p
      ensures !w.failed ==> w.out + p[..] == old(w.out + p[..]) + rest && !err && k == |rest| - Min(|rest|, 4)
      ensures err ==> w.failed
    {
      var m := Min(|rest|, 4);
      ghost var out, held := w.out, p[..];
      k, err := w.Write(p[..m]);
      if err {
        return;
      }
      Hold(m, rest[|rest| - m..]);
      k, err := w.Write(rest[..|rest| - m]);
      if !w.failed {
        assert w.out == out + held[..m] + rest[..|rest| - m];
        Shifted(out, held, rest, m);
      }
    }

    /** Move the held bytes up by m, and hold the last ones behind them. */
    method Hold(m: nat, last: seq<Byte>)
      requires p.Length == 4 && m == |last| <= 4
      modifies p
      ensures p[..] == old(p[..])[m..] + last
    {
      var kept := p[m..];
      Copy(p, 0, kept);
      Copy(p, 4 - m, last);
      assert p[..] == p[..4 - m] + p[4 - m..];
    }
  }

  /** A byte behind four held ones: taken, the first of them passed on, and a count of 0. */
  method ShortCount(t: TruncWriter, b: Byte) returns (k: nat, err: bool)
    requires t.Valid() && t.n == 4 && !t.w.failed
    modifies t, t.w, t.p
    ensures !t.w.failed ==> k == 0 && !err && t.w.out == old(t.w.out) + [old(t.p[0])] && t.p[3] == b
  {
    ghost var out, held := t.w.out, t.p[..];
    k, err := t.Write([b]);
    if !t.w.failed {
      assert t.written == out + held + [b];
      assert t.w.out == t.written[..|out| + 1];
      assert t.p[3] == (t.w.out + t.p[..4])[|out| + 4];
    }
  }

  /** Four held bytes and the new ones: m of each move on, the rest being neither held nor new. */
  lemma Shifted(out: seq<Byte>, held: seq<Byte>, rest: seq<Byte>, m: nat)
    requires |held| == 4 && m == Min(|rest|, 4)
    ensures out + held[..m] + rest[..|rest| - m] + (held[m..] + rest[|rest| - m..]) == out + held + rest
  {
    if m == 4 {
      assert held[..m] == held && held[m..] + rest[|rest| - m..] == rest[|rest| - m..];
      Assoc(out + held, rest[..|rest| - m], rest[|rest| - m..]);
      assert rest == rest[..|rest| - m] + rest[|rest| - m..];
    } else {
      assert rest[..|rest| - m] == [] && rest[|rest| - m..] == rest;
      assert held == held[..m] + held[m..];
      Regroup(out, held[..m], held[m..], rest);
      assert out + held[..m] + [] == out + held[..m];
      Assoc(out, held[..m], held[m..]);
      Assoc(out + held[..m], held[m..], rest);
    }
  }
}
