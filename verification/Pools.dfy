/** The free-buffer store of pool/pool.go: a bounded channel in front of a sync.Pool. */
module Pools {
  import opened Bytes

  class Pool {
    const size: nat
    const cache: nat
    var ch: seq<array<Byte>>
    /** What sync.Pool keeps; it may lose buffers, and makes one when it has none. */
    var rest: seq<array<Byte>>

    constructor (size: nat, cache: nat)
      ensures Valid() && Once() && Free() == {} && this.size == (if size < 4096 then 32768 else size)
      ensures this.cache == cache
    {
      this.size, this.cache := if size < 4096 then 32768 else size, cache;
      ch, rest := [], [];
    }

    ghost predicate Valid()
      reads this
    {
      size >= 4096 && |ch| <= cache && forall b :: b in Free() ==> b.Length >= size
    }

    /** The buffers the pool may give out again. */
    ghost function Free(): set<array<Byte>>
      reads this
    {
      (set b | b in ch) + (set b | b in rest)
    }

    /** No buffer has been put back twice: the pool gives no buffer to two users. */
    ghost predicate Once()
      reads this
    {
      (forall i, j :: 0 <= i < j < |ch| ==> ch[i] != ch[j]) &&
      (forall i, j :: 0 <= i < j < |rest| ==> rest[i] != rest[j]) &&
      forall i, j :: 0 <= i < |ch| && 0 <= j < |rest| ==> ch[i] != rest[j]
    }

    method Get() returns (b: array<Byte>)
      requires Valid()
      modifies this
      ensures Valid() && b.Length >= size
      ensures b in old(Free()) || fresh(b)
      ensures Free() <= old(Free())
      ensures old(Once()) ==> Once() && b !in Free()
    {
      if ch != [] {
        b := ch[0];
        ch := ch[1..];
      } else {
        b := FromRest();
      }
    }

    /** sync.Pool's Get. */
    method FromRest() returns (b: array<Byte>)
      requires Valid() && ch == []
      modifies this`rest
      ensures Valid() && b.Length >= size
      ensures b in old(Free()) || fresh(b)
      ensures Free() <= old(Free())
      ensures old(Once()) ==> Once() && b !in Free()
    {
      var lost: bool := *;
      if lost {
        rest := [];
      }
      if rest != [] {
        var i: nat :| i < |rest|;
        b := rest[i];
        rest := rest[..i] + rest[i + 1..];
      } else {
        b := new Byte[size];
      }
    }

    /**
     * Put. A buffer that is too small is dropped. The pool stays one that gives no buffer to two users
     * exactly when b was not in it already.
     */
    method Put(b: array<Byte>)
      requires Valid()
      modifies this
      ensures Valid() && Free() == old(Free()) + if b.Length < size then {} else {b}
      ensures Once() <==> old(Once()) && (b.Length < size || b !in old(Free()))
    {
      if b.Length < size {
        return;
      }
      if |ch| < cache {
        ch := ch + [b];
        assert ch[|ch| - 1] == b && forall i :: 0 <= i < |ch| - 1 ==> ch[i] == old(ch)[i];
      } else {
        rest := rest + [b];
        assert rest[|rest| - 1] == b && forall i :: 0 <= i < |rest| - 1 ==> rest[i] == old(rest)[i];
      }
    }
  }
}
