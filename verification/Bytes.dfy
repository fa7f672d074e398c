/** Octets, fixed-width integers in both byte orders, and the 64-bit wrap-around the source relies on. */
module Bytes {

  type Byte = x: int | 0 <= x < 256

  datatype Option<+T> = None | Some(value: T)

  const TWO_63: int := 0x8000_0000_0000_0000
  const TWO_64: int := 0x1_0000_0000_0000_0000

  /** Conversion to int64: the representative of n modulo 2^64 between -2^63 and 2^63. */
  function Int64(n: int): (r: int)
    ensures -TWO_63 <= r < TWO_63
    ensures -TWO_63 <= n < TWO_63 ==> r == n
  {
    (n + TWO_63) % TWO_64 - TWO_63
  }

  function Min(a: int, b: int): int {
    if a < b then a else b
  }

  function Pow256(k: nat): (p: nat)
    ensures p >= 1
  {
    if k == 0 then 1 else 256 * Pow256(k - 1)
  }

  /** The k low-order bytes of n, most significant first (binary.BigEndian.PutUint16 and PutUint64). */
  function BE(n: nat, k: nat): (s: seq<Byte>)
    ensures |s| == k
  {
    if k == 0 then [] else BE(n / 256, k - 1) + [n % 256]
  }

  /** The number a big-endian byte string stands for. */
  function FromBE(s: seq<Byte>): nat {
    if s == [] then 0 else 256 * FromBE(s[..|s| - 1]) + s[|s| - 1]
  }

  /** The k low-order bytes of n, least significant first (binary.LittleEndian). */
  function LE(n: nat, k: nat): (s: seq<Byte>)
    ensures |s| == k
  {
    if k == 0 then [] else [n % 256] + LE(n / 256, k - 1)
  }

  function FromLE(s: seq<Byte>): nat {
    if s == [] then 0 else s[0] + 256 * FromLE(s[1..])
  }

  lemma {:induction false} FromBEOfBE(n: nat, k: nat)
    requires n < Pow256(k)
    ensures FromBE(BE(n, k)) == n
  {
    if k > 0 {
      FromBEOfBE(n / 256, k - 1);
      assert BE(n, k)[..k - 1] == BE(n / 256, k - 1);
    }
  }

  lemma {:induction false} FromLEOfLE(n: nat, k: nat)
    requires n < Pow256(k)
    ensures FromLE(LE(n, k)) == n
  {
    if k > 0 {
      FromLEOfLE(n / 256, k - 1);
      assert LE(n, k)[1..] == LE(n / 256, k - 1);
    }
  }

  lemma {:induction false} FromBEBound(s: seq<Byte>)
    ensures FromBE(s) < Pow256(|s|)
  {
    if s != [] {
      FromBEBound(s[..|s| - 1]);
    }
  }

  lemma {:induction false} FromLEBound(s: seq<Byte>)
    ensures FromLE(s) < Pow256(|s|)
  {
    if s != [] {
      FromLEBound(s[1..]);
    }
  }

  lemma PowerValues()
    ensures Pow256(1) == 0x100 && Pow256(2) == 0x1_0000 && Pow256(8) == TWO_64
  {
    assert Pow256(4) == 256 * 256 * 256 * 256 * Pow256(0);
    assert Pow256(8) == 256 * 256 * 256 * 256 * Pow256(4);
  }

  /** The pieces of a concatenation. */
  lemma Pieces<T>(a: seq<T>, b: seq<T>, c: seq<T>)
    ensures (a + b + c)[..|a|] == a
    ensures (a + b + c)[|a|..|a| + |b|] == b
    ensures (a + b + c)[|a| + |b|..] == c
  {
  }

  lemma Split<T>(s: seq<T>, i: nat, j: nat, k: nat)
    requires i <= j <= k <= |s|
    ensures s[i..k] == s[i..j] + s[j..k]
  {
  }

  /** Where two sequences agree up to mid, they agree on any stretch up to there. */
  lemma SameHead<T>(s: seq<T>, t: seq<T>, mid: nat, i: nat, j: nat)
    requires i <= j <= mid <= |s| && mid <= |t| && s[..mid] == t[..mid]
    ensures s[i..j] == t[i..j]
  {
    assert s[i..j] == s[..mid][i..j] && t[i..j] == t[..mid][i..j];
  }

  /** Where two sequences agree from mid on, they agree on any stretch from there. */
  lemma SameTail<T>(s: seq<T>, t: seq<T>, mid: nat, i: nat, j: nat)
    requires mid <= i <= j <= |s| == |t| && s[mid..] == t[mid..]
    ensures s[i..j] == t[i..j]
  {
    assert forall k :: i <= k < j ==> s[k] == s[mid..][k - mid] && t[k] == t[mid..][k - mid];
  }

  lemma Regroup<T>(a: seq<T>, b: seq<T>, c: seq<T>, d: seq<T>)
    ensures a + (b + c) + d == a + b + (c + d)
  {
  }

  lemma Assoc<T>(a: seq<T>, b: seq<T>, c: seq<T>)
    ensures a + (b + c) == a + b + c
  {
  }

  lemma PrefixOfConcat<T>(a: seq<T>, p: seq<T>, rest: seq<T>, q: seq<T>)
    requires q <= p
    ensures a + q <= a + (p + rest)
  {
    assert a + (p + rest) == a + q + (p[|q|..] + rest);
  }

  /** Go's copy into b[lo..]; all of p fits. */
  method Copy(b: array<Byte>, lo: nat, p: seq<Byte>)
    requires lo + |p| <= b.Length
    modifies b
    ensures b[lo..lo + |p|] == p
    ensures b[..lo] == old(b[..lo]) && b[lo + |p|..] == old(b[lo + |p|..])
  {
    for i := 0 to |p|
      invariant b[lo..lo + i] == p[..i]
      invariant b[..lo] == old(b[..lo]) && b[lo + i..] == old(b[lo + i..])
    {
      b[lo + i] := p[i];
    }
  }
}
