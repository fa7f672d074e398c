/**
 * Payload masking, section 5.3 of RFC 6455: third-party/websocket/mask.go and mask_safe.go.
 * Both builds of maskBytes are proved against one specification, MaskSeq.
 */
module Masking {
  import opened Bytes

  /** A masking key is the four bytes sent in the frame header. */
  type Key = k: seq<Byte> | |k| == 4 witness [0, 0, 0, 0]

  /** Exclusive or of two numbers of any width, one binary digit at a time. */
  function Xor(a: nat, b: nat): nat {
    if a == 0 && b == 0 then 0 else 2 * Xor(a / 2, b / 2) + (a + b) % 2
  }

  function Pow2(k: nat): (p: nat)
    ensures p >= 1
  {
    if k == 0 then 1 else 2 * Pow2(k - 1)
  }

  /** One step of Xor, on numbers given with their lowest digit apart. */
  lemma XorStep(a: nat, b: nat, p: nat, q: nat)
    requires p < 2 && q < 2
    ensures Xor(2 * a + p, 2 * b + q) == 2 * Xor(a, b) + (if p == q then 0 else 1)
  {
    var x, y := 2 * a + p, 2 * b + q;
    assert x / 2 == a && y / 2 == b;
    assert (x + y) % 2 == if p == q then 0 else 1;
    assert Xor(x, y) == if x == 0 && y == 0 then 0 else 2 * Xor(a, b) + (x + y) % 2;
  }

  lemma XorZero()
    ensures Xor(0, 0) == 0
  {
  }

  lemma {:induction false} XorBound(a: nat, b: nat, k: nat)
    requires a < Pow2(k) && b < Pow2(k)
    ensures Xor(a, b) < Pow2(k)
  {
    if k > 0 {
      XorBound(a / 2, b / 2, k - 1);
      XorStep(a / 2, b / 2, a % 2, b % 2);
    }
  }

  lemma {:induction false} XorTwice(a: nat, b: nat)
    ensures Xor(Xor(a, b), b) == a
  {
    if a != 0 || b != 0 {
      hide Xor;
      var a1, a0, b1, b0 := a / 2, a % 2, b / 2, b % 2;
      XorTwice(a1, b1);
      XorStep(a1, b1, a0, b0);
      XorStep(Xor(a1, b1), b1, if a0 == b0 then 0 else 1, b0);
    }
  }

  /** Xor of byte-sized numbers is a byte. */
  function XorByte(a: Byte, b: Byte): (c: Byte)
    ensures c == Xor(a, b)
  {
    assert Pow2(8) == 256;
    XorBound(a, b, 8);
    Xor(a, b)
  }

  /** a shifted left by k bits. */
  function Shift(a: nat, k: nat): nat {
    if k == 0 then a else 2 * Shift(a, k - 1)
  }

  /** Splitting both operands at bit k splits the exclusive or. */
  lemma {:induction false} XorSplit(x: nat, y: nat, a: nat, b: nat, k: nat)
    requires x < Pow2(k) && y < Pow2(k)
    ensures Xor(x + Shift(a, k), y + Shift(b, k)) == Xor(x, y) + Shift(Xor(a, b), k)
  {
    hide Xor;
    if k == 0 {
      XorZero();
    } else {
      var x1, x0, y1, y0 := x / 2, x % 2, y / 2, y % 2;
      XorSplit(x1, y1, a, b, k - 1);
      XorStep(x1, y1, x0, y0);
      XorStep(x1 + Shift(a, k - 1), y1 + Shift(b, k - 1), x0, y0);
    }
  }

  lemma ShiftTwo(n: nat, k: nat)
    ensures Shift(n, 0) == n && Shift(n, k + 2) == 4 * Shift(n, k)
  {
    assert Shift(n, k + 2) == 2 * Shift(n, k + 1);
  }

  lemma {:induction false} ShiftByte(n: nat)
    ensures Shift(n, 8) == 256 * n
  {
    ShiftTwo(n, 0);
    ShiftTwo(n, 2);
    ShiftTwo(n, 4);
    ShiftTwo(n, 6);
  }

  lemma XorLowByte(x: Byte, y: Byte, a: nat, b: nat)
    ensures Xor(x + 256 * a, y + 256 * b) == XorByte(x, y) + 256 * Xor(a, b)
  {
    assert Pow2(8) == 256;
    hide Xor;
    ShiftByte(a);
    ShiftByte(b);
    ShiftByte(Xor(a, b));
    XorSplit(x, y, a, b, 8);
  }

  // ----- The specification -----

  /** s masked with key, its first byte standing at offset pos of the payload. */
  function MaskSeq(key: Key, pos: nat, s: seq<Byte>): (r: seq<Byte>)
    ensures |r| == |s|
    ensures forall i :: 0 <= i < |s| ==> r[i] == XorByte(s[i], key[(pos + i) % 4])
  {
    seq(|s|, i requires 0 <= i < |s| => XorByte(s[i], key[(pos + i) % 4]))
  }

  lemma MaskTwice(key: Key, pos: nat, s: seq<Byte>)
    ensures MaskSeq(key, pos, MaskSeq(key, pos, s)) == s
  {
    forall i | 0 <= i < |s|
      ensures MaskSeq(key, pos, MaskSeq(key, pos, s))[i] == s[i]
    {
      XorTwice(s[i], key[(pos + i) % 4]);
    }
  }

  /** Masking in pieces, each from the position the previous one returned, masks the whole. */
  lemma MaskConcat(key: Key, pos: nat, s: seq<Byte>, t: seq<Byte>)
    ensures MaskSeq(key, pos, s + t) == MaskSeq(key, pos, s) + MaskSeq(key, (pos + |s|) % 4, t)
  {
    hide *;
    var u := MaskSeq(key, (pos + |s|) % 4, t);
    forall i | 0 <= i < |t|
      ensures MaskSeq(key, pos, s + t)[|s| + i] == u[i]
    {
      assert (pos + (|s| + i)) % 4 == ((pos + |s|) % 4 + i) % 4;
    }
  }

  // ----- mask_safe.go: one byte at a time -----

  method MaskBytesByte(key: Key, pos: nat, b: array<Byte>, lo: nat, hi: nat) returns (next: nat)
    requires lo <= hi <= b.Length
    modifies b
    ensures b[lo..hi] == MaskSeq(key, pos, old(b[lo..hi]))
    ensures b[..lo] == old(b[..lo]) && b[hi..] == old(b[hi..])
    ensures next == (pos + (hi - lo)) % 4
  {
    hide Xor, XorByte;
    var p := pos;
    for i := lo to hi
      invariant p == pos + (i - lo)
      invariant forall j :: lo <= j < i ==> b[j] == XorByte(old(b[j]), key[(pos + (j - lo)) % 4])
      invariant forall j :: 0 <= j < lo || i <= j < b.Length ==> b[j] == old(b[j])
    {
      b[i] := XorByte(b[i], key[p % 4]);
      p := p + 1;
    }
    next := p % 4;
  }

  // ----- mask.go: one machine word at a time -----

  function XorSeq(s: seq<Byte>, t: seq<Byte>): (r: seq<Byte>)
    requires |s| == |t|
    ensures |r| == |s|
    ensures forall i :: 0 <= i < |s| ==> r[i] == XorByte(s[i], t[i])
  {
    seq(|s|, i requires 0 <= i < |s| => XorByte(s[i], t[i]))
  }

  lemma {:induction false} FromLEStep(s: seq<Byte>)
    ensures s != [] ==> FromLE(s) == s[0] + 256 * FromLE(s[1..])
  {
  }

  lemma LEStep(c: Byte, n: nat, k: nat)
    ensures LE(c + 256 * n, k + 1) == [c] + LE(n, k)
  {
    assert (c + 256 * n) % 256 == c && (c + 256 * n) / 256 == n;
  }

  /** Exclusive or of two words is exclusive or of the bytes they are loaded from. */
  lemma {:induction false} WordXor(s: seq<Byte>, t: seq<Byte>)
    requires |s| == |t|
    ensures LE(Xor(FromLE(s), FromLE(t)), |s|) == XorSeq(s, t)
  {
    if s != [] {
      FromLEStep(s);
      FromLEStep(t);
      hide *;
      WordXor(s[1..], t[1..]);
      var a, b := FromLE(s[1..]), FromLE(t[1..]);
      XorLowByte(s[0], t[0], a, b);
      LEStep(XorByte(s[0], t[0]), Xor(a, b), |s| - 1);
      assert XorSeq(s, t) == [XorByte(s[0], t[0])] + XorSeq(s[1..], t[1..]);
    }
  }

  /** The key repeated to fill a word, starting at offset pos. */
  function WordKey(key: Key, pos: nat, w: nat): (k: seq<Byte>)
    ensures |k| == w
    ensures forall i :: 0 <= i < w ==> k[i] == key[(pos + i) % 4]
  {
    seq(w, i requires 0 <= i < w => key[(pos + i) % 4])
  }

  /** Exclusive-or of one machine word in place, on a machine with little-endian words of w bytes. */
  method XorWordAt(b: array<Byte>, i: nat, w: nat, kw: nat)
    requires i + w <= b.Length
    modifies b
    ensures b[i..i + w] == LE(Xor(FromLE(old(b[i..i + w])), kw), w)
    ensures forall j :: 0 <= j < i || i + w <= j < b.Length ==> b[j] == old(b[j])
  {
    var word := LE(Xor(FromLE(b[i..i + w]), kw), w);
    for j := 0 to w
      invariant forall m :: 0 <= m < j ==> b[i + m] == word[m]
      invariant forall m :: 0 <= m < i || i + j <= m < b.Length ==> b[m] == old(b[m])
    {
      b[i + j] := word[j];
    }
  }

  lemma {:induction false} KeyedWord(key: Key, pos: nat, d: nat, s: seq<Byte>, r: seq<Byte>, w: nat)
    requires w == 4 || w == 8
    requires |s| == |r| == w && Whole(d, w)
    requires r == LE(Xor(FromLE(s), FromLE(WordKey(key, pos, w))), w)
    ensures r == MaskSeq(key, pos + d, s)
  {
    hide *;
    WordXor(s, WordKey(key, pos, w));
    forall m | 0 <= m < w
      ensures r[m] == XorByte(s[m], key[(pos + d + m) % 4])
    {
      PhaseOfWord(pos, d, m, w);
    }
  }

  /** Word masking of whole words: head already aligned, the key word kw taken at offset pos. */
  method MaskWords(key: Key, pos: nat, b: array<Byte>, lo: nat, hi: nat, w: nat)
    requires w == 4 || w == 8
    requires lo <= hi <= b.Length && Whole(hi - lo, w)
    modifies b
    ensures b[lo..hi] == MaskSeq(key, pos, old(b[lo..hi]))
    ensures b[..lo] == old(b[..lo]) && b[hi..] == old(b[hi..])
  {
    hide *;
    assert Whole(0, w) by {
      WholeZero(w);
    }
    var kw := FromLE(WordKey(key, pos, w));
    var i := lo;
    assert MaskSeq(key, pos, b[lo..i]) == [];
    while i < hi
      invariant lo <= i <= hi && Whole(i - lo, w) && Whole(hi - i, w)
      invariant b[lo..i] == MaskSeq(key, pos, old(b[lo..i]))
      invariant b[..lo] == old(b[..lo]) && b[i..] == old(b[i..])
    {
      WholeWords(hi - i, w);
      WholeWords(i - lo, w);
      MaskWord(key, pos, b, lo, i, w, kw, old(b[..]));
      i := i + w;
    }
  }

  /** The word at i, behind masked bytes o has from lo on. */
  method MaskWord(key: Key, pos: nat, b: array<Byte>, lo: nat, i: nat, w: nat, kw: nat, ghost o: seq<Byte>)
    requires (w == 4 || w == 8) && lo <= i && i + w <= b.Length == |o| && Whole(i - lo, w)
    requires kw == FromLE(WordKey(key, pos, w))
    requires b[lo..i] == MaskSeq(key, pos, o[lo..i]) && b[..lo] == o[..lo] && b[i..] == o[i..]
    modifies b
    ensures b[lo..i + w] == MaskSeq(key, pos, o[lo..i + w]) && b[..lo] == o[..lo] && b[i + w..] == o[i + w..]
  {
    hide *;
    ghost var mid := b[..];
    XorWordAt(b, i, w, kw);
    KeyedWord(key, pos, i - lo, mid[i..i + w], b[i..i + w], w);
    assert b[..i] == mid[..i] && b[i + w..] == mid[i + w..];
    JoinMasked(key, pos, pos + (i - lo), o, mid, b[..], lo, i, i + w);
  }

  /** n bytes make whole w-byte words. */
  predicate Whole(n: nat, w: nat) {
    if w == 4 then n % 4 == 0 else n % 8 == 0
  }

  lemma WholeWords(n: nat, w: nat)
    requires (w == 4 || w == 8) && Whole(n, w)
    ensures Whole(n + w, w)
    ensures n > 0 ==> n >= w && Whole(n - w, w)
  {
    if w == 4 {
      FourMore(n);
      if n >= 4 {
        FourMore(n - 4);
      }
    } else {
      EightMore(n);
      if n >= 8 {
        EightMore(n - 8);
      }
    }
  }

  lemma FourMore(n: nat)
    ensures (n + 4) % 4 == n % 4
    ensures n < 4 ==> n % 4 == n
  {
  }

  lemma EightMore(n: nat)
    ensures (n + 8) % 8 == n % 8
    ensures n < 8 ==> n % 8 == n
  {
  }

  lemma WholeZero(w: nat)
    ensures Whole(0, w)
  {
  }

  lemma Floors(n: nat)
    ensures n / 4 * 4 <= n < n / 4 * 4 + 4 && Whole(n / 4 * 4, 4)
    ensures n / 8 * 8 <= n < n / 8 * 8 + 8 && Whole(n / 8 * 8, 8)
  {
    Multiples(n / 4);
    Multiples(n / 8);
  }

  lemma Multiples(q: nat)
    ensures (q * 4) % 4 == 0 && (q * 8) % 8 == 0
  {
  }

  /** The number of bytes in whole words. */
  function WordBytes(n: nat, w: nat): (r: nat)
    requires w == 4 || w == 8
    ensures r <= n && n - r < w && Whole(r, w)
  {
    hide Whole;
    Floors(n);
    if w == 4 then n / 4 * 4 else n / 8 * 8
  }

  /** Words start at multiples of 4 from pos, so one key word serves them all. */
  lemma PhaseOfWord(pos: nat, d: nat, m: nat, w: nat)
    requires w == 4 || w == 8
    requires Whole(d, w)
    ensures (pos + m) % 4 == (pos + d + m) % 4
  {
    hide Whole;
    WholeIsFours(d, w);
    MultipleOfFour(pos + m, d / 4);
  }

  lemma WholeIsFours(d: nat, w: nat)
    requires Whole(d, w)
    ensures d == 4 * (d / 4)
  {
    if w != 4 {
      var k := d / 8;
      assert d == 4 * (2 * k);
      assert d / 4 == 2 * k;
    }
  }

  lemma MultipleOfFour(x: nat, q: nat)
    ensures (x + 4 * q) % 4 == x % 4
  {
  }

  lemma SamePhase(p: nat, q: nat, i: nat)
    requires p % 4 == q % 4
    ensures (p + i) % 4 == (q + i) % 4
  {
    assert (p + i) % 4 == (p % 4 + i) % 4 && (q + i) % 4 == (q % 4 + i) % 4;
  }

  lemma MaskPhase(key: Key, p: nat, q: nat, s: seq<Byte>)
    requires p % 4 == q % 4
    ensures MaskSeq(key, p, s) == MaskSeq(key, q, s)
  {
    hide *;
    var r := MaskSeq(key, q, s);
    forall i | 0 <= i < |s|
      ensures MaskSeq(key, p, s)[i] == r[i]
    {
      SamePhase(p, q, i);
    }
  }

  /** Masking o[lo..mid] and then o[mid..hi] in place masks o[lo..hi]. */
  lemma JoinMasked(key: Key, pos: nat, p: nat, o: seq<Byte>, m: seq<Byte>, r: seq<Byte>, lo: nat, mid: nat, hi: nat)
    requires lo <= mid <= hi <= |o| == |m| == |r|
    requires p % 4 == (pos + (mid - lo)) % 4
    requires m[lo..mid] == MaskSeq(key, pos, o[lo..mid]) && m[..lo] == o[..lo] && m[mid..] == o[mid..]
    requires r[mid..hi] == MaskSeq(key, p, m[mid..hi]) && r[..mid] == m[..mid] && r[hi..] == m[hi..]
    ensures r[lo..hi] == MaskSeq(key, pos, o[lo..hi]) && r[..lo] == o[..lo] && r[hi..] == o[hi..]
  {
    hide *;
    assert o[lo..hi] == o[lo..mid] + o[mid..hi];
    assert m[mid..hi] == m[mid..][..hi - mid] == o[mid..hi];
    assert r[lo..mid] == r[..mid][lo..] == m[lo..mid];
    assert r[lo..hi] == r[lo..mid] + r[mid..hi];
    MaskConcat(key, pos, o[lo..mid], o[mid..hi]);
    MaskPhase(key, p, (pos + (mid - lo)) % 4, o[mid..hi]);
    assert r[..lo] == r[..mid][..lo] == o[..lo];
    assert r[hi..] == m[mid..][hi - mid..] == o[hi..];
  }

  /**
   * maskBytes of mask.go on the slice b[lo..hi], whose first byte lies at address addr: bytes up to
   * the next word boundary, then whole words, then the remaining bytes.
   */
  method MaskBytesWord(key: Key, pos: nat, b: array<Byte>, lo: nat, hi: nat, addr: nat, w: nat) returns (next: nat)
    requires w == 4 || w == 8
    requires lo <= hi <= b.Length
    modifies b
    ensures b[lo..hi] == MaskSeq(key, pos, old(b[lo..hi]))
    ensures b[..lo] == old(b[..lo]) && b[hi..] == old(b[hi..])
    ensures next == (pos + (hi - lo)) % 4
  {
    hide *;
    if hi - lo < 2 * w {
      next := MaskBytesByte(key, pos, b, lo, hi);
      return;
    }
    var p, start := pos, lo;
    if addr % w != 0 {
      start := lo + (w - addr % w);
      p := MaskBytesByte(key, p, b, lo, start);
    } else {
      assert MaskSeq(key, pos, b[lo..lo]) == [];
    }
    ghost var mid := b[..];
    assert p % 4 == (pos + (start - lo)) % 4;
    next := MaskTail(key, p, b, start, hi, w);
    SamePhase(p, pos + (start - lo), hi - start);
    JoinMasked(key, pos, p, old(b[..]), mid, b[..], lo, start, hi);
  }

  /** The slice from the first word boundary on: whole words, then the remaining bytes. */
  method MaskTail(key: Key, pos: nat, b: array<Byte>, lo: nat, hi: nat, w: nat) returns (next: nat)
    requires w == 4 || w == 8
    requires lo <= hi <= b.Length
    modifies b
    ensures b[lo..hi] == MaskSeq(key, pos, old(b[lo..hi]))
    ensures b[..lo] == old(b[..lo]) && b[hi..] == old(b[hi..])
    ensures next == (pos + (hi - lo)) % 4
  {
    hide *;
    var n := WordBytes(hi - lo, w);
    MaskWords(key, pos, b, lo, lo + n, w);
    ghost var mid := b[..];
    next := MaskBytesByte(key, pos, b, lo + n, hi);
    PhaseOfWord(pos, n, 0, w);
    PhaseOfWord(pos, n, hi - lo - n, w);
    JoinMasked(key, pos, pos, old(b[..]), mid, b[..], lo, lo + n, hi);
  }

  const WORD_SIZE: nat := 8

  /** maskBytes, from the first key byte, on bytes that have a buffer of their own. */
  method MaskedCopy(key: Key, s: seq<Byte>) returns (r: seq<Byte>)
    ensures r == MaskSeq(key, 0, s)
  {
    hide MaskSeq;
    var b := new Byte[|s|](i requires 0 <= i < |s| => s[i]);
    assert b[0..|s|] == s;
    var addr: nat := *;
    var _ := MaskBytesWord(key, 0, b, 0, |s|, addr, WORD_SIZE);
    r := b[0..|s|];
  }
}
