/** Memory as a sequence of bytes, little-endian words in it, and the byte
    ranges that DMA works on. */
module Bytes {
  import opened Words

  type Mem = seq<u8>

  /** The little-endian value of a few bytes. */
  function FromLe(s: seq<u8>): nat {
    if s == [] then 0 else s[0] + 0x100 * FromLe(s[1..])
  }

  function Le(v: nat, k: nat): (s: seq<u8>)
    ensures |s| == k
    decreases k
  {
    if k == 0 then [] else [v % 0x100] + Le(v / 0x100, k - 1)
  }

  function Pow256(k: nat): (r: nat)
    ensures r > 0
  {
    if k == 0 then 1 else 0x100 * Pow256(k - 1)
  }

  lemma {:induction false} LeRoundTrip(v: nat, k: nat)
    requires v < Pow256(k)
    ensures FromLe(Le(v, k)) == v
    decreases k
  {
    if k > 0 {
      LeRoundTrip(v / 0x100, k - 1);
      assert Le(v, k)[1..] == Le(v / 0x100, k - 1);
    }
  }

  lemma {:induction false} FromLeBound(s: seq<u8>)
    ensures FromLe(s) < Pow256(|s|)
  {
    if s != [] {
      FromLeBound(s[1..]);
    }
  }

  lemma Pow256Values()
    ensures Pow256(1) == 0x100 && Pow256(2) == 0x1_0000 && Pow256(4) == 0x1_0000_0000
    ensures Pow256(8) == 0x1_0000_0000_0000_0000
  {
    assert Pow256(2) == 0x1_0000;
    assert Pow256(4) == 0x1_0000_0000;
    assert Pow256(6) == 0x1_0000_0000_0000;
  }

  /** The k-byte word at address a; 0 if it is not all inside memory. */
  function WordAt(m: Mem, a: nat, k: nat): nat {
    if a + k <= |m| then FromLe(m[a..a + k]) else 0
  }

  function ByteAt(m: Mem, a: nat): int
    requires a < |m|
  {
    m[a]
  }

  /** A word's bytes, lowest first. */
  lemma WordBytes(m: Mem, a: nat)
    ensures a < |m| ==> WordAt(m, a, 1) == ByteAt(m, a)
    ensures a + 2 <= |m| ==> WordAt(m, a, 2) == ByteAt(m, a) + 0x100 * ByteAt(m, a + 1)
    ensures a + 4 <= |m| ==>
      WordAt(m, a, 4) == ByteAt(m, a) + 0x100 * ByteAt(m, a + 1) + 0x1_0000 * ByteAt(m, a + 2) + 0x100_0000 * ByteAt(m, a + 3)
    ensures a + 8 <= |m| ==> WordAt(m, a, 8) == WordAt(m, a, 4) + 0x1_0000_0000 * WordAt(m, a + 4, 4)
  {
    if a < |m| { FromLeSplit(m[a..a + 1], 1); }
    if a + 2 <= |m| { Word2(m, a); }
    if a + 4 <= |m| { Word4(m, a); }
    if a + 8 <= |m| {
      FromLeSplit(m[a..a + 8], 4);
      Pow256Values();
      assert m[a..a + 8][..4] == m[a..a + 4] && m[a..a + 8][4..] == m[a + 4..a + 8];
    }
  }

  lemma Word2(m: Mem, a: nat)
    requires a + 2 <= |m|
    ensures FromLe(m[a..a + 2]) == ByteAt(m, a) + 0x100 * ByteAt(m, a + 1)
  {
    var s := m[a..a + 2];
    assert s[1..][1..] == [];
    assert FromLe(s[1..]) == ByteAt(m, a + 1);
  }

  lemma Word4(m: Mem, a: nat)
    requires a + 4 <= |m|
    ensures FromLe(m[a..a + 4]) == ByteAt(m, a) + 0x100 * ByteAt(m, a + 1) + 0x1_0000 * ByteAt(m, a + 2) + 0x100_0000 * ByteAt(m, a + 3)
  {
    Word2(m, a);
    Word2(m, a + 2);
    FromLeSplit(m[a..a + 4], 2);
    Pow256Values();
    assert m[a..a + 4][..2] == m[a..a + 2] && m[a..a + 4][2..] == m[a + 2..a + 4];
  }

  lemma MulAssoc(p: nat, x: nat)
    ensures 0x100 * p * x == 0x100 * (p * x)
  {}

  lemma {:induction false} FromLeSplit(s: seq<u8>, k: nat)
    requires k <= |s|
    ensures FromLe(s) == FromLe(s[..k]) + Pow256(k) * FromLe(s[k..])
  {
    if k == 0 {
      assert s[0..] == s && s[..0] == [];
    } else {
      FromLeSplit(s[1..], k - 1);
      assert s[..k][1..] == s[1..][..k - 1] && s[1..][k - 1..] == s[k..];
      MulAssoc(Pow256(k - 1), FromLe(s[k..]));
    }
  }

  /** m' differs from m only inside [lo, hi). */
  ghost predicate SameOutside(m: Mem, m': Mem, lo: int, hi: int) {
    |m'| == |m| && forall a :: 0 <= a < |m| && !(lo <= a < hi) ==> m'[a] == m[a]
  }

  lemma SameWord(m: Mem, m': Mem, lo: int, hi: int, a: nat, k: nat)
    requires SameOutside(m, m', lo, hi) && (a + k <= lo || hi <= a)
    ensures WordAt(m', a, k) == WordAt(m, a, k)
  {
    if a + k <= |m| {
      assert m'[a..a + k] == m[a..a + k];
    }
  }

  /** The addresses a, a+1, ..., a+n-1. */
  function Range(a: nat, n: nat): (r: seq<nat>)
    ensures |r| == n
    ensures forall i :: 0 <= i < n ==> r[i] == a + i
  {
    seq(n, i => a + i)
  }

  lemma RangeJoins(a: nat, n: nat, k: nat)
    ensures Range(a, n) + Range(a + n, k) == Range(a, n + k)
  {}

  /** Storing v as k bytes, lowest first. */
  method StoreLe(m: array<u8>, a: nat, v: nat, k: nat)
    requires a + k <= m.Length && v < Pow256(k)
    modifies m
    ensures WordAt(m[..], a, k) == v
    ensures SameOutside(old(m[..]), m[..], a, a + k)
  {
    var b, rest := 0, v;
    ghost var bytes := Le(v, k);
    while b < k
      invariant 0 <= b <= k
      invariant m[a..a + b] == bytes[..b] && bytes[b..] == Le(rest, k - b)
      invariant SameOutside(old(m[..]), m[..], a, a + b)
    {
      m[a + b] := rest % 0x100;
      assert m[a..a + (b + 1)] == m[a..a + b] + [m[a + b]];
      assert bytes[b] == rest % 0x100;
      assert bytes[b + 1..] == bytes[b..][1..];
      rest := rest / 0x100;
      b := b + 1;
    }
    LeRoundTrip(v, k);
    assert m[..][a..a + k] == bytes;
  }
}
