/** memset, memcpy and memmove as src/string.c and src/string_asm.S do them, on
    one memory: by words where both ends are aligned alike, and safe for
    overlapping ranges.  A register holds its eight bytes lowest first. */
module MemMove {
  import opened Words
  import opened Bytes

  // ---- What a copy is ----

  /** Memory with w stored at a. */
  function Put(m: Mem, a: nat, w: seq<u8>): (r: Mem)
    requires a + |w| <= |m|
    ensures |r| == |m|
  {
    m[..a] + w + m[a + |w|..]
  }

  /** Memory once the n bytes at s have been moved to d. */
  function Moved(m: Mem, d: nat, s: nat, n: nat): (r: Mem)
    requires d + n <= |m| && s + n <= |m|
    ensures |r| == |m|
  {
    Put(m, d, m[s..s + n])
  }

  function Fill(b: u8, n: nat): (r: seq<u8>)
    ensures |r| == n && forall i :: 0 <= i < n ==> r[i] == b
  {
    seq(n, _ => b)
  }

  /** Moving says byte by byte what memory holds. */
  lemma MovedBytes(m: Mem, d: nat, s: nat, n: nat, a: nat)
    requires d + n <= |m| && s + n <= |m| && a < |m|
    ensures Moved(m, d, s, n)[a] == if d <= a < d + n then m[s + (a - d)] else m[a]
  {}

  /** Copying upwards in memory order: k more bytes, all read before any of
      them is written. */
  lemma ForwardStep(o: Mem, d: nat, s: nat, i: nat, k: nat, n: nat)
    requires d + n <= |o| && s + n <= |o| && i + k <= n && (d <= s || s + n <= d)
    ensures var m := Moved(o, d, s, i);
      Put(m, d + i, m[s + i..s + i + k]) == Moved(o, d, s, i + k)
  {
    var m := Moved(o, d, s, i);
    forall a | s + i <= a < s + i + k ensures m[a] == o[a] {
      MovedBytes(o, d, s, i, a);
    }
    assert m[s + i..s + i + k] == o[s + i..s + i + k];
    assert o[s..s + i] + o[s + i..s + i + k] == o[s..s + (i + k)];
    PutPut(o, d, o[s..s + i], o[s + i..s + i + k]);
  }

  /** Copying downwards: with r bytes to go, the upper ones done. */
  lemma BackwardStep(o: Mem, d: nat, s: nat, r: nat, k: nat, n: nat)
    requires d + n <= |o| && s + n <= |o| && k <= r <= n && s <= d
    ensures var m := Moved(o, d + r, s + r, n - r);
      Put(m, d + r - k, m[s + r - k..s + r]) == Moved(o, d + (r - k), s + (r - k), n - (r - k))
  {
    var m := Moved(o, d + r, s + r, n - r);
    var lo := s + r - k;
    forall a | lo <= a < s + r ensures m[a] == o[a] {
      MovedBytes(o, d + r, s + r, n - r, a);
    }
    assert m[lo..s + r] == o[lo..s + r];
    assert o[lo..s + r] + o[s + r..s + n] == o[lo..s + n];
    assert o[s + r..s + r + (n - r)] == o[s + r..s + n];
    PutBelow(o, d + r - k, o[lo..s + r], o[s + r..s + n]);
  }

  lemma PutPut(m: Mem, a: nat, v: seq<u8>, w: seq<u8>)
    requires a + |v| + |w| <= |m|
    ensures Put(Put(m, a, v), a + |v|, w) == Put(m, a, v + w)
  {
    var l, r := Put(Put(m, a, v), a + |v|, w), Put(m, a, v + w);
    assert |l| == |r|;
    forall i | 0 <= i < |m| ensures l[i] == r[i] {}
  }

  lemma PutBelow(m: Mem, a: nat, v: seq<u8>, w: seq<u8>)
    requires a + |v| + |w| <= |m|
    ensures Put(Put(m, a + |v|, w), a, v) == Put(m, a, v + w)
  {
    var l, r := Put(Put(m, a + |v|, w), a, v), Put(m, a, v + w);
    assert |l| == |r|;
    forall i | 0 <= i < |m| ensures l[i] == r[i] {}
  }

  // ---- Why the direction matters ----

  /** A copy in memory order, a byte at a time. */
  function BytesForward(m: Mem, d: nat, s: nat, n: nat): Mem
    requires d + n <= |m| && s + n <= |m|
    decreases n
  {
    if n == 0 then m else BytesForward(m[d := m[s]], d + 1, s + 1, n - 1)
  }

  lemma PutByte(m: Mem, a: nat, b: u8)
    requires a < |m|
    ensures m[a := b] == Put(m, a, [b])
  {}

  /** i of n bytes have been copied, in memory order. */
  ghost predicate Forward(o: Mem, m: Mem, dst: nat, src: nat, n: nat, i: nat) {
    && dst + n <= |o| && src + n <= |o| && (dst <= src || src + n <= dst) && i <= n
    && m == Moved(o, dst, src, i)
  }

  lemma ForwardBy(o: Mem, m: Mem, dst: nat, src: nat, n: nat, i: nat, k: nat)
    requires Forward(o, m, dst, src, n, i) && i + k <= n
    ensures Forward(o, Put(m, dst + i, m[src + i..src + i + k]), dst, src, n, i + k)
  {
    hide Put, Moved;
    ForwardStep(o, dst, src, i, k, n);
  }

  lemma StartForward(o: Mem, dst: nat, src: nat, n: nat)
    requires dst + n <= |o| && src + n <= |o| && (dst <= src || src + n <= dst)
    ensures Forward(o, o, dst, src, n, 0)
  {
    NothingYet(o, dst, src);
  }

  lemma NothingYet(o: Mem, d: nat, s: nat)
    requires d <= |o| && s <= |o|
    ensures Moved(o, d, s, 0) == o
  {}

  lemma EndForward(o: Mem, m: Mem, dst: nat, src: nat, n: nat)
    requires Forward(o, m, dst, src, n, n)
    ensures dst + n <= |o| && src + n <= |o| && m == Moved(o, dst, src, n)
  {}

  lemma {:induction false} ForwardMoves(o: Mem, m: Mem, dst: nat, src: nat, n: nat, i: nat)
    requires Forward(o, m, dst, src, n, i)
    ensures BytesForward(m, dst + i, src + i, n - i) == Moved(o, dst, src, n)
    decreases n - i
  {
    hide Put, Moved, Forward, BytesForward;
    FitsForward(o, m, dst, src, n, i);
    if i < n {
      ForwardBy(o, m, dst, src, n, i, 1);
      ForwardUnfolds(m, dst + i, src + i, n - i);
      ForwardMoves(o, Put(m, dst + i, m[src + i..src + i + 1]), dst, src, n, i + 1);
    } else {
      ForwardDone(m, dst + i, src + i);
      EndForward(o, m, dst, src, n);
    }
  }

  lemma FitsForward(o: Mem, m: Mem, dst: nat, src: nat, n: nat, i: nat)
    requires Forward(o, m, dst, src, n, i)
    ensures |m| == |o| && dst + n <= |m| && src + n <= |m| && i <= n
  {}

  lemma ForwardUnfolds(m: Mem, d: nat, s: nat, n: nat)
    requires d + n <= |m| && s + n <= |m| && n > 0
    ensures BytesForward(m, d, s, n) == BytesForward(Put(m, d, m[s..s + 1]), d + 1, s + 1, n - 1)
  {
    assert m[s..s + 1] == [m[s]];
    PutByte(m, d, m[s]);
  }

  lemma ForwardDone(m: Mem, d: nat, s: nat)
    requires d <= |m| && s <= |m|
    ensures BytesForward(m, d, s, 0) == m
  {}

  /** What is below the destination stays, and the first byte put is not
      overwritten. */
  lemma {:induction false} ForwardFrame(m: Mem, d: nat, s: nat, n: nat, a: nat)
    requires d + n <= |m| && s + n <= |m| && a < d
    ensures |BytesForward(m, d, s, n)| == |m| && BytesForward(m, d, s, n)[a] == m[a]
    decreases n
  {
    if n > 0 { ForwardFrame(m[d := m[s]], d + 1, s + 1, n - 1, a); }
  }

  /** With the destination inside the source, a forward copy repeats itself:
      each byte comes from the one d - s below it. */
  lemma {:induction false} ForwardRepeats(m: Mem, d: nat, s: nat, n: nat, k: nat)
    requires d + n <= |m| && s < d && k < n
    ensures |BytesForward(m, d, s, n)| == |m|
    ensures BytesForward(m, d, s, n)[d + k] == BytesForward(m, d, s, n)[s + k]
    decreases n
  {
    var m' := m[d := m[s]];
    if k == 0 {
      ForwardFrame(m', d + 1, s + 1, n - 1, d);
      ForwardFrame(m', d + 1, s + 1, n - 1, s);
    } else {
      ForwardRepeats(m', d + 1, s + 1, n - 1, k - 1);
    }
  }

  /** A memory in which a forward copy goes wrong: one byte set, at the
      destination. */
  lemma ForwardSpoils(size: nat, d: nat, s: nat, n: nat)
    requires d + n <= size && s + n <= size && s < d < s + n
    ensures BytesForward(Fill(0, size)[d := 1], d, s, n) != Moved(Fill(0, size)[d := 1], d, s, n)
  {
    hide BytesForward, Moved;
    var m := Fill(0, size)[d := 1];
    var k := d - s;
    ForwardRepeats(m, d, s, n, k);
    ForwardRepeats(m, d, s, n, 0);
    ForwardFrame(m, d, s, n, s);
    MovedBytes(m, d, s, n, d + k);
  }

  lemma ForwardIsMove(m: Mem, d: nat, s: nat, n: nat)
    requires d + n <= |m| && s + n <= |m| && (d <= s || s + n <= d)
    ensures BytesForward(m, d, s, n) == Moved(m, d, s, n)
  {
    hide BytesForward, Moved;
    StartForward(m, d, s, n);
    ForwardMoves(m, m, d, s, n, 0);
  }

  /** A forward copy moves the bytes whatever they are exactly when the
      destination is not inside the source, above its start. */
  lemma ForwardIsMoveIff(size: nat, d: nat, s: nat, n: nat)
    requires d + n <= size && s + n <= size
    ensures (forall m: Mem :: |m| == size ==> BytesForward(m, d, s, n) == Moved(m, d, s, n))
      <==> (d <= s || s + n <= d)
  {
    hide BytesForward, Moved;
    if d <= s || s + n <= d {
      forall m: Mem | |m| == size ensures BytesForward(m, d, s, n) == Moved(m, d, s, n) {
        ForwardIsMove(m, d, s, n);
      }
    } else {
      ForwardSpoils(size, d, s, n);
    }
  }

  // ---- Loads and stores ----

  /** A doubleword load, which must be aligned. */
  method Load8(mem: array<u8>, a: nat) returns (w: seq<u8>)
    requires a % 8 == 0 && a + 8 <= mem.Length
    ensures w == mem[a..a + 8]
  {
    w := mem[a..a + 8];
  }

  /** A doubleword store, which must be aligned. */
  method Store8(mem: array<u8>, a: nat, w: seq<u8>)
    requires a % 8 == 0 && a + 8 <= mem.Length && |w| == 8
    modifies mem
    ensures mem[..] == Put(old(mem[..]), a, w)
  {
    for j := 0 to 8
      invariant forall i :: 0 <= i < mem.Length ==> mem[i] == if a <= i < a + j then w[i - a] else old(mem[i])
    {
      mem[a + j] := w[j];
    }
    assert mem[..] == Put(old(mem[..]), a, w);
  }

  method StoreByte(mem: array<u8>, a: nat, b: u8)
    requires a < mem.Length
    modifies mem
    ensures mem[..] == Put(old(mem[..]), a, [b])
  {
    mem[a] := b;
    assert mem[..] == Put(old(mem[..]), a, [b]);
  }

  // ---- The state of a copy ----

  /** All but the lower r of n bytes have been copied, from the top. */
  ghost predicate Backward(o: Mem, m: Mem, dst: nat, src: nat, n: nat, r: nat) {
    && dst + n <= |o| && src + n <= |o| && src <= dst && r <= n
    && m == Moved(o, dst + r, src + r, n - r)
  }

  lemma BackwardBy(o: Mem, m: Mem, dst: nat, src: nat, n: nat, r: nat, k: nat)
    requires Backward(o, m, dst, src, n, r) && k <= r
    ensures Backward(o, Put(m, dst + r - k, m[src + r - k..src + r]), dst, src, n, r - k)
  {
    hide Put, Moved;
    BackwardStep(o, dst, src, r, k, n);
  }

  // ---- src/string.c ----

  /** memcpy, also called by memmove when the destination is below. */
  method Memcpy(mem: array<u8>, dst: nat, src: nat, n: nat)
    requires dst + n <= mem.Length && src + n <= mem.Length && (dst <= src || src + n <= dst)
    modifies mem
    ensures mem[..] == Moved(old(mem[..]), dst, src, n)
  {
    hide Put, Moved, Forward;
    ghost var o := mem[..];
    StartForward(o, dst, src, n);
    var d, s, left := dst, src, n;
    if d % 8 == s % 8 {
      d, s, left := HeadForward(mem, dst, src, n, d, s, left, o);
      d, s, left := WordsUp(mem, dst, src, n, d, s, left, o);
    }
    BytesUp(mem, dst, src, n, d, s, left, o);
  }

  /** Bytes up to the first aligned address. */
  method HeadForward(mem: array<u8>, ghost dst: nat, ghost src: nat, ghost n: nat, d0: nat, s0: nat, left0: nat, ghost o: Mem)
    returns (d: nat, s: nat, left: nat)
    requires dst + n <= mem.Length && src + n <= mem.Length && |o| == mem.Length
    requires left0 <= n && d0 == dst + n - left0 && s0 == src + n - left0
    requires Forward(o, mem[..], dst, src, n, n - left0) && d0 % 8 == s0 % 8
    modifies mem
    ensures left <= n && d == dst + n - left && s == src + n - left
    ensures left > 0 ==> d % 8 == 0 && s % 8 == 0
    ensures Forward(o, mem[..], dst, src, n, n - left)
  {
    hide Put, Moved, Forward;
    d, s, left := d0, s0, left0;
    while left != 0 && d % 8 != 0
      invariant 0 <= left <= n && d == dst + n - left && s == src + n - left
      invariant Forward(o, mem[..], dst, src, n, n - left)
      decreases left
    {
      CopyByte(mem, dst, src, n, d, s, n - left, o);
      d, s, left := d + 1, s + 1, left - 1;
    }
    AlignedAlike(d0, s0, d, s);
  }

  /** Two addresses that started out aligned alike stay so. */
  lemma AlignedAlike(d0: nat, s0: nat, d: nat, s: nat)
    requires d0 % 8 == s0 % 8 && d - d0 == s - s0
    ensures d % 8 == s % 8
  {}

  /** Whole words. */
  method WordsUp(mem: array<u8>, ghost dst: nat, ghost src: nat, ghost n: nat, d0: nat, s0: nat, left0: nat, ghost o: Mem)
    returns (d: nat, s: nat, left: nat)
    requires dst + n <= mem.Length && src + n <= mem.Length && |o| == mem.Length
    requires left0 <= n && d0 == dst + n - left0 && s0 == src + n - left0
    requires left0 > 0 ==> d0 % 8 == 0 && s0 % 8 == 0
    requires Forward(o, mem[..], dst, src, n, n - left0)
    modifies mem
    ensures left <= n && left < 8 && d == dst + n - left && s == src + n - left
    ensures Forward(o, mem[..], dst, src, n, n - left)
  {
    hide Put, Moved, Forward;
    d, s, left := d0, s0, left0;
    while left >= 8
      invariant 0 <= left <= n && d == dst + n - left && s == src + n - left
      invariant left > 0 ==> d % 8 == 0 && s % 8 == 0
      invariant Forward(o, mem[..], dst, src, n, n - left)
    {
      CopyWord(mem, dst, src, n, d, s, n - left, o);
      d, s, left := d + 8, s + 8, left - 8;
    }
  }

  /** What is left, byte by byte. */
  method BytesUp(mem: array<u8>, ghost dst: nat, ghost src: nat, ghost n: nat, d0: nat, s0: nat, left0: nat, ghost o: Mem)
    requires dst + n <= mem.Length && src + n <= mem.Length && |o| == mem.Length
    requires left0 <= n && d0 == dst + n - left0 && s0 == src + n - left0
    requires Forward(o, mem[..], dst, src, n, n - left0)
    modifies mem
    ensures mem[..] == Moved(o, dst, src, n)
  {
    hide Put, Moved, Forward;
    var d, s, left := d0, s0, left0;
    while left != 0
      invariant 0 <= left <= n && d == dst + n - left && s == src + n - left
      invariant Forward(o, mem[..], dst, src, n, n - left)
    {
      CopyByte(mem, dst, src, n, d, s, n - left, o);
      d, s, left := d + 1, s + 1, left - 1;
    }
    EndForward(o, mem[..], dst, src, n);
  }

  method CopyByte(mem: array<u8>, ghost dst: nat, ghost src: nat, ghost n: nat, d: nat, s: nat, ghost i: nat, ghost o: Mem)
    requires dst + n <= mem.Length && src + n <= mem.Length && i < n && d == dst + i && s == src + i
    requires Forward(o, mem[..], dst, src, n, i)
    modifies mem
    ensures Forward(o, mem[..], dst, src, n, i + 1)
  {
    hide Put, Moved, Forward;
    ForwardBy(o, mem[..], dst, src, n, i, 1);
    assert mem[..][src + i..src + i + 1] == [mem[s]];
    StoreByte(mem, d, mem[s]);
  }

  method CopyWord(mem: array<u8>, ghost dst: nat, ghost src: nat, ghost n: nat, d: nat, s: nat, ghost i: nat, ghost o: Mem)
    requires dst + n <= mem.Length && src + n <= mem.Length && i + 8 <= n && d == dst + i && s == src + i
    requires d % 8 == 0 && s % 8 == 0
    requires Forward(o, mem[..], dst, src, n, i)
    modifies mem
    ensures Forward(o, mem[..], dst, src, n, i + 8)
  {
    hide Put, Moved, Forward;
    ForwardBy(o, mem[..], dst, src, n, i, 8);
    var w := Load8(mem, s);
    assert w == mem[..][src + i..src + i + 8];
    Store8(mem, d, w);
  }

  /** memmove. */
  method Memmove(mem: array<u8>, dst: nat, src: nat, n: nat)
    requires dst + n <= mem.Length && src + n <= mem.Length
    modifies mem
    ensures mem[..] == Moved(old(mem[..]), dst, src, n)
  {
    ghost var o := mem[..];
    if dst == src || n == 0 {
      SameMove(o, dst, src, n);
      return;
    }
    if dst < src {
      Memcpy(mem, dst, src, n);
      return;
    }
    hide Put, Moved, Backward;
    StartBackward(o, dst, src, n);
    var d, s, left := dst + n, src + n, n;
    if d % 8 == s % 8 {
      d, s, left := HeadBackward(mem, dst, src, n, d, s, left, o);
      d, s, left := WordsDown(mem, dst, src, n, d, s, left, o);
    }
    BytesDown(mem, dst, src, n, d, s, left, o);
  }

  lemma SameMove(o: Mem, dst: nat, src: nat, n: nat)
    requires dst + n <= |o| && src + n <= |o| && (dst == src || n == 0)
    ensures Moved(o, dst, src, n) == o
  {}

  lemma StartBackward(o: Mem, dst: nat, src: nat, n: nat)
    requires dst + n <= |o| && src + n <= |o| && src <= dst
    ensures Backward(o, o, dst, src, n, n)
  {
    NothingYet(o, dst + n, src + n);
  }

  lemma EndBackward(o: Mem, m: Mem, dst: nat, src: nat, n: nat)
    requires Backward(o, m, dst, src, n, 0)
    ensures dst + n <= |o| && src + n <= |o| && m == Moved(o, dst, src, n)
  {}

  method HeadBackward(mem: array<u8>, ghost dst: nat, ghost src: nat, ghost n: nat, d0: nat, s0: nat, left0: nat, ghost o: Mem)
    returns (d: nat, s: nat, left: nat)
    requires dst + n <= mem.Length && src + n <= mem.Length
    requires left0 <= n && d0 == dst + left0 && s0 == src + left0
    requires Backward(o, mem[..], dst, src, n, left0) && d0 % 8 == s0 % 8
    modifies mem
    ensures left <= n && d == dst + left && s == src + left
    ensures left > 0 ==> d % 8 == 0 && s % 8 == 0
    ensures Backward(o, mem[..], dst, src, n, left)
  {
    hide Put, Moved, Backward;
    d, s, left := d0, s0, left0;
    while left != 0 && d % 8 != 0
      invariant 0 <= left <= n && d == dst + left && s == src + left
      invariant Backward(o, mem[..], dst, src, n, left)
      decreases left
    {
      CopyByteDown(mem, dst, src, n, d, s, left, o);
      d, s, left := d - 1, s - 1, left - 1;
    }
    AlignedAlike(d0, s0, d, s);
  }

  method WordsDown(mem: array<u8>, ghost dst: nat, ghost src: nat, ghost n: nat, d0: nat, s0: nat, left0: nat, ghost o: Mem)
    returns (d: nat, s: nat, left: nat)
    requires dst + n <= mem.Length && src + n <= mem.Length && |o| == mem.Length
    requires left0 <= n && d0 == dst + left0 && s0 == src + left0
    requires left0 > 0 ==> d0 % 8 == 0 && s0 % 8 == 0
    requires Backward(o, mem[..], dst, src, n, left0)
    modifies mem
    ensures left <= n && left < 8 && d == dst + left && s == src + left
    ensures Backward(o, mem[..], dst, src, n, left)
  {
    hide Put, Moved, Backward;
    d, s, left := d0, s0, left0;
    while left >= 8
      invariant 0 <= left <= n && d == dst + left && s == src + left
      invariant left > 0 ==> d % 8 == 0 && s % 8 == 0
      invariant Backward(o, mem[..], dst, src, n, left)
    {
      CopyWordDown(mem, dst, src, n, d, s, left, o);
      d, s, left := d - 8, s - 8, left - 8;
    }
  }

  method BytesDown(mem: array<u8>, ghost dst: nat, ghost src: nat, ghost n: nat, d0: nat, s0: nat, left0: nat, ghost o: Mem)
    requires dst + n <= mem.Length && src + n <= mem.Length && |o| == mem.Length
    requires left0 <= n && d0 == dst + left0 && s0 == src + left0
    requires Backward(o, mem[..], dst, src, n, left0)
    modifies mem
    ensures mem[..] == Moved(o, dst, src, n)
  {
    hide Put, Moved, Backward;
    var d, s, left := d0, s0, left0;
    while left != 0
      invariant 0 <= left <= n && d == dst + left && s == src + left
      invariant Backward(o, mem[..], dst, src, n, left)
    {
      CopyByteDown(mem, dst, src, n, d, s, left, o);
      d, s, left := d - 1, s - 1, left - 1;
    }
    EndBackward(o, mem[..], dst, src, n);
  }

  method CopyByteDown(mem: array<u8>, ghost dst: nat, ghost src: nat, ghost n: nat, d: nat, s: nat, ghost r: nat, ghost o: Mem)
    requires dst + n <= mem.Length && src + n <= mem.Length && 0 < r <= n && d == dst + r && s == src + r
    requires Backward(o, mem[..], dst, src, n, r)
    modifies mem
    ensures Backward(o, mem[..], dst, src, n, r - 1)
  {
    hide Put, Moved, Backward;
    BackwardBy(o, mem[..], dst, src, n, r, 1);
    assert mem[..][src + r - 1..src + r] == [mem[s - 1]];
    StoreByte(mem, d - 1, mem[s - 1]);
  }

  method CopyWordDown(mem: array<u8>, ghost dst: nat, ghost src: nat, ghost n: nat, d: nat, s: nat, ghost r: nat, ghost o: Mem)
    requires dst + n <= mem.Length && src + n <= mem.Length && 8 <= r <= n && d == dst + r && s == src + r
    requires d % 8 == 0 && s % 8 == 0
    requires Backward(o, mem[..], dst, src, n, r)
    modifies mem
    ensures Backward(o, mem[..], dst, src, n, r - 8)
  {
    hide Put, Moved, Backward;
    BackwardBy(o, mem[..], dst, src, n, r, 8);
    var w := Load8(mem, s - 8);
    assert w == mem[..][src + r - 8..src + r];
    Store8(mem, d - 8, w);
  }
}
