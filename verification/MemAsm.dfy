/** The unrolled forms of src/string_asm.S, and memset in both forms. */
module MemAsm {
  import opened Words
  import opened Bits
  import opened Bytes
  import opened MemMove

  // ---- Four registers at a time ----

  /** Four stores, upwards. */
  method Store32(mem: array<u8>, a: nat, t2: seq<u8>, t3: seq<u8>, t4: seq<u8>, t5: seq<u8>)
    requires a % 8 == 0 && a + 32 <= mem.Length && |t2| == |t3| == |t4| == |t5| == 8
    modifies mem
    ensures mem[..] == Put(old(mem[..]), a, t2 + t3 + t4 + t5)
  {
    hide Put;
    ghost var m := mem[..];
    Store8(mem, a, t2);
    Store8(mem, a + 8, t3);
    Store8(mem, a + 16, t4);
    Store8(mem, a + 24, t5);
    PutPut(m, a, t2, t3);
    PutPut(m, a, t2 + t3, t4);
    PutPut(m, a, t2 + t3 + t4, t5);
  }

  /** Four stores, downwards. */
  method Store32Down(mem: array<u8>, a: nat, t2: seq<u8>, t3: seq<u8>, t4: seq<u8>, t5: seq<u8>)
    requires a % 8 == 0 && a + 32 <= mem.Length && |t2| == |t3| == |t4| == |t5| == 8
    modifies mem
    ensures mem[..] == Put(old(mem[..]), a, t5 + (t4 + (t3 + t2)))
  {
    hide Put;
    ghost var m := mem[..];
    Store8(mem, a + 24, t2);
    Store8(mem, a + 16, t3);
    Store8(mem, a + 8, t4);
    Store8(mem, a, t5);
    PutBelow(m, a + 16, t3, t2);
    PutBelow(m, a + 8, t4, t3 + t2);
    PutBelow(m, a, t5, t4 + (t3 + t2));
  }

  lemma Quarters(m: Mem, a: nat)
    requires a + 32 <= |m|
    ensures m[a..a + 8] + m[a + 8..a + 16] + m[a + 16..a + 24] + m[a + 24..a + 32] == m[a..a + 32]
    ensures m[a..a + 8] + (m[a + 8..a + 16] + (m[a + 16..a + 24] + m[a + 24..a + 32])) == m[a..a + 32]
  {}

  /** All four loads come before the first store. */
  method CopyBlock(mem: array<u8>, ghost dst: nat, ghost src: nat, ghost n: nat, d: nat, s: nat, ghost i: nat, ghost o: Mem)
    requires dst + n <= mem.Length && src + n <= mem.Length && i + 32 <= n && d == dst + i && s == src + i
    requires d % 8 == 0 && s % 8 == 0
    requires Forward(o, mem[..], dst, src, n, i)
    modifies mem
    ensures Forward(o, mem[..], dst, src, n, i + 32)
  {
    hide Put, Moved, Forward;
    ghost var m := mem[..];
    ForwardBy(o, m, dst, src, n, i, 32);
    Quarters(m, s);
    var t2 := Load8(mem, s);
    var t3 := Load8(mem, s + 8);
    var t4 := Load8(mem, s + 16);
    var t5 := Load8(mem, s + 24);
    assert t2 == m[s..s + 8] && t3 == m[s + 8..s + 16] && t4 == m[s + 16..s + 24] && t5 == m[s + 24..s + 32];
    Store32(mem, d, t2, t3, t4, t5);
  }

  method CopyBlockDown(mem: array<u8>, ghost dst: nat, ghost src: nat, ghost n: nat, d: nat, s: nat, ghost r: nat, ghost o: Mem)
    requires dst + n <= mem.Length && src + n <= mem.Length && 32 <= r <= n && d == dst + (r - 32) && s == src + (r - 32)
    requires d % 8 == 0 && s % 8 == 0
    requires Backward(o, mem[..], dst, src, n, r)
    modifies mem
    ensures Backward(o, mem[..], dst, src, n, r - 32)
  {
    hide Put, Moved, Backward;
    ghost var m := mem[..];
    BackwardBy(o, m, dst, src, n, r, 32);
    Quarters(m, s);
    var t2 := Load8(mem, s + 24);
    var t3 := Load8(mem, s + 16);
    var t4 := Load8(mem, s + 8);
    var t5 := Load8(mem, s);
    assert t5 == m[s..s + 8] && t4 == m[s + 8..s + 16] && t3 == m[s + 16..s + 24] && t2 == m[s + 24..s + 32];
    assert s == src + r - 32 && d == dst + r - 32;
    Store32Down(mem, d, t2, t3, t4, t5);
  }

  // ---- memcpy and memmove ----

  method BlocksUp(mem: array<u8>, ghost dst: nat, ghost src: nat, ghost n: nat, d0: nat, s0: nat, left0: nat, ghost o: Mem)
    returns (d: nat, s: nat, left: nat)
    requires dst + n <= mem.Length && src + n <= mem.Length && |o| == mem.Length
    requires left0 <= n && d0 == dst + n - left0 && s0 == src + n - left0
    requires left0 > 0 ==> d0 % 8 == 0 && s0 % 8 == 0
    requires Forward(o, mem[..], dst, src, n, n - left0)
    modifies mem
    ensures left <= n && left < 32 && d == dst + n - left && s == src + n - left
    ensures left > 0 ==> d % 8 == 0 && s % 8 == 0
    ensures Forward(o, mem[..], dst, src, n, n - left)
  {
    hide Put, Moved, Forward;
    d, s, left := d0, s0, left0;
    while left >= 32
      invariant 0 <= left <= n && d == dst + n - left && s == src + n - left
      invariant left > 0 ==> d % 8 == 0 && s % 8 == 0
      invariant Forward(o, mem[..], dst, src, n, n - left)
    {
      CopyBlock(mem, dst, src, n, d, s, n - left, o);
      s, d, left := s + 32, d + 32, left - 32;
    }
  }

  method BlocksDown(mem: array<u8>, ghost dst: nat, ghost src: nat, ghost n: nat, d0: nat, s0: nat, left0: nat, ghost o: Mem)
    returns (d: nat, s: nat, left: nat)
    requires dst + n <= mem.Length && src + n <= mem.Length && |o| == mem.Length
    requires left0 <= n && d0 == dst + left0 && s0 == src + left0
    requires left0 > 0 ==> d0 % 8 == 0 && s0 % 8 == 0
    requires Backward(o, mem[..], dst, src, n, left0)
    modifies mem
    ensures left <= n && left < 32 && d == dst + left && s == src + left
    ensures left > 0 ==> d % 8 == 0 && s % 8 == 0
    ensures Backward(o, mem[..], dst, src, n, left)
  {
    hide Put, Moved, Backward;
    d, s, left := d0, s0, left0;
    while left >= 32
      invariant 0 <= left <= n && d == dst + left && s == src + left
      invariant left > 0 ==> d % 8 == 0 && s % 8 == 0
      invariant Backward(o, mem[..], dst, src, n, left)
    {
      s, d := s - 32, d - 32;
      CopyBlockDown(mem, dst, src, n, d, s, left, o);
      left := left - 32;
    }
  }

  /** memcpy, unrolled. */
  method Memcpy(mem: array<u8>, dst: nat, src: nat, n: nat)
    requires dst + n <= mem.Length && src + n <= mem.Length && (dst <= src || src + n <= dst)
    modifies mem
    ensures mem[..] == Moved(old(mem[..]), dst, src, n)
  {
    hide Put, Moved, Forward;
    ghost var o := mem[..];
    StartForward(o, dst, src, n);
    var d, s, left := dst, src, n;
    if d % 8 == s % 8 {
      d, s, left := HeadForward(mem, dst, src, n, d, s, left, o);
      d, s, left := BlocksUp(mem, dst, src, n, d, s, left, o);
      d, s, left := WordsUp(mem, dst, src, n, d, s, left, o);
    }
    BytesUp(mem, dst, src, n, d, s, left, o);
  }

  /** memmove, unrolled. */
  method Memmove(mem: array<u8>, dst: nat, src: nat, n: nat)
    requires dst + n <= mem.Length && src + n <= mem.Length
    modifies mem
    ensures mem[..] == Moved(old(mem[..]), dst, src, n)
  {
    ghost var o := mem[..];
    if dst == src || n == 0 {
      SameMove(o, dst, src, n);
      return;
    }
    if dst < src {
      Memcpy(mem, dst, src, n);
      return;
    }
    hide Put, Moved, Backward;
    StartBackward(o, dst, src, n);
    var d, s, left := dst + n, src + n, n;
    if d % 8 == s % 8 {
      d, s, left := HeadBackward(mem, dst, src, n, d, s, left, o);
      d, s, left := BlocksDown(mem, dst, src, n, d, s, left, o);
      d, s, left := WordsDown(mem, dst, src, n, d, s, left, o);
    }
    BytesDown(mem, dst, src, n, d, s, left, o);
  }

  // ---- memset ----

  const ONES: nat := 0x0101_0101_0101_0101

  /** A byte in all eight lanes, by the product of src/string.c. */
  lemma SplatByProduct(b: u8)
    ensures Le(b * ONES, 8) == Fill(b, 8)
  {
    assert Ones(8) == ONES;
    Lanes(b, 8);
  }

  function Ones(k: nat): nat { if k == 0 then 0 else Ones(k - 1) * 0x100 + 1 }

  lemma {:induction false} Lanes(b: u8, k: nat)
    ensures Le(b * Ones(k), k) == Fill(b, k)
  {
    if k > 0 {
      Lanes(b, k - 1);
      assert b * Ones(k) == b * Ones(k - 1) * 0x100 + b;
      Lane(b, b * Ones(k - 1), k);
      assert Fill(b, k) == [b] + Fill(b, k - 1);
    }
  }

  lemma Lane(b: u8, rest: nat, k: nat)
    requires k > 0
    ensures Le(rest * 0x100 + b, k) == [b] + Le(rest, k - 1)
  {
    ModUnique(rest * 0x100 + b, 0x100, rest, b);
  }

  /** The same by the shifts and ors of src/string_asm.S. */
  function Splat(c: u8): nat {
    var t := Or(c * 0x100, c);
    var t := Or(t * 0x1_0000, t);
    Or(t * 0x1_0000_0000, t)
  }

  lemma Powers()
    ensures Pow2(8) == 0x100 && Pow2(16) == 0x1_0000 && Pow2(32) == 0x1_0000_0000
  {
    Pow2Sum(8, 8);
    Pow2Sum(16, 16);
  }

  lemma SplatIsProduct(c: u8)
    ensures Splat(c) == c * ONES
  {
    hide Or, Pow2;
    Powers();
    OrField(c, 8, 0x100, c);
    OrField(c * 0x101, 16, 0x1_0000, c * 0x101);
    OrField(c * 0x0101_0101, 32, 0x1_0000_0000, c * 0x0101_0101);
  }

  /** i bytes have been set. */
  ghost predicate Set(o: Mem, m: Mem, dst: nat, b: u8, i: nat) {
    dst + i <= |o| && m == Put(o, dst, Fill(b, i))
  }

  lemma SetMore(o: Mem, m: Mem, dst: nat, b: u8, i: nat, k: nat)
    requires Set(o, m, dst, b, i) && dst + i + k <= |o|
    ensures Set(o, Put(m, dst + i, Fill(b, k)), dst, b, i + k)
  {
    hide Put;
    PutPut(o, dst, Fill(b, i), Fill(b, k));
    assert Fill(b, i) + Fill(b, k) == Fill(b, i + k);
  }

  lemma SetNone(o: Mem, dst: nat, b: u8)
    requires dst <= |o|
    ensures Set(o, o, dst, b, 0)
  {}

  method SetBytes(mem: array<u8>, d0: nat, left0: nat, b: u8, toAligned: bool, ghost dst: nat, ghost n: nat, ghost o: Mem)
    returns (d: nat, left: nat)
    requires dst + n <= mem.Length == |o| && left0 <= n && d0 == dst + n - left0
    requires Set(o, mem[..], dst, b, n - left0)
    modifies mem
    ensures left <= n && d == dst + n - left && Set(o, mem[..], dst, b, n - left)
    ensures left == 0 || (toAligned && d % 8 == 0)
  {
    hide Put, Set;
    d, left := d0, left0;
    while left != 0 && !(toAligned && d % 8 == 0)
      invariant 0 <= left <= n && d == dst + n - left && Set(o, mem[..], dst, b, n - left)
      decreases left
    {
      SetMore(o, mem[..], dst, b, n - left, 1);
      assert Fill(b, 1) == [b];
      StoreByte(mem, d, b);
      d, left := d + 1, left - 1;
    }
  }

  method SetWords(mem: array<u8>, d0: nat, left0: nat, w: nat, ghost b: u8, ghost dst: nat, ghost n: nat, ghost o: Mem)
    returns (d: nat, left: nat)
    requires dst + n <= mem.Length == |o| && left0 <= n && d0 == dst + n - left0 && (left0 > 0 ==> d0 % 8 == 0)
    requires w == b * ONES && Set(o, mem[..], dst, b, n - left0)
    modifies mem
    ensures left <= n && d == dst + n - left && Set(o, mem[..], dst, b, n - left)
  {
    hide Put, Set, Le;
    SplatByProduct(b);
    d, left := d0, left0;
    while left >= 8
      invariant 0 <= left <= n && d == dst + n - left && (left > 0 ==> d % 8 == 0) && Set(o, mem[..], dst, b, n - left)
    {
      SetMore(o, mem[..], dst, b, n - left, 8);
      Store8(mem, d, Le(w, 8));
      d, left := d + 8, left - 8;
    }
  }

  lemma FourFills(b: u8)
    ensures Fill(b, 8) + Fill(b, 8) + Fill(b, 8) + Fill(b, 8) == Fill(b, 32)
  {}

  method SetBlocks(mem: array<u8>, d0: nat, left0: nat, w: nat, ghost b: u8, ghost dst: nat, ghost n: nat, ghost o: Mem)
    returns (d: nat, left: nat)
    requires dst + n <= mem.Length == |o| && left0 <= n && d0 == dst + n - left0 && (left0 > 0 ==> d0 % 8 == 0)
    requires w == b * ONES && Set(o, mem[..], dst, b, n - left0)
    modifies mem
    ensures left <= n && d == dst + n - left && (left > 0 ==> d % 8 == 0) && Set(o, mem[..], dst, b, n - left)
  {
    hide Put, Set, Le, Fill;
    SplatByProduct(b);
    d, left := d0, left0;
    var t := Le(w, 8);
    FourFills(b);
    while left >= 32
      invariant 0 <= left <= n && d == dst + n - left && (left > 0 ==> d % 8 == 0) && Set(o, mem[..], dst, b, n - left)
    {
      SetMore(o, mem[..], dst, b, n - left, 32);
      Store32(mem, d, t, t, t, t);
      d, left := d + 32, left - 32;
    }
  }

  /** memset of src/string.c: the byte is the low one of c. */
  method Memset(mem: array<u8>, dst: nat, c: int, n: nat)
    requires dst + n <= mem.Length
    modifies mem
    ensures mem[..] == Put(old(mem[..]), dst, Fill(c % 0x100, n))
  {
    hide Put;
    ghost var o := mem[..];
    var b := c % 0x100;
    SetNone(o, dst, b);
    var d, left := SetBytes(mem, dst, n, b, true, dst, n, o);
    d, left := SetWords(mem, d, left, b * ONES, b, dst, n, o);
    d, left := SetBytes(mem, d, left, b, false, dst, n, o);
  }

  /** memset of src/string_asm.S. */
  method MemsetUnrolled(mem: array<u8>, dst: nat, c: int, n: nat)
    requires dst + n <= mem.Length
    modifies mem
    ensures mem[..] == Put(old(mem[..]), dst, Fill(c % 0x100, n))
  {
    hide Put, Splat;
    ghost var o := mem[..];
    var b := c % 0x100;
    var w := Splat(b);
    SplatIsProduct(b);
    SetNone(o, dst, b);
    var d, left := SetBytes(mem, dst, n, b, true, dst, n, o);
    d, left := SetBlocks(mem, d, left, w, b, dst, n, o);
    d, left := SetWords(mem, d, left, w, b, dst, n, o);
    d, left := SetBytes(mem, d, left, b, false, dst, n, o);
  }
}
