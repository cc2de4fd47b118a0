/** Fixed-width unsigned integers of the C sources, and a few facts about
    positions in circular buffers that every ring in this project uses. */
module Words {
  type u8 = x: int | 0 <= x < 0x100
  type u16 = x: int | 0 <= x < 0x1_0000
  type u32 = x: int | 0 <= x < 0x1_0000_0000
  type u64 = x: int | 0 <= x < 0x1_0000_0000_0000_0000

  datatype Option<T> = None | Some(value: T)

  function Min(a: int, b: int): int { if a < b then a else b }

  function Max(a: int, b: int): int { if a < b then b else a }

  function Pow2(e: nat): (r: nat)
    ensures r > 0
  {
    if e == 0 then 1 else 2 * Pow2(e - 1)
  }

  /** The sizes a split virtqueue may have: the powers of two below 2^16. */
  ghost predicate RingSize(n: nat) {
    0 < n < 0x1_0000 && exists e: nat :: n == Pow2(e)
  }

  /** The ring slot of the i-th element ever put in a ring of n slots: i mod n,
      by repeated subtraction so that proofs about rings stay linear. */
  function Slot(i: nat, n: nat): (r: nat)
    requires n > 0
    ensures r < n
  {
    if i < n then i else Slot(i - n, n)
  }

  lemma {:induction false} SlotIsMod(i: nat, n: nat)
    requires n > 0
    ensures Slot(i, n) == i % n
  {
    if i >= n {
      SlotIsMod(i - n, n);
      ModPlus(i - n, n);
    }
  }

  /** Two elements less than a full ring apart never share a slot. */
  lemma {:induction false} SlotsDiffer(i: nat, j: nat, n: nat)
    requires n > 0 && i < j < i + n
    ensures Slot(i, n) != Slot(j, n)
    decreases i
  {
    if i >= n {
      SlotsDiffer(i - n, j - n, n);
    } else if j >= n {
      assert Slot(j, n) == j - n;
    }
  }

  /** Going once round the ring comes back to the same slot. */
  lemma {:induction false} SlotPeriod(i: nat, k: nat, n: nat)
    requires n > 0
    ensures Slot(i + k * n, n) == Slot(i, n)
  {
    if k > 0 {
      SlotPeriod(i, k - 1, n);
      assert k * n == (k - 1) * n + n;
    }
  }

  /** A 16-bit running index selects the same slot as the unbounded count it
      truncates, for every ring whose size divides 2^16. */
  lemma WrappedSlot(i: nat, n: nat)
    requires n > 0 && 0x1_0000 % n == 0
    ensures Slot(i % 0x1_0000, n) == Slot(i, n)
  {
    var m, w, r := 0x1_0000 / n, i / 0x1_0000, i % 0x1_0000;
    assert 0x1_0000 == m * n;
    assert w * 0x1_0000 == (w * m) * n;
    SlotPeriod(r, w * m, n);
  }

  lemma RingSizeDivides(n: nat)
    requires RingSize(n)
    ensures 0x1_0000 % n == 0
  {
    var e: nat :| n == Pow2(e);
    Pow2Of16();
    Pow2Grows(16, e);
    Pow2Sum(e, 16 - e);
    ModShift(0, Pow2(16 - e), n);
  }

  lemma {:induction false} Pow2Grows(a: nat, b: nat)
    ensures a <= b ==> Pow2(a) <= Pow2(b)
  {
    if a < b {
      Pow2Grows(a, b - 1);
    }
  }

  lemma Pow2Of16()
    ensures Pow2(16) == 0x1_0000
  {
    assert Pow2(4) == 16 && Pow2(8) == 256;
    Pow2Sum(8, 8);
  }

  lemma {:induction false} Pow2Sum(a: nat, b: nat)
    ensures Pow2(a + b) == Pow2(a) * Pow2(b)
  {
    if a > 0 {
      Pow2Sum(a - 1, b);
      assert Pow2(a) * Pow2(b) == 2 * (Pow2(a - 1) * Pow2(b));
    }
  }

  lemma ModShift(r: nat, k: nat, n: nat)
    requires n > 0
    ensures (r + k * n) % n == r % n
  {
    if k > 0 {
      ModShift(r, k - 1, n);
      assert k * n == (k - 1) * n + n;
      ModPlus(r + (k - 1) * n, n);
    }
  }

  lemma ModPlus(x: nat, n: nat)
    requires n > 0
    ensures (x + n) % n == x % n
  {
    var q, r := x / n, x % n;
    assert x == q * n + r;
    assert x + n == (q + 1) * n + r;
    ModUnique(x + n, n, q + 1, r);
  }

  lemma ModUnique(x: nat, n: nat, q: nat, r: nat)
    requires n > 0 && r < n && x == q * n + r
    ensures x % n == r && x / n == q
  {
    var q', r' := x / n, x % n;
    QuotientOrder(q, r, q', r', n);
    QuotientOrder(q', r', q, r, n);
  }

  lemma QuotientOrder(q: int, r: nat, q': int, r': nat, n: nat)
    requires r < n && r' < n && q * n + r == q' * n + r'
    ensures q <= q'
  {
    if q > q' {
      assert (q - q') * n == q * n - q' * n;
      MulGrows(q - q', n);
    }
  }

  lemma MulGrows(k: int, n: nat)
    requires k >= 1
    ensures k * n >= n
  {
    assert k * n == (k - 1) * n + n;
  }

  lemma {:induction false} SlotAdd(i: nat, k: nat, n: nat)
    requires n > 0
    ensures Slot(i + k, n) == Slot(Slot(i, n) + k, n)
    decreases i
  {
    if i >= n {
      SlotAdd(i - n, k, n);
    }
  }

  lemma SmallMod(x: nat, n: nat)
    requires x < n
    ensures x % n == x
  {}

  lemma DivShrinks(a: nat, n: nat)
    requires n > 0
    ensures a / n <= a
  {
    assert a == a / n * n + a % n;
    if a / n > 0 { MulGrows(n, a / n); }
  }

  lemma DivMono(a: nat, b: nat, n: nat)
    requires n > 0 && a <= b
    ensures a / n <= b / n
  {
    var p, q := a / n, b / n;
    if p > q {
      assert (p - q) * n == p * n - q * n;
      MulGrows(p - q, n);
    }
  }

  /** A list of distinct numbers below n has at most n elements. */
  lemma {:induction false} Pigeonhole(s: seq<nat>, n: nat)
    requires forall i :: 0 <= i < |s| ==> s[i] < n
    requires forall i, j :: 0 <= i < j < |s| ==> s[i] != s[j]
    ensures |s| <= n
    decreases |s|
  {
    if |s| > 0 {
      var m := |s| - 1;
      // Relabel the value n - 1, should it occur, as the value dropped.
      var t := seq(m, i requires 0 <= i < m => if s[i] == n - 1 then s[m] else s[i]);
      Pigeonhole(t, n - 1);
    }
  }
}
