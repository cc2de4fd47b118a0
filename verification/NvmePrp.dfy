/** Physical Region Pages: setup_prp of src/nvme.c, which describes a byte
    range to the controller, and the walk by which a controller reads the
    description back (section 4.3 of NVMe Base Specification 1.4). */
module NvmePrp {
  import opened Words
  import opened Bytes

  const PAGE: nat := 4096
  const ENTRIES_PER_PAGE: nat := 512
  const LIST_PAGES: nat := 16
  const SQE_PRP1: nat := 0x18
  const SQE_PRP2: nat := 0x20

  // ------------------------------------------------ the controller's walk

  /** The addresses of `size` bytes of data: PRP1 may start inside a page, but on
      a dword; what is left is nothing, one more page at PRP2, or a list at
      PRP2. */
  function PrpWalk(m: Mem, prp1: nat, prp2: nat, size: nat): Option<seq<nat>> {
    var first := Min(size, 4096 - prp1 % 4096);
    var rest := size - first;
    if !OnDword(prp1) then None
    else if rest == 0 then Some(Range(prp1, first))
    else if rest <= 4096 then
      if prp2 % 4096 != 0 then None else Some(Range(prp1, first) + Range(prp2, rest))
    else
      match ListWalk(m, prp2, rest)
      case None => None
      case Some(tail) => Some(Range(prp1, first) + tail)
  }

  /** The walk of a PRP list from the entry at p. The last entry of a list page
      points at the next list page when more than one page of data is left. */
  function ListWalk(m: Mem, p: nat, rest: nat): Option<seq<nat>>
    decreases rest, if p % 4096 == 4096 - 8 then 1 else 0
  {
    if rest == 0 then Some([])
    else if p % 8 != 0 || p + 8 > |m| then None
    else
      var e := WordAt(m, p, 8);
      if e % 4096 != 0 then None
      else if p % 4096 == 4096 - 8 && rest > 4096 then ListWalk(m, e, rest)
      else
        var n := Min(rest, 4096);
        match ListWalk(m, p + 8, rest - n)
        case None => None
        case Some(tail) => Some(Range(e, n) + tail)
  }

  // ------------------------------------------------ the list that is written

  predicate OnDword(a: nat) { a % 4 == 0 }

  /** What a controller is to make of a description of [buf, buf+size): the
      bytes in order, or an offset it may not accept. */
  function Described(buf: nat, size: nat): Option<seq<nat>> {
    if OnDword(buf) then Some(Range(buf, size)) else None
  }

  /** Data entries a list for `rest` bytes needs. */
  function Entries(rest: nat): nat { (rest + PAGE - 1) / PAGE }

  /** Data entries written before list word v: all words but one per page. */
  function DataIndex(v: nat): int { v - v / ENTRIES_PER_PAGE }

  /** Whether word v is the pointer to the next list page. */
  predicate IsChain(v: nat, entries: nat) {
    v % ENTRIES_PER_PAGE == ENTRIES_PER_PAGE - 1 && DataIndex(v) + 1 < entries
  }

  /** What word v of the list at `list` has to hold, the data entries starting
      at page address `base`. */
  function ListWord(list: nat, base: nat, entries: nat, v: nat): nat {
    if IsChain(v, entries) then list + (v / ENTRIES_PER_PAGE + 1) * PAGE
    else base + DataIndex(v) * PAGE
  }

  ghost predicate ListWritten(m: Mem, list: nat, base: nat, entries: nat, words: nat) {
    && list + 8 * words <= |m|
    && forall v :: 0 <= v < words ==> WordAt(m, list + 8 * v, 8) == ListWord(list, base, entries, v)
  }

  /** Words, chain pointers included, of a list with that many data entries. */
  function WordsNeeded(entries: nat): nat {
    if entries <= ENTRIES_PER_PAGE then entries else ENTRIES_PER_PAGE + WordsNeeded(entries - 511)
  }

  lemma {:induction false} WordsNeededClosed(entries: nat)
    ensures entries > 0 ==> DataIndex(WordsNeeded(entries) - 1) == entries - 1
    ensures entries > 0 ==> !IsChain(WordsNeeded(entries) - 1, entries)
    ensures WordsNeeded(entries) >= entries
    ensures entries > 1 ==> (WordsNeeded(entries) - 1) % ENTRIES_PER_PAGE != 0
  {
    if entries > ENTRIES_PER_PAGE {
      WordsNeededClosed(entries - 511);
    }
  }

  /** A list stays inside its 16 pages exactly when it has at most 8177 data
      entries. */
  lemma ListFitsIff(entries: nat)
    ensures 8 * WordsNeeded(entries) <= 16 * 4096 <==> entries <= 8177
  {
    if entries > 0 {
      WordsNeededClosed(entries);
    }
  }

  lemma WordPosition(list: nat, v: nat)
    requires list % PAGE == 0
    ensures (list + 8 * v) % 8 == 0
    ensures (list + 8 * v) % PAGE == PAGE - 8 <==> v % ENTRIES_PER_PAGE == ENTRIES_PER_PAGE - 1
  {
    var l, q, r := list / PAGE, v / ENTRIES_PER_PAGE, v % ENTRIES_PER_PAGE;
    assert list + 8 * v == (l + q) * PAGE + 8 * r;
    ModUnique(list + 8 * v, PAGE, l + q, 8 * r);
    ModUnique(list + 8 * v, 8, l * 512 + v, 0);
  }

  lemma ChainWord(list: nat, base: nat, entries: nat, v: nat)
    requires list % PAGE == 0 && IsChain(v, entries)
    ensures ListWord(list, base, entries, v) == list + 8 * (v + 1)
    ensures ListWord(list, base, entries, v) % PAGE == 0
    ensures DataIndex(v + 1) == DataIndex(v)
  {}

  lemma DataWord(list: nat, base: nat, entries: nat, v: nat)
    requires base % PAGE == 0 && !IsChain(v, entries)
    ensures ListWord(list, base, entries, v) == base + DataIndex(v) * PAGE
    ensures ListWord(list, base, entries, v) % PAGE == 0
    ensures DataIndex(v) + 1 < entries ==> DataIndex(v + 1) == DataIndex(v) + 1
  {}

  /** Walking a list so written finds the pages it was written for. */
  lemma {:induction false} ListWalkReads(m: Mem, list: nat, base: nat, total: nat, v: nat)
    requires list % PAGE == 0 && base % PAGE == 0
    requires ListWritten(m, list, base, Entries(total), WordsNeeded(Entries(total)))
    requires DataIndex(v) * PAGE < total && v < WordsNeeded(Entries(total))
    ensures ListWalk(m, list + 8 * v, total - DataIndex(v) * PAGE)
         == Some(Range(base + DataIndex(v) * PAGE, total - DataIndex(v) * PAGE))
    decreases WordsNeeded(Entries(total)) - v
  {
    hide WordsNeeded, IsChain, ListWord, DataIndex;
    var entries, words, i := Entries(total), WordsNeeded(Entries(total)), DataIndex(v);
    var rest := total - i * PAGE;
    var p := list + 8 * v;
    assert WordAt(m, p, 8) == ListWord(list, base, entries, v);
    WordPosition(list, v);
    assert rest > PAGE <==> i + 1 < entries;
    IsChainHere(v, entries);
    if i + 1 < entries {
      BeforeLast(v, entries);
    }
    if IsChain(v, entries) {
      ChainWord(list, base, entries, v);
      ListWalkReads(m, list, base, total, v + 1);
    } else {
      DataWord(list, base, entries, v);
      if rest > PAGE {
        ListWalkReads(m, list, base, total, v + 1);
        RangeJoins(base + i * PAGE, PAGE, rest - PAGE);
      } else {
        assert ListWalk(m, p + 8, 0) == Some([]);
        assert Range(base + i * PAGE, rest) + [] == Range(base + i * PAGE, rest);
      }
    }
  }

  lemma IsChainHere(v: nat, entries: nat)
    ensures IsChain(v, entries) <==>
      v % ENTRIES_PER_PAGE == ENTRIES_PER_PAGE - 1 && DataIndex(v) + 1 < entries
  {}

  lemma BeforeLast(v: nat, entries: nat)
    requires v < WordsNeeded(entries) && DataIndex(v) + 1 < entries
    ensures v + 1 < WordsNeeded(entries)
  {
    WordsNeededClosed(entries);
  }

  // ------------------------------------------------ setup_prp

  const MAX_SINGLE_TRANSFER: nat := 8178 * PAGE

  /** Bytes of the transfer that PRP1 covers, and how many are left. */
  function FirstChunk(buf: nat): nat { PAGE - buf % PAGE }

  /** List words setup_prp writes for a transfer. */
  function ListWords(buf: nat, size: nat): nat {
    if size <= FirstChunk(buf) + PAGE then 0 else WordsNeeded(Entries(size - FirstChunk(buf)))
  }

  lemma WordAdded(m: Mem, m': Mem, list: nat, base: nat, entries: nat, w: nat)
    requires ListWritten(m, list, base, entries, w) && list + 8 * (w + 1) <= |m|
    requires SameOutside(m, m', list + 8 * w, list + 8 * w + 8)
    requires WordAt(m', list + 8 * w, 8) == ListWord(list, base, entries, w)
    ensures ListWritten(m', list, base, entries, w + 1)
  {
    hide ListWord, WordAt;
    forall v | 0 <= v < w ensures WordAt(m', list + 8 * v, 8) == WordAt(m, list + 8 * v, 8) {
      SameWord(m, m', list + 8 * w, list + 8 * w + 8, list + 8 * v, 8);
    }
  }

  lemma OutsideJoins(m0: Mem, m1: Mem, m2: Mem, lo: int, mid: int, hi: int)
    requires SameOutside(m0, m1, lo, mid) && SameOutside(m1, m2, mid, hi) && lo <= mid <= hi
    ensures SameOutside(m0, m2, lo, hi)
  {}

  lemma WordOfPosition(page: nat, slot: nat, i: nat, entries: nat)
    requires slot < ENTRIES_PER_PAGE && i == DataIndex(page * ENTRIES_PER_PAGE + slot)
    ensures IsChain(page * ENTRIES_PER_PAGE + slot, entries) <==>
      slot == ENTRIES_PER_PAGE - 1 && i + 1 < entries
    ensures (page * ENTRIES_PER_PAGE + slot) / ENTRIES_PER_PAGE == page
  {}

  lemma LastWord(v: nat, entries: nat)
    requires v < WordsNeeded(entries) && DataIndex(v) + 1 >= entries
    ensures v + 1 == WordsNeeded(entries)
  {
    WordsNeededClosed(entries);
  }

  /** Where the first page of data after PRP1's chunk starts. */
  function NextPage(buf: nat): (r: nat)
    ensures r % PAGE == 0 && r == buf + FirstChunk(buf)
  {
    (buf + FirstChunk(buf)) - (buf + FirstChunk(buf)) % PAGE
  }

  lemma OneChunk(m: Mem, buf: nat, prp2: nat, size: nat)
    requires size <= FirstChunk(buf)
    ensures PrpWalk(m, buf, prp2, size) == Described(buf, size)
  {}

  lemma TwoPages(m: Mem, buf: nat, size: nat)
    requires FirstChunk(buf) < size <= FirstChunk(buf) + PAGE
    ensures PrpWalk(m, buf, NextPage(buf), size) == Described(buf, size)
  {
    RangeJoins(buf, FirstChunk(buf), size - FirstChunk(buf));
  }

  lemma ManyPages(m: Mem, buf: nat, list: nat, size: nat)
    requires size > FirstChunk(buf) + PAGE && list % PAGE == 0
    requires var e := Entries(size - FirstChunk(buf)); ListWritten(m, list, NextPage(buf), e, WordsNeeded(e))
    ensures PrpWalk(m, buf, list, size) == Described(buf, size)
  {
    hide ListWritten;
    var rest := size - FirstChunk(buf);
    WordsNeededClosed(Entries(rest));
    IndexZero();
    ListWalkReads(m, list, NextPage(buf), rest, 0);
    RangeJoins(buf, FirstChunk(buf), rest);
  }

  /** The PRP2 value and the list that describe a transfer of `size` bytes at
      `buf`, with the list, if one is needed, at `list`. */
  ghost predicate PrpReady(m: Mem, list: nat, buf: nat, size: nat, prp2: nat) {
    if size <= FirstChunk(buf) then prp2 == 0
    else if size <= FirstChunk(buf) + PAGE then prp2 == NextPage(buf)
    else
      var e := Entries(size - FirstChunk(buf));
      prp2 == list && ListWritten(m, list, NextPage(buf), e, WordsNeeded(e))
  }

  lemma ReadyWalks(m: Mem, list: nat, buf: nat, size: nat, prp2: nat)
    requires PrpReady(m, list, buf, size, prp2) && list % PAGE == 0
    ensures PrpWalk(m, buf, prp2, size) == Described(buf, size)
  {
    hide PrpWalk, ListWritten;
    if size <= FirstChunk(buf) {
      OneChunk(m, buf, prp2, size);
    } else if size <= FirstChunk(buf) + PAGE {
      TwoPages(m, buf, size);
    } else {
      ManyPages(m, buf, list, size);
    }
  }

  lemma ReadySurvives(m: Mem, m': Mem, list: nat, buf: nat, size: nat, prp2: nat)
    requires PrpReady(m, list, buf, size, prp2)
    requires |m'| == |m| && forall a :: list <= a < |m| ==> m'[a] == m[a]
    ensures PrpReady(m', list, buf, size, prp2)
  {
    hide ListWritten;
    if size > FirstChunk(buf) + PAGE {
      var e := Entries(size - FirstChunk(buf));
      ListSurvives(m, m', list, NextPage(buf), e, WordsNeeded(e));
    }
  }

  /** m' differs from m only in two regions. */
  ghost predicate SameOutsideTwo(m: Mem, m': Mem, lo1: int, hi1: int, lo2: int, hi2: int) {
    && |m'| == |m|
    && forall a :: 0 <= a < |m| && !(lo1 <= a < hi1) && !(lo2 <= a < hi2) ==> m'[a] == m[a]
  }

  /** After setup_prp the two PRP fields of the entry at `sqe`, read by the
      rules of the standard, name exactly the bytes [buf, buf+size) in order, if
      and only if buf is on a dword; otherwise the offset is one the standard
      does not allow. Nothing is written but those fields and the list. */
  method SetupPrp(m: array<u8>, list: nat, sqe: nat, buf: u64, size: u32)
    requires size <= MAX_SINGLE_TRANSFER && list % PAGE == 0
    requires buf + size <= m.Length <= 0x1_0000_0000_0000_0000
    requires sqe + 64 <= list && list + 8 * ListWords(buf, size) <= m.Length
    requires list + 2 * LIST_PAGES * PAGE <= 0x1_0000_0000_0000_0000
    requires list <= m.Length
    modifies m
    ensures WordAt(m[..], sqe + 0x18, 8) == buf
    ensures PrpReady(m[..], list, buf, size, WordAt(m[..], sqe + 0x20, 8))
    ensures PrpWalk(m[..], buf, WordAt(m[..], sqe + 0x20, 8), size) == Some(Range(buf, size)) <==> OnDword(buf)
    ensures PrpWalk(m[..], buf, WordAt(m[..], sqe + 0x20, 8), size) == Described(buf, size)
    ensures SameOutsideTwo(old(m[..]), m[..], sqe + 0x18, sqe + 0x20 + 8, list, list + 8 * ListWords(buf, size))
  {
    hide PrpWalk, ListWalk, WordAt, ListWritten, WordsNeeded;
    Pow256Values();
    var pageOff := buf % PAGE;
    var firstChunk := PAGE - pageOff;
    StoreLe(m, sqe + SQE_PRP1, buf, 8);
    ghost var m1 := m[..];
    if size <= firstChunk {
      StoreLe(m, sqe + SQE_PRP2, 0, 8);
      SameWord(m1, m[..], sqe + SQE_PRP2, sqe + SQE_PRP2 + 8, sqe + SQE_PRP1, 8);
      ReadyWalks(m[..], list, buf, size, 0);
      return;
    }
    var listBase := NextPage(buf);
    if size <= firstChunk + PAGE {
      StoreLe(m, sqe + SQE_PRP2, listBase, 8);
      SameWord(m1, m[..], sqe + SQE_PRP2, sqe + SQE_PRP2 + 8, sqe + SQE_PRP1, 8);
      ReadyWalks(m[..], list, buf, size, listBase);
      return;
    }
    var remaining := size - firstChunk;
    WriteList(m, list, listBase, remaining);
    ghost var m2 := m[..];
    StoreLe(m, sqe + SQE_PRP2, list, 8);
    SameWord(m1, m2, list, m.Length, sqe + SQE_PRP1, 8);
    SameWord(m2, m[..], sqe + SQE_PRP2, sqe + SQE_PRP2 + 8, sqe + SQE_PRP1, 8);
    ListSurvives(m2, m[..], list, listBase, Entries(remaining), WordsNeeded(Entries(remaining)));
    ReadyWalks(m[..], list, buf, size, list);
  }

  lemma ListSurvives(m: Mem, m': Mem, list: nat, base: nat, entries: nat, words: nat)
    requires ListWritten(m, list, base, entries, words)
    requires |m'| == |m| && forall a :: list <= a < |m| ==> m'[a] == m[a]
    ensures ListWritten(m', list, base, entries, words)
  {
    hide ListWord, WordAt;
    forall v | 0 <= v < words ensures WordAt(m', list + 8 * v, 8) == WordAt(m, list + 8 * v, 8) {
      SameWord(m, m', 0, list, list + 8 * v, 8);
    }
  }

  /** The loop of setup_prp that fills the list page by page. */
  method WriteList(m: array<u8>, list: nat, listBase: nat, remaining: nat)
    requires 0 < remaining <= MAX_SINGLE_TRANSFER
    requires listBase + remaining <= m.Length <= 0x1_0000_0000_0000_0000
    requires list + 8 * WordsNeeded(Entries(remaining)) <= m.Length
    requires list + 2 * LIST_PAGES * PAGE <= 0x1_0000_0000_0000_0000
    modifies m
    ensures ListWritten(m[..], list, listBase, Entries(remaining), WordsNeeded(Entries(remaining)))
    ensures SameOutside(old(m[..]), m[..], list, list + 8 * WordsNeeded(Entries(remaining)))
  {
    hide WordsNeeded, IsChain, DataIndex;
    Pow256Values();
    var entries := (remaining + PAGE - 1) / PAGE;
    var page, slot, i := 0, 0, 0;
    IndexZero();
    WordsNeededClosed(entries);
    while i < entries
      invariant slot <= ENTRIES_PER_PAGE && (i < entries ==> slot < ENTRIES_PER_PAGE)
      invariant 0 <= i <= entries
      invariant i < entries ==> i == DataIndex(page * ENTRIES_PER_PAGE + slot)
      invariant i < entries ==> page * ENTRIES_PER_PAGE + slot < WordsNeeded(entries)
      invariant i == entries ==> page * ENTRIES_PER_PAGE + slot == WordsNeeded(entries)
      invariant ListWritten(m[..], list, listBase, entries, page * ENTRIES_PER_PAGE + slot)
      invariant SameOutside(old(m[..]), m[..], list, list + 8 * (page * ENTRIES_PER_PAGE + slot))
      decreases WordsNeeded(entries) - (page * ENTRIES_PER_PAGE + slot)
    {
      ghost var w, before := page * ENTRIES_PER_PAGE + slot, m[..];
      var off := page * PAGE + slot * 8;
      var lastSlot := slot == ENTRIES_PER_PAGE - 1;
      var moreAfterThis := i + 1 < entries;
      WordOfPosition(page, slot, i, entries);
      if lastSlot && moreAfterThis {
        BeforeLast(w, entries);
        StoreLe(m, list + off, list + (page + 1) * PAGE, 8);
        page := page + 1;
        slot := 0;
      } else {
        if moreAfterThis { BeforeLast(w, entries); } else { LastWord(w, entries); }
        StoreLe(m, list + off, listBase + i * PAGE, 8);
        slot := slot + 1;
        i := i + 1;
      }
      NextIndex(w, entries);
      WordAdded(before, m[..], list, listBase, entries, w);
      OutsideJoins(old(m[..]), before, m[..], list, list + 8 * w, list + 8 * w + 8);
    }
  }

  lemma IndexZero()
    ensures DataIndex(0) == 0
  {}

  lemma NextIndex(v: nat, entries: nat)
    ensures IsChain(v, entries) ==> DataIndex(v + 1) == DataIndex(v)
    ensures !IsChain(v, entries) && DataIndex(v) + 1 < entries ==> DataIndex(v + 1) == DataIndex(v) + 1
  {}
}
