/** The 64-byte submission entry: what io_cmd of src/nvme.c writes, what a
    controller reads back and does with it (sections 4.2 and 6 of NVMe 1.4). */
module NvmeCommand {
  import opened Words
  import opened Bytes
  import opened NvmePrp

  const IO_FLUSH: u8 := 0
  const IO_WRITE: u8 := 1
  const IO_READ: u8 := 2
  const NSID: u32 := 1
  const LBA_SIZE: nat := 512
  const SQE_CID: nat := 0x02
  const SQE_NSID: nat := 0x04
  const SQE_CDW10: nat := 0x28
  const SQE_CDW11: nat := 0x2C
  const SQE_CDW12: nat := 0x30

  /** A command as the controller decodes it; `blocks` undoes the zero base of
      the NLB field. */
  datatype Command = Command(opcode: nat, cid: nat, nsid: nat, prp1: nat, prp2: nat, slba: nat, blocks: nat)

  function Decode(m: Mem, sqe: nat): (c: Command)
    ensures 0 < c.blocks <= 0x1_0000 && c.cid < 0x1_0000
  {
    FromLeBound(if sqe + SQE_CID + 2 <= |m| then m[sqe + SQE_CID..sqe + SQE_CID + 2] else []);
    Pow256Values();
    Command(WordAt(m, sqe, 1), WordAt(m, sqe + SQE_CID, 2), WordAt(m, sqe + SQE_NSID, 4),
            WordAt(m, sqe + SQE_PRP1, 8), WordAt(m, sqe + SQE_PRP2, 8),
            WordAt(m, sqe + SQE_CDW10, 4) + 0x1_0000_0000 * WordAt(m, sqe + SQE_CDW11, 4),
            WordAt(m, sqe + SQE_CDW12, 4) % 0x1_0000 + 1)
  }

  /** The entry as the standard lays it out. */
  lemma DecodeLayout(m: Mem, sqe: nat)
    requires sqe + 64 <= |m|
    ensures var c := Decode(m, sqe);
      && c.opcode == m[sqe] && c.cid == WordAt(m, sqe + 0x02, 2) && c.nsid == WordAt(m, sqe + 0x04, 4)
      && c.prp1 == WordAt(m, sqe + 0x18, 8) && c.prp2 == WordAt(m, sqe + 0x20, 8)
      && c.slba == WordAt(m, sqe + 0x28, 4) + 0x1_0000_0000 * WordAt(m, sqe + 0x2C, 4)
      && c.blocks == WordAt(m, sqe + 0x30, 4) % 0x1_0000 + 1
  {
    hide WordAt;
    WordBytes(m, sqe);
  }

  /** A buffer of `size` bytes that stays clear of the driver's own memory. */
  predicate Clear(buf: nat, size: nat, lo: nat, hi: nat) { buf + size <= lo || hi <= buf }

  /** Everything io_cmd stores before it rings the doorbell. Decoding the entry
      gives the command asked for, and walking its PRPs the caller's buffer, if
      that is on a dword. */
  method FillEntry(m: array<u8>, list: nat, sqe: nat, opcode: u8, cid: u16,
                   lba: u64, buf: u64, size: u32, nlb: u32)
    requires 0 < size <= MAX_SINGLE_TRANSFER && list % PAGE == 0
    requires buf + size <= m.Length <= 0x1_0000_0000_0000_0000
    requires sqe + 64 <= list && list + LIST_PAGES * PAGE <= m.Length
    requires list + 2 * LIST_PAGES * PAGE <= 0x1_0000_0000_0000_0000
    requires 8 * ListWords(buf, size) <= LIST_PAGES * PAGE
    requires 0 < nlb <= 0x1_0000
    modifies m
    ensures var c := Decode(m[..], sqe);
      && c.opcode == opcode && c.cid == cid && c.nsid == NSID && c.slba == lba && c.blocks == nlb
      && PrpWalk(m[..], c.prp1, c.prp2, size) == Described(buf, size)
    ensures m[sqe] == opcode && WordAt(m[..], sqe + 0x02, 2) == cid && WordAt(m[..], sqe + 0x04, 4) == 1
    ensures WordAt(m[..], sqe + 0x18, 8) == buf
    ensures WordAt(m[..], sqe + 0x28, 4) == lba % 0x1_0000_0000 && WordAt(m[..], sqe + 0x2C, 4) == lba / 0x1_0000_0000
    ensures WordAt(m[..], sqe + 0x30, 4) == nlb - 1
    ensures SameOutsideTwo(old(m[..]), m[..], sqe, sqe + 64, list, list + LIST_PAGES * PAGE)
  {
    hide PrpWalk, PrpReady, WordAt, ListWords;
    Pow256Values();
    ZeroEntry(m, sqe);
    StoreLe(m, sqe, opcode, 1);
    ghost var m0 := m[..];
    StoreLe(m, sqe + SQE_CID, cid, 2);
    ghost var m0' := m[..];
    StoreLe(m, sqe + SQE_NSID, NSID, 4);
    ghost var m1 := m[..];
    SetupPrp(m, list, sqe, buf, size);
    ghost var m2 := m[..];
    HeadFields(m0, m0', m1, m2, sqe, list, list + 8 * ListWords(buf, size));
    StoreLe(m, sqe + SQE_CDW10, lba % 0x1_0000_0000, 4);
    ghost var m3 := m[..];
    StoreLe(m, sqe + SQE_CDW11, lba / 0x1_0000_0000, 4);
    ghost var m4 := m[..];
    StoreLe(m, sqe + SQE_CDW12, nlb - 1, 4);
    EntryFields(m2, m3, m4, m[..], sqe);
    ReadySurvives(m2, m[..], list, buf, size, WordAt(m2, sqe + SQE_PRP2, 8));
    ReadyWalks(m[..], list, buf, size, WordAt(m2, sqe + SQE_PRP2, 8));
    WordBytes(m[..], sqe);
  }

  lemma SameWordTwo(m: Mem, m': Mem, lo1: int, hi1: int, lo2: int, hi2: int, a: nat, k: nat)
    requires SameOutsideTwo(m, m', lo1, hi1, lo2, hi2)
    requires (a + k <= lo1 || hi1 <= a) && (a + k <= lo2 || hi2 <= a)
    ensures WordAt(m', a, k) == WordAt(m, a, k)
  {
    if a + k <= |m| {
      assert m'[a..a + k] == m[a..a + k];
    }
  }

  /** The opcode and namespace survive the stores that follow them. */
  lemma HeadFields(m0: Mem, m0': Mem, m1: Mem, m2: Mem, sqe: nat, list: nat, end: nat)
    requires SameOutside(m0, m0', sqe + SQE_CID, sqe + SQE_CID + 2)
    requires SameOutside(m0', m1, sqe + SQE_NSID, sqe + SQE_NSID + 4)
    requires SameOutsideTwo(m1, m2, sqe + SQE_PRP1, sqe + SQE_PRP2 + 8, list, end) && sqe + 64 <= list
    ensures WordAt(m2, sqe, 1) == WordAt(m0, sqe, 1)
    ensures WordAt(m2, sqe + SQE_CID, 2) == WordAt(m0', sqe + SQE_CID, 2)
    ensures WordAt(m2, sqe + SQE_NSID, 4) == WordAt(m1, sqe + SQE_NSID, 4)
  {
    hide WordAt, SameOutside, SameOutsideTwo;
    SameWord(m0, m0', sqe + SQE_CID, sqe + SQE_CID + 2, sqe, 1);
    SameWord(m0', m1, sqe + SQE_NSID, sqe + SQE_NSID + 4, sqe, 1);
    SameWord(m0', m1, sqe + SQE_NSID, sqe + SQE_NSID + 4, sqe + SQE_CID, 2);
    SameWordTwo(m1, m2, sqe + SQE_PRP1, sqe + SQE_PRP2 + 8, list, end, sqe + SQE_CID, 2);
    SameWordTwo(m1, m2, sqe + SQE_PRP1, sqe + SQE_PRP2 + 8, list, end, sqe, 1);
    SameWordTwo(m1, m2, sqe + SQE_PRP1, sqe + SQE_PRP2 + 8, list, end, sqe + SQE_NSID, 4);
  }

  /** So do all fields when the three command dwords are stored last. */
  lemma EntryFields(m2: Mem, m3: Mem, m4: Mem, m5: Mem, sqe: nat)
    requires SameOutside(m2, m3, sqe + SQE_CDW10, sqe + SQE_CDW10 + 4)
    requires SameOutside(m3, m4, sqe + SQE_CDW11, sqe + SQE_CDW11 + 4)
    requires SameOutside(m4, m5, sqe + SQE_CDW12, sqe + SQE_CDW12 + 4)
    ensures WordAt(m5, sqe, 1) == WordAt(m2, sqe, 1)
    ensures WordAt(m5, sqe + SQE_CID, 2) == WordAt(m2, sqe + SQE_CID, 2)
    ensures WordAt(m5, sqe + SQE_NSID, 4) == WordAt(m2, sqe + SQE_NSID, 4)
    ensures WordAt(m5, sqe + SQE_PRP1, 8) == WordAt(m2, sqe + SQE_PRP1, 8)
    ensures WordAt(m5, sqe + SQE_PRP2, 8) == WordAt(m2, sqe + SQE_PRP2, 8)
    ensures WordAt(m5, sqe + SQE_CDW10, 4) == WordAt(m3, sqe + SQE_CDW10, 4)
    ensures WordAt(m5, sqe + SQE_CDW11, 4) == WordAt(m4, sqe + SQE_CDW11, 4)
  {
    hide WordAt;
    SameOutsideWidens(m2, m3, m4, m5, sqe + SQE_CDW10, sqe + SQE_CDW12 + 4);
    SameWord(m2, m5, sqe + SQE_CDW10, sqe + SQE_CDW12 + 4, sqe, 1);
    SameWord(m2, m5, sqe + SQE_CDW10, sqe + SQE_CDW12 + 4, sqe + SQE_NSID, 4);
    SameWord(m2, m5, sqe + SQE_CDW10, sqe + SQE_CDW12 + 4, sqe + SQE_CID, 2);
    SameWord(m2, m5, sqe + SQE_CDW10, sqe + SQE_CDW12 + 4, sqe + SQE_PRP1, 8);
    SameWord(m2, m5, sqe + SQE_CDW10, sqe + SQE_CDW12 + 4, sqe + SQE_PRP2, 8);
    SameWord(m3, m4, sqe + SQE_CDW11, sqe + SQE_CDW11 + 4, sqe + SQE_CDW10, 4);
    SameWord(m4, m5, sqe + SQE_CDW12, sqe + SQE_CDW12 + 4, sqe + SQE_CDW10, 4);
    SameWord(m4, m5, sqe + SQE_CDW12, sqe + SQE_CDW12 + 4, sqe + SQE_CDW11, 4);
  }

  lemma SameOutsideWidens(m2: Mem, m3: Mem, m4: Mem, m5: Mem, lo: int, hi: int)
    requires SameOutside(m2, m3, lo, lo + 4) && SameOutside(m3, m4, lo + 4, lo + 8)
    requires SameOutside(m4, m5, lo + 8, hi) && hi == lo + 12
    ensures SameOutside(m2, m5, lo, hi)
  {}

  method ZeroEntry(m: array<u8>, sqe: nat)
    requires sqe + 64 <= m.Length
    modifies m
    ensures forall a :: sqe <= a < sqe + 64 ==> m[a] == 0
    ensures SameOutside(old(m[..]), m[..], sqe, sqe + 64)
  {
    for i := 0 to 64
      invariant forall a :: sqe <= a < sqe + i ==> m[a] == 0
      invariant forall a :: 0 <= a < m.Length && !(sqe <= a < sqe + i) ==> m[a] == old(m[a])
    {
      m[sqe + i] := 0;
    }
  }
}
