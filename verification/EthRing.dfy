/** The descriptor rings of src/eth_rtl8169.c.  Driver and device hand
    descriptors to each other by the OWN bit; the device finds the end of a
    ring by the EOR bit. */
module EthRing {
  import opened Words

  const DEPTH: nat := 16
  const BUFFER: nat := 2048
  const FCS: nat := 4

  /** The flags word of a descriptor, by its fields. */
  datatype Flags = Flags(own: bool, eor: bool, fs: bool, ls: bool, len: nat)

  const LEN_LIMIT: nat := 0x4000

  function Encode(f: Flags): u32
    requires f.len < LEN_LIMIT
  {
    (if f.own then 0x8000_0000 else 0) + (if f.eor then 0x4000_0000 else 0)
    + (if f.fs then 0x2000_0000 else 0) + (if f.ls then 0x1000_0000 else 0) + f.len
  }

  predicate Own(w: u32) { w / 0x8000_0000 % 2 == 1 }

  predicate Eor(w: u32) { w / 0x4000_0000 % 2 == 1 }

  /** The frame starts and ends in this descriptor. */
  predicate Whole(w: u32) { w / 0x2000_0000 % 2 == 1 && w / 0x1000_0000 % 2 == 1 }

  function Len(w: u32): (r: nat)
    ensures r < LEN_LIMIT
  {
    w % 0x4000
  }

  lemma Decodes(f: Flags)
    requires f.len < LEN_LIMIT
    ensures var w := Encode(f); Own(w) == f.own && Eor(w) == f.eor && Whole(w) == (f.fs && f.ls) && Len(w) == f.len
  {
    hide Own, Eor, Whole, Len, Encode;
    HighBits(f);
    SegmentBits(f);
    LengthBits(f);
  }

  lemma HighBits(f: Flags)
    requires f.len < LEN_LIMIT
    ensures Own(Encode(f)) == f.own && Eor(Encode(f)) == f.eor
  {}

  lemma SegmentBits(f: Flags)
    requires f.len < LEN_LIMIT
    ensures Whole(Encode(f)) == (f.fs && f.ls)
  {}

  lemma LengthBits(f: Flags)
    requires f.len < LEN_LIMIT
    ensures Len(Encode(f)) == f.len
  {}

  /** Where the fields are: OWN in bit 31, EOR in bit 30, the segment bits in 29
      and 28, the length in the low fourteen. */
  lemma FlagsLayout(w: u32)
    ensures Own(w) <==> w >= 0x8000_0000
    ensures Eor(w) <==> w % 0x8000_0000 >= 0x4000_0000
    ensures Whole(w) <==> w % 0x4000_0000 >= 0x3000_0000
    ensures Len(w) == w % 16384
  {}

  /** The words the driver writes: to receive, to send, and at the start. */
  lemma WordsWritten(last: bool, len: nat)
    requires 0 < len <= 2048
    ensures Encode(Flags(true, last, false, false, 2048)) == if last then 0xC000_0800 else 0x8000_0800
    ensures Encode(Flags(true, last, true, true, len)) == len + if last then 0xF000_0000 else 0xB000_0000
    ensures Encode(Flags(false, last, false, false, 0)) == if last then 0x4000_0000 else 0
  {}

  /** The device's next descriptor: back to the first after the last. */
  function NextByEor(i: nat, w: u32): nat { if Eor(w) then 0 else i + 1 }

  lemma NextIsSlot(p: nat, w: u32)
    requires Eor(w) <==> Slot(p, DEPTH) == DEPTH - 1
    ensures NextByEor(Slot(p, DEPTH), w) == Slot(p + 1, DEPTH)
  {
    SlotIsMod(p, DEPTH);
    SlotIsMod(p + 1, DEPTH);
  }

  lemma HeadIsSlot(p: nat)
    ensures (Slot(p, DEPTH) + 1) % DEPTH == Slot(p + 1, DEPTH)
  {
    SlotIsMod(p, DEPTH);
    SlotIsMod(p + 1, DEPTH);
  }

  // ---- A ring between a producer at `head` and a consumer at `tail` ----

  /** EOR is set on the last descriptor only. */
  ghost predicate EorLast(flags: seq<u32>) {
    |flags| == DEPTH && forall i :: 0 <= i < DEPTH ==> (Eor(flags[i]) <==> i == DEPTH - 1)
  }

  /** The descriptors between the two positions, taken circularly, are exactly
      those whose OWN bit is `full`. */
  ghost predicate OwnBetween(flags: seq<u32>, tail: nat, head: nat, full: bool) {
    && |flags| == DEPTH && tail <= head <= tail + DEPTH
    && forall p {:trigger Slot(p, DEPTH)} :: tail <= p < tail + DEPTH ==>
         (Own(flags[Slot(p, DEPTH)]) <==> (p < head) == full)
  }

  /** The i-th of the frames between the positions is in its buffer, and its
      length in its descriptor. */
  ghost predicate FramesBetween(flags: seq<u32>, bufs: seq<seq<u8>>, tail: nat, frames: seq<seq<u8>>) {
    && |flags| == DEPTH && |bufs| == DEPTH && tail <= |frames|
    && forall p {:trigger Slot(p, DEPTH)} :: tail <= p < |frames| ==>
         var i := Slot(p, DEPTH);
         Len(flags[i]) == |frames[p]| && frames[p] <= bufs[i]
  }

  /** Descriptors handed to the device for receiving offer a whole buffer. */
  ghost predicate Armed(flags: seq<u32>) {
    forall i :: 0 <= i < |flags| ==> Own(flags[i]) ==> Len(flags[i]) == BUFFER
  }

  /** Descriptors handed to the device for sending hold a whole frame. */
  ghost predicate AllWhole(flags: seq<u32>) {
    forall i :: 0 <= i < |flags| ==> Own(flags[i]) ==> Whole(flags[i])
  }

  ghost predicate BuffersSized(bufs: seq<seq<u8>>) {
    |bufs| == DEPTH && forall i :: 0 <= i < DEPTH ==> |bufs[i]| == BUFFER
  }

  /** The producer fills the descriptor at head and hands it over. */
  lemma Produced(flags: seq<u32>, bufs: seq<seq<u8>>, tail: nat, frames: seq<seq<u8>>, full: bool,
                 frame: seq<u8>, w: u32, buf: seq<u8>)
    requires OwnBetween(flags, tail, |frames|, full) && FramesBetween(flags, bufs, tail, frames)
    requires |frames| < tail + DEPTH && Own(w) == full && Len(w) == |frame| && frame <= buf
    ensures var i := Slot(|frames|, DEPTH);
      OwnBetween(flags[i := w], tail, |frames| + 1, full)
      && FramesBetween(flags[i := w], bufs[i := buf], tail, frames + [frame])
  {
    var h := |frames|;
    forall p | tail <= p < tail + DEPTH && p != h ensures Slot(p, DEPTH) != Slot(h, DEPTH) {
      if p < h { SlotsDiffer(p, h, DEPTH); } else { SlotsDiffer(h, p, DEPTH); }
    }
  }

  /** The consumer gives the descriptor at tail back. */
  lemma Consumed(flags: seq<u32>, bufs: seq<seq<u8>>, tail: nat, frames: seq<seq<u8>>, full: bool, w: u32)
    requires OwnBetween(flags, tail, |frames|, full) && FramesBetween(flags, bufs, tail, frames)
    requires tail < |frames| && Own(w) != full
    ensures var i := Slot(tail, DEPTH);
      OwnBetween(flags[i := w], tail + 1, |frames|, full) && FramesBetween(flags[i := w], bufs, tail + 1, frames)
  {
    SlotPeriod(tail, 1, DEPTH);
    forall p | tail < p < tail + DEPTH ensures Slot(p, DEPTH) != Slot(tail, DEPTH) {
      SlotsDiffer(tail, p, DEPTH);
    }
  }

  lemma EorKept(flags: seq<u32>, i: nat, w: u32)
    requires EorLast(flags) && i < DEPTH && (Eor(w) <==> i == DEPTH - 1)
    ensures EorLast(flags[i := w])
  {}

  /** Whose turn the consumer's descriptor is. */
  lemma AtTail(flags: seq<u32>, tail: nat, head: nat, full: bool)
    requires OwnBetween(flags, tail, head, full)
    ensures Own(flags[Slot(tail, DEPTH)]) == full <==> tail < head
  {}

  lemma AtHead(flags: seq<u32>, tail: nat, head: nat, full: bool)
    requires OwnBetween(flags, tail, head, full)
    ensures Own(flags[Slot(head, DEPTH)]) != full <==> head < tail + DEPTH
  {
    if head == tail + DEPTH {
      SlotPeriod(tail, 1, DEPTH);
    }
  }
}
