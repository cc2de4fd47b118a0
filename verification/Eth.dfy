/** eth_init, eth_send and eth_recv of src/eth_rtl8169.c, with the device on the
    other side of both rings. */
module Eth {
  import opened Words
  import opened EthRing

  /** A frame as eth_recv hands it on: without the FCS, cut to the caller's
      space. */
  function Deliver(frame: seq<u8>, maxlen: nat): (r: seq<u8>)
    ensures |r| <= maxlen && r <= frame
    ensures r == [] <==> |frame| <= FCS || maxlen == 0
  {
    if |frame| < FCS then [] else frame[..Min(|frame| - FCS, maxlen)]
  }

  function DeliverAll(frames: seq<seq<u8>>, maxlen: nat): seq<seq<u8>> {
    if frames == [] then [] else [Deliver(frames[0], maxlen)] + DeliverAll(frames[1..], maxlen)
  }

  lemma {:induction false} DeliverSnoc(frames: seq<seq<u8>>, f: seq<u8>, maxlen: nat)
    ensures DeliverAll(frames + [f], maxlen) == DeliverAll(frames, maxlen) + [Deliver(f, maxlen)]
  {
    if frames == [] {
      assert frames + [f] == [f];
    } else {
      assert (frames + [f])[1..] == frames[1..] + [f];
      DeliverSnoc(frames[1..], f, maxlen);
    }
  }

  lemma NoneDelivered()
    ensures DeliverAll([], BUFFER) == []
  {}

  lemma OneMoreDelivered(arrived: seq<seq<u8>>, first: nat, k: nat)
    requires first <= k < |arrived|
    ensures DeliverAll(arrived[first..k + 1], BUFFER) == DeliverAll(arrived[first..k], BUFFER) + [Deliver(arrived[k], BUFFER)]
  {
    DeliverSnoc(arrived[first..k], arrived[k], BUFFER);
    assert arrived[first..k + 1] == arrived[first..k] + [arrived[k]];
  }

  lemma SamePart(earlier: seq<seq<u8>>, later: seq<seq<u8>>, i: nat, j: nat)
    requires earlier <= later && i <= j <= |earlier|
    ensures later[i..j] == earlier[i..j]
  {}

  /** The receiving half of eth_t. */
  class Receiver {
    const flags: array<u32>
    const bufs: array<seq<u8>>
    var head: nat
    var devPos: nat                     // the device's position in the ring
    ghost var arrived: seq<seq<u8>>     // frames the device has written, FCS included
    ghost var taken: nat                // how many of them eth_recv has taken

    ghost predicate Valid()
      reads this, flags, bufs
    {
      && head == Slot(taken, DEPTH) && devPos == Slot(|arrived|, DEPTH)
      && EorLast(flags[..]) && BuffersSized(bufs[..]) && Armed(flags[..])
      && OwnBetween(flags[..], taken, |arrived|, false) && FramesBetween(flags[..], bufs[..], taken, arrived)
    }

    /** The ring as eth_init builds it: all descriptors are the device's. */
    constructor ()
      ensures Valid() && fresh(this) && fresh(flags) && fresh(bufs) && arrived == [] && taken == 0
      ensures forall j :: 0 <= j < flags.Length ==> flags[j] == if j == 15 then 0xC000_0800 else 0x8000_0800
    {
      flags := new u32[DEPTH](_ => 0);
      bufs := new seq<u8>[DEPTH](_ => seq(BUFFER, _ => 0));
      head, devPos, arrived, taken := 0, 0, [], 0;
      new;
      for i := 0 to DEPTH
        modifies flags
        invariant forall j :: 0 <= j < i ==> flags[j] == if j == 15 then 0xC000_0800 else 0x8000_0800
        invariant forall j :: 0 <= j < i ==> Own(flags[j]) && Len(flags[j]) == BUFFER && (Eor(flags[j]) <==> j == DEPTH - 1)
      {
        Decodes(Flags(true, i == DEPTH - 1, false, false, BUFFER));
        WordsWritten(i == DEPTH - 1, 1);
        flags[i] := Encode(Flags(true, i == DEPTH - 1, false, false, BUFFER));
      }
    }

    /** A frame comes in. The device drops it if its next descriptor is not
        its own, or offers too little room. */
    method DeviceWrites(frame: seq<u8>) returns (ok: bool)
      requires Valid()
      modifies this`devPos, this`arrived, flags, bufs
      ensures Valid()
      ensures ok <==> |old(arrived)| < taken + 16 && |frame| <= 2048
      ensures arrived == if ok then old(arrived) + [frame] else old(arrived)
    {
      hide Own, Eor, Whole, Len, Encode, OwnBetween, FramesBetween, EorLast;
      Facts();
      var i := devPos;
      var w := flags[i];
      AtHead(flags[..], taken, |arrived|, false);
      if !Own(w) || |frame| > Len(w) { return false; }
      ghost var flags0, bufs0 := flags[..], bufs[..];
      NextIsSlot(|arrived|, w);
      var w' := Encode(Flags(false, Eor(w), true, true, |frame|));
      Decodes(Flags(false, Eor(w), true, true, |frame|));
      var buf := frame + bufs[i][|frame|..];
      Produced(flags0, bufs0, taken, arrived, false, frame, w', buf);
      EorKept(flags0, i, w');
      bufs[i] := buf;
      flags[i] := w';
      assert flags[..] == flags0[i := w'] && bufs[..] == bufs0[i := buf];
      devPos := NextByEor(i, w);
      arrived := arrived + [frame];
      ok := true;
    }

    /** The parts of Valid the methods need beside the hidden ones. */
    lemma Facts()
      requires Valid()
      ensures head < DEPTH && devPos < DEPTH && flags.Length == DEPTH && bufs.Length == DEPTH
      ensures taken <= |arrived| <= taken + DEPTH
      ensures forall i :: 0 <= i < DEPTH ==> (Eor(flags[i]) <==> i == DEPTH - 1)
      ensures forall i :: 0 <= i < DEPTH ==> Own(flags[i]) ==> Len(flags[i]) == BUFFER
    {
      hide Own, Eor, Len;
      assert forall i :: 0 <= i < DEPTH ==> flags[i] == flags[..][i];
    }

    /** eth_recv: the frames come out in the order they came in, none twice and
        none left out.  A result of 0 means no frame, or a frame with nothing
        left of it. */
    method Recv(maxlen: nat) returns (n: nat, out: seq<u8>)
      requires Valid()
      modifies this`head, this`taken, flags
      ensures Valid() && n == |out|
      ensures old(taken) == |arrived| ==> n == 0 && taken == old(taken) && flags[..] == old(flags[..])
      ensures old(taken) < |arrived| ==> taken == old(taken) + 1 && out == Deliver(arrived[old(taken)], maxlen)
      ensures old(taken) < |arrived| ==>
        |arrived[old(taken)]| <= 2048 && n == Min(Max(|arrived[old(taken)]| - 4, 0), maxlen)
        && out == arrived[old(taken)][..n]
      ensures old(taken) < |arrived| && old(head) < flags.Length ==>
        flags[old(head)] == if old(head) == 15 then 0xC000_0800 else 0x8000_0800
    {
      hide Own, Eor, Whole, Len, Encode, OwnBetween, FramesBetween, EorLast;
      Facts();
      var idx := head;
      var w := flags[idx];
      AtTail(flags[..], taken, |arrived|, false);
      if Own(w) { return 0, []; }
      FrameHere();
      var len := Len(w);
      if len < FCS { len := 0; } else { len := len - FCS; }
      if len > maxlen { len := maxlen; }
      out := bufs[idx][..len];
      n := len;
      ghost var flags0 := flags[..];
      var w' := Encode(Flags(true, idx == DEPTH - 1, false, false, BUFFER));
      Decodes(Flags(true, idx == DEPTH - 1, false, false, BUFFER));
      WordsWritten(idx == DEPTH - 1, 1);
      Consumed(flags0, bufs[..], taken, arrived, false, w');
      EorKept(flags0, idx, w');
      HeadIsSlot(taken);
      flags[idx] := w';
      assert flags[..] == flags0[idx := w'];
      head := (idx + 1) % DEPTH;
      taken := taken + 1;
    }

    lemma FrameHere()
      requires Valid() && taken < |arrived|
      ensures head < DEPTH == flags.Length == bufs.Length
      ensures Len(flags[head]) == |arrived[taken]| && arrived[taken] <= bufs[head] && |bufs[head]| == 2048
    {
      hide Own, Eor, Len;
    }

    /** The interrupt handler's loop, with the frames arrivals[i] coming in
        before its i-th receive: it delivers frames until eth_recv returns 0, so
        it leaves frames behind exactly when one with nothing but an FCS comes
        before them. */
    method Drain(arrivals: seq<seq<seq<u8>>>) returns (delivered: seq<seq<u8>>)
      requires Valid()
      modifies this`head, this`taken, this`devPos, this`arrived, flags, bufs
      ensures Valid() && old(arrived) <= arrived
      ensures var k := old(taken) + |delivered|;
        k <= |arrived| && delivered == DeliverAll(arrived[old(taken)..k], BUFFER)
        && (forall i :: old(taken) <= i < k ==> |arrived[i]| > FCS)
        && if k < |arrived| then taken == k + 1 && |arrived[k]| <= FCS else taken == k
      ensures forall i :: 0 <= i < |delivered| ==>
        |arrived[old(taken) + i]| > 4 && delivered[i] == arrived[old(taken) + i][..|arrived[old(taken) + i]| - 4]
    {
      hide Valid, Deliver, DeliverAll;
      NoneDelivered();
      delivered := [];
      ghost var first := taken;
      var i := 0;
      Bounded();
      assert arrived[first..taken] == [];
      while true
        invariant Valid() && first <= taken <= |arrived| && old(arrived) <= arrived
        invariant |delivered| == taken - first && delivered == DeliverAll(arrived[first..taken], BUFFER)
        invariant forall j :: first <= j < taken ==> |arrived[j]| > FCS
        invariant forall j :: 0 <= j < |delivered| ==>
          delivered[j] == arrived[first + j][..|arrived[first + j]| - 4]
        decreases |arrivals| - i, |arrived| - taken
      {
        ghost var earlier := arrived;
        if i < |arrivals| {
          Arrive(arrivals[i]);
          i := i + 1;
        }
        SamePart(earlier, arrived, first, taken);
        Bounded();
        ghost var before := taken;
        var n, frame := Recv(BUFFER);
        Bounded();
        if n == 0 {
          if before < taken { EmptyMeansShort(arrived[before], BUFFER); }
          break;
        }
        OneMoreDelivered(arrived, first, before);
        EmptyMeansShort(arrived[before], BUFFER);
        delivered := delivered + [frame];
      }
    }

    /** A few frames come in. */
    method Arrive(frames: seq<seq<u8>>)
      requires Valid()
      modifies this`devPos, this`arrived, flags, bufs
      ensures Valid() && old(arrived) <= arrived
    {
      hide Valid;
      for j := 0 to |frames|
        invariant Valid() && old(arrived) <= arrived
      {
        var ok := DeviceWrites(frames[j]);
      }
    }

    lemma Bounded()
      requires Valid()
      ensures taken <= |arrived|
    {}
  }

  lemma EmptyMeansShort(frame: seq<u8>, maxlen: nat)
    ensures Deliver(frame, maxlen) == [] <==> |frame| <= FCS || maxlen == 0
  {}

  /** The sending half of eth_t. */
  class Sender {
    const flags: array<u32>
    const bufs: array<seq<u8>>
    var head: nat
    var devPos: nat                     // the device's position in the ring
    ghost var sent: seq<seq<u8>>        // frames eth_send took
    ghost var wire: seq<seq<u8>>        // frames the device has sent

    ghost predicate Valid()
      reads this, flags, bufs
    {
      && wire <= sent
      && head == Slot(|sent|, DEPTH) && devPos == Slot(|wire|, DEPTH)
      && EorLast(flags[..]) && BuffersSized(bufs[..]) && AllWhole(flags[..])
      && OwnBetween(flags[..], |wire|, |sent|, true) && FramesBetween(flags[..], bufs[..], |wire|, sent)
    }

    /** The ring as eth_init builds it: all descriptors are the driver's. */
    constructor ()
      ensures Valid() && fresh(this) && fresh(flags) && fresh(bufs) && sent == [] && wire == []
      ensures forall j :: 0 <= j < flags.Length ==> flags[j] == if j == 15 then 0x4000_0000 else 0
    {
      flags := new u32[DEPTH](_ => 0);
      bufs := new seq<u8>[DEPTH](_ => seq(BUFFER, _ => 0));
      head, devPos, sent, wire := 0, 0, [], [];
      new;
      for i := 0 to DEPTH
        modifies flags
        invariant forall j :: 0 <= j < i ==> flags[j] == if j == 15 then 0x4000_0000 else 0
        invariant forall j :: 0 <= j < i ==> !Own(flags[j]) && (Eor(flags[j]) <==> j == DEPTH - 1)
      {
        Decodes(Flags(false, i == DEPTH - 1, false, false, 0));
        WordsWritten(i == DEPTH - 1, 1);
        flags[i] := Encode(Flags(false, i == DEPTH - 1, false, false, 0));
      }
    }

    /** eth_send: refuses an empty frame, one over 2048 bytes, and any while
        sixteen are waiting; takes all others. */
    method Send(frame: seq<u8>) returns (ok: bool)
      requires Valid()
      modifies this`head, this`sent, flags, bufs
      ensures Valid()
      ensures ok <==> 0 < |frame| <= 2048 && |old(sent)| < |wire| + 16
      ensures sent == if ok then old(sent) + [frame] else old(sent)
      ensures !ok ==> flags[..] == old(flags[..]) && bufs[..] == old(bufs[..])
      ensures ok && old(head) < flags.Length ==>
        flags[old(head)] == |frame| + if old(head) == 15 then 0xF000_0000 else 0xB000_0000
    {
      hide Own, Eor, Whole, Len, Encode, OwnBetween, FramesBetween, EorLast;
      if |frame| == 0 || |frame| > BUFFER { return false; }
      Facts();
      var idx := head;
      AtHead(flags[..], |wire|, |sent|, true);
      if Own(flags[idx]) { return false; }
      ghost var flags0, bufs0 := flags[..], bufs[..];
      var buf := frame + bufs[idx][|frame|..];
      var w' := Encode(Flags(true, idx == DEPTH - 1, true, true, |frame|));
      Decodes(Flags(true, idx == DEPTH - 1, true, true, |frame|));
      WordsWritten(idx == DEPTH - 1, |frame|);
      Produced(flags0, bufs0, |wire|, sent, true, frame, w', buf);
      EorKept(flags0, idx, w');
      HeadIsSlot(|sent|);
      bufs[idx] := buf;
      flags[idx] := w';
      assert flags[..] == flags0[idx := w'] && bufs[..] == bufs0[idx := buf];
      head := (idx + 1) % DEPTH;
      sent := sent + [frame];
      ok := true;
    }

    lemma Facts()
      requires Valid()
      ensures head < DEPTH && devPos < DEPTH && flags.Length == DEPTH && bufs.Length == DEPTH
      ensures |wire| <= |sent| <= |wire| + DEPTH
      ensures forall i :: 0 <= i < DEPTH ==> (Eor(flags[i]) <==> i == DEPTH - 1)
      ensures forall i :: 0 <= i < DEPTH ==> Own(flags[i]) ==> Whole(flags[i])
    {
      hide Own, Eor, Whole;
      assert forall i :: 0 <= i < DEPTH ==> flags[i] == flags[..][i];
    }

    lemma FrameHere()
      requires Valid() && |wire| < |sent|
      ensures devPos < DEPTH == flags.Length == bufs.Length
      ensures Len(flags[devPos]) == |sent[|wire|]| && sent[|wire|] <= bufs[devPos]
    {
      hide Own, Eor, Len;
    }

    static lemma NextOut(wire: seq<seq<u8>>, sent: seq<seq<u8>>, frame: seq<u8>)
      requires wire <= sent && |wire| < |sent| && frame == sent[|wire|]
      ensures wire + [frame] <= sent
    {
      assert sent[..|wire| + 1] == wire + [frame];
    }

    /** The device sends its next frame, if it owns the descriptor: what goes
        out on the wire is what eth_send took, in that order. */
    method DeviceSends() returns (ok: bool, frame: seq<u8>)
      requires Valid()
      modifies this`devPos, this`wire, flags
      ensures Valid()
      ensures ok <==> |old(wire)| < |sent|
      ensures ok ==> frame == sent[|old(wire)|]
      ensures wire == if ok then old(wire) + [frame] else old(wire)
    {
      hide Own, Eor, Whole, Len, Encode, OwnBetween, FramesBetween, EorLast;
      Facts();
      var i := devPos;
      var w := flags[i];
      AtTail(flags[..], |wire|, |sent|, true);
      if !Own(w) || !Whole(w) { return false, []; }
      FrameHere();
      frame := bufs[i][..Len(w)];
      NextOut(wire, sent, frame);
      ghost var flags0 := flags[..];
      NextIsSlot(|wire|, w);
      var w' := Encode(Flags(false, Eor(w), true, true, Len(w)));
      Decodes(Flags(false, Eor(w), true, true, Len(w)));
      Consumed(flags0, bufs[..], |wire|, sent, true, w');
      EorKept(flags0, i, w');
      flags[i] := w';
      assert flags[..] == flags0[i := w'];
      devPos := NextByEor(i, w);
      wire := wire + [frame];
      ok := true;
    }
  }
}
