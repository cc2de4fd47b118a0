/** gpu_cmd_sync of src/virtio_gpu.c: a command as a chain of two descriptors,
    posted, waited for and given back. */
module VirtGpu {
  import opened Words
  import opened VirtQueue
  import opened VirtProtocol
  import opened VirtRuns
  import opened Bytes

  const QSIZE: u16 := 16
  const REQ_BYTES: nat := 256
  const RSP_BYTES: nat := 1024
  const HEADER_BYTES: nat := 24

  // ---------------------------------------------------- one command's life

  /** Nothing is on its way. */
  ghost predicate Quiet(s: Sys) {
    Inv(s) && s.taken == |s.chains| && s.popped == |s.log|
  }

  datatype Phase = Taken | Out | Served | Back

  /** A command that started in s0 with the two topmost free descriptors: the
      driver holds them, the chain is posted, it is served, they are back. */
  ghost predicate During(s0: Sys, s: Sys, head: u16, rid: u16, phase: Phase) {
    && Quiet(s0) && Inv(s) && s.q.size == s0.q.size
    && var n := |s0.free|;
    && n >= 2 && head == s0.free[n - 1] && rid == s0.free[n - 2] && s.free == s0.free[..n - 2]
    && head != rid && head < |s.owner| && rid < |s.owner|
    && |s.owner| == |s0.owner| == s.q.size && |s.stage| == |s.chains| && |s0.stage| == |s0.chains|
    && (forall d :: 0 <= d < |s.owner| && d != head && d != rid ==> s.owner[d] == s0.owner[d])
    && (phase.Taken? || phase.Back? ==> s.owner[head] == Driver && s.owner[rid] == Driver)
    && match phase
       case Taken => s.chains == s0.chains && s.stage == s0.stage && s.log == s0.log && Quiet(s)
       case Out =>
         && s.chains == s0.chains + [[head, rid]] && s.stage == s0.stage + [Stage.Posted]
         && s.taken == |s0.chains| && s.log == s0.log && s.popped == |s.log|
       case Served =>
         && s.chains == s0.chains + [[head, rid]] && s.taken == |s.chains|
         && |s.log| == |s0.log| + 1 && s.log[|s0.log|].k == |s0.chains| && s.popped == |s0.log|
       case Back => Quiet(s)
  }

  /** The length the device reported for the command. */
  ghost function LenOf(s0: Sys, s: Sys): u32 {
    if |s0.log| < |s.log| then s.log[|s0.log|].len else 0
  }

  lemma Matching(s: Sys)
    requires Inv(s)
    ensures |s.stage| == |s.chains| && |s.owner| == s.q.size && |s.free| == s.q.numFree
  {}

  lemma TakesTwo(s0: Sys)
    requires Quiet(s0) && s0.q.numFree >= 2
    ensures s0.q.freeHead < s0.q.size
    ensures var s1 := Apply(s0, Alloc);
      Inv(s1) && s1.q.numFree == s0.q.numFree - 1 && s1.q.freeHead < s1.q.size
      && Inv(Apply(s1, Alloc)) && During(s0, Apply(s1, Alloc), s0.q.freeHead, s1.q.freeHead, Taken)
  {
    hide Slot, ChainsOk, AvailOk, UsedOk, RingSize;
    Matching(s0);
    AllocKeepsInv(s0);
    var s1 := Apply(s0, Alloc);
    AllocKeepsInv(s1);
    var n := |s0.free|;
    assert s0.owner[s0.free[n - 1]] == Free(n - 1) && s0.owner[s0.free[n - 2]] == Free(n - 2);
  }

  lemma Fills(s0: Sys, s: Sys, head: u16, rid: u16, d: u16, x: Desc)
    requires During(s0, s, head, rid, Taken) && (d == head || d == rid)
    ensures d < s.q.size && Inv(s) && Enabled(s, Fill(d, x))
    ensures Inv(Apply(s, Fill(d, x))) && During(s0, Apply(s, Fill(d, x)), head, rid, Taken)
  {
    hide Slot, FreeListOk, ChainsOk, AvailOk, UsedOk, RingSize;
    FillKeepsInv(s, d, x);
  }

  /** The chain as gpu_cmd_sync links it. */
  predicate TwoLinked(desc: seq<Desc>, head: u16, rid: u16) {
    head < |desc| && rid < |desc| && HasNext(desc[head]) && desc[head].next == rid && !HasNext(desc[rid])
  }

  lemma Posts1(s0: Sys, s: Sys, head: u16, rid: u16)
    requires During(s0, s, head, rid, Taken) && TwoLinked(s.q.desc, head, rid)
    ensures Inv(s) && Enabled(s, Push([head, rid]))
    ensures Inv(Apply(s, Push([head, rid]))) && During(s0, Apply(s, Push([head, rid])), head, rid, Out)
  {
    hide Slot, FreeListOk, ChainsOk, AvailOk, UsedOk, RingSize;
    var c := [head, rid];
    assert Linked(s.q.desc, c);
    assert Held(s, c[0]) && Held(s, c[1]);
    PushKeepsInv(s, c);
  }

  /** The device finds the command in the ring and in the table, and returns
      it. */
  lemma Serves(s0: Sys, s: Sys, head: u16, rid: u16, len: u32)
    requires During(s0, s, head, rid, Out)
    ensures Inv(s) && Enabled(s, Take) && s.q.availIdx != s.devAvail && AvailEntry(s.q, s.devAvail) == head
    ensures DeviceWalk(s.q.desc, head, s.q.size) == [head, rid]
    ensures var s1, k := Apply(s, Take), |s0.chains|;
      Inv(s1) && Enabled(s1, Post(k, len)) && During(s0, Apply(s1, Post(k, len)), head, rid, Served)
      && Apply(s1, Post(k, len)).q == DevicePost(s.q, UsedElem(head, len))
      && LenOf(s0, Apply(s1, Post(k, len))) == len
      && Apply(s1, Post(k, len)).devAvail == Wrap16(s.devAvail + 1)
  {
    hide Slot, FreeListOk, ChainsOk, AvailOk, UsedOk, RingSize, DeviceWalk, AvailEntry;
    var k := |s0.chains|;
    TakeIsOldestPush(s);
    ChainsStayIntact(s, k);
    TakeKeepsInv(s);
    var s1 := Apply(s, Take);
    assert s1.stage[k] == InDevice;
    PostKeepsInv(s1, k, len);
  }

  lemma ComesBack(s0: Sys, s: Sys, head: u16, rid: u16)
    requires During(s0, s, head, rid, Served)
    ensures Inv(s) && CanPop(s.q) && PopElem(s.q) == UsedElem(head, LenOf(s0, s))
    ensures Inv(Apply(s, Pop)) && During(s0, Apply(s, Pop), head, rid, Back) && Apply(s, Pop).q == UsedPop(s.q)
  {
    hide Slot, FreeListOk, ChainsOk, AvailOk, UsedOk, RingSize, PopElem;
    PopIsOldestPost(s);
    PopKeepsInv(s);
    assert s.chains[|s0.chains|] == [head, rid];
  }

  /** Given back in reverse order, the two descriptors end up where they were:
      every free list the driver sees between commands is the same. */
  lemma GivesBack(s0: Sys, s: Sys, head: u16, rid: u16)
    requires During(s0, s, head, rid, Back)
    ensures Inv(s) && Held(s, rid) && rid < s.q.size
    ensures var s1 := Apply(s, Release(rid));
      Inv(s1) && Held(s1, head) && head < s1.q.size
    ensures var s2 := Apply(Apply(s, Release(rid)), Release(head));
      Quiet(s2) && s2.free == s0.free && s2.owner == s0.owner
      && s2.q.numFree == s0.q.numFree && s2.q.freeHead == s0.q.freeHead
  {
    hide Slot, ChainsOk, AvailOk, UsedOk, RingSize;
    ReleaseKeepsInv(s, rid);
    var s1 := Apply(s, Release(rid));
    ReleaseKeepsInv(s1, head);
    var s2 := Apply(s1, Release(head));
    var n := |s0.free|;
    assert s0.owner[s0.free[n - 1]] == Free(n - 1) && s0.owner[s0.free[n - 2]] == Free(n - 2);
    assert s2.free == s0.free;
    assert s2.owner == s0.owner;
  }

  /** With fewer than two descriptors the command is refused and nothing has
      changed. */
  lemma RefusedUnchanged(s: Sys)
    requires Inv(s) && s.q.numFree == 1
    ensures var s1 := Apply(s, Alloc);
      s.q.freeHead < s.q.size && Inv(s1) && s1.q.numFree == 0 && Held(s1, s.q.freeHead) && Apply(s1, Release(s.q.freeHead)) == s
  {
    hide Slot, ChainsOk, AvailOk, UsedOk, RingSize;
    AllocKeepsInv(s);
    var s1, d := Apply(s, Alloc), s.q.freeHead;
    assert s.owner[s.free[0]] == Free(0);
    var s2 := Apply(s1, Release(d));
    assert s2.q.desc == s.q.desc;
    assert s2.free == s.free;
    assert s2.owner == s.owner;
  }

  // ---------------------------------------------------- the driver

  /** What lands in the caller's response area: the bytes the device wrote, as
      far as there is room, over what was there. */
  function Response(before: seq<u8>, reply: seq<u8>): (r: seq<u8>)
    ensures |r| == |before|
  {
    var n := Min(|reply|, |before|);
    reply[..n] + before[n..]
  }

  /** The little-endian type field of a response. */
  function TypeOf(rsp: seq<u8>): nat
    requires |rsp| >= 4
  {
    FromLe(rsp[..4])
  }

  predicate Accepted(rsp: seq<u8>) {
    |rsp| >= HEADER_BYTES ==> TypeOf(rsp) == 0x1100 || TypeOf(rsp) == 0x1101
  }

  /** What a response is, byte by byte: as much of the reply as fits, and beyond
      that what was there. */
  lemma ResponseBytes(before: seq<u8>, reply: seq<u8>, i: nat)
    requires i < |before|
    ensures Response(before, reply)[i] == if i < |reply| then reply[i] else before[i]
  {}

  /** Acceptance is a matter of the first four bytes of a whole header. */
  lemma AcceptedBytes(rsp: seq<u8>)
    ensures Accepted(rsp) <==>
      (|rsp| >= 24 ==> (rsp[0] == 0 || rsp[0] == 1) && rsp[1] == 0x11 && rsp[2] == 0 && rsp[3] == 0)
  {
    if |rsp| >= 24 { Word4(rsp, 0); }
  }

  /** virtio_gpu_t, and the device, which answers each request by `serve`. */
  class Gpu {
    const controlq: Virtq
    const reqBuf: array<u8>
    const rspBuf: array<u8>
    const reqAddr: u64
    const rspAddr: u64
    var devAvail: u16
    ghost var sys: Sys

    ghost function Repr(): set<object> { {this, reqBuf, rspBuf} + controlq.Repr() }

    ghost predicate InStep()
      reads Repr()
    {
      && controlq.Valid() && reqBuf.Length == REQ_BYTES && rspBuf.Length == RSP_BYTES && reqBuf != rspBuf
      && sys.q == controlq.State() && sys.devAvail == devAvail
    }

    /** Between commands. */
    ghost predicate Valid()
      reads Repr()
    {
      InStep() && Quiet(sys)
    }

    constructor (reqAddr: u64, rspAddr: u64)
      ensures Valid() && fresh(Repr()) && controlq.numFree == QSIZE
    {
      hide FreeListOk, ChainsOk, AvailOk, UsedOk;
      assert RingSize(QSIZE) by { assert Pow2(4) == 16; }
      controlq := new Virtq(QSIZE);
      reqBuf := new u8[REQ_BYTES](_ => 0);
      rspBuf := new u8[RSP_BYTES](_ => 0);
      this.reqAddr, this.rspAddr := reqAddr, rspAddr;
      devAvail := 0;
      sys := InitialSys(QSIZE);
    }

    /** Two descriptors, or none at all. */
    method TakeTwo() returns (ok: bool, head: u16, rid: u16)
      requires Valid()
      modifies this`sys, controlq, controlq.desc
      ensures InStep() && ok == (old(controlq.numFree) >= 2)
      ensures ok ==> During(old(sys), sys, head, rid, Taken)
      ensures !ok ==> sys == old(sys)
    {
      hide Slot, FreeListOk, ChainsOk, AvailOk, UsedOk, RingSize, During;
      if controlq.numFree >= 2 { TakesTwo(sys); }
      if controlq.numFree == 1 { RefusedUnchanged(sys); }
      head := controlq.Alloc();
      sys := if sys.q.numFree == 0 then sys else Apply(sys, Alloc);
      rid := controlq.Alloc();
      ok := true;
      if head == NO_DESC || rid == NO_DESC {
        if rid != NO_DESC { assert false; }
        if head != NO_DESC { controlq.Free(head); sys := Apply(sys, Release(head)); }
        return false, head, rid;
      }
      sys := Apply(sys, Alloc);
    }

    /** The request goes into its buffer, the two descriptors describe the
        buffers, and the chain is posted. */
    method PostCommand(req: seq<u8>, rspLen: u32, head: u16, rid: u16, ghost s0: Sys)
      requires InStep() && During(s0, sys, head, rid, Taken)
      requires |req| <= REQ_BYTES && rspLen <= RSP_BYTES
      modifies this`sys, controlq, controlq.desc, controlq.availRing, reqBuf
      ensures InStep() && During(s0, sys, head, rid, Out)
      ensures Described(sys, head, rid, |req|, rspLen) && reqBuf[..|req|] == req
    {
      hide Slot, FreeListOk, ChainsOk, AvailOk, UsedOk, RingSize, During, Quiet;
      CopyIn(req);
      var x, y := Desc(reqAddr, |req|, F_NEXT, rid), Desc(rspAddr, rspLen, F_WRITE, 0);
      Fills(s0, sys, head, rid, head, x);
      Distinct(s0, sys, head, rid);
      controlq.Fill(head, x);
      sys := Apply(sys, Fill(head, x));
      Fills(s0, sys, head, rid, rid, y);
      controlq.Fill(rid, y);
      sys := Apply(sys, Fill(rid, y));
      Posts1(s0, sys, head, rid);
      controlq.Push(head);
      sys := Apply(sys, Push([head, rid]));
    }

    static lemma Distinct(s0: Sys, s: Sys, head: u16, rid: u16)
      requires During(s0, s, head, rid, Taken)
      ensures head != rid && head < s.q.size && rid < s.q.size && Inv(s)
    {}

    method CopyIn(req: seq<u8>)
      requires |req| <= REQ_BYTES == reqBuf.Length
      modifies reqBuf
      ensures reqBuf[..|req|] == req
    {
      for i := 0 to |req|
        invariant reqBuf[..i] == req[..i]
      {
        reqBuf[i] := req[i];
      }
    }

    /** What the table says of the command. */
    ghost predicate Described(s: Sys, head: u16, rid: u16, reqLen: u32, rspLen: u32) {
      && head < |s.q.desc| && rid < |s.q.desc|
      && s.q.desc[head] == Desc(reqAddr, reqLen, 1, rid) && s.q.desc[rid] == Desc(rspAddr, rspLen, 2, 0)
    }

    /** The device's turn: it reads the avail ring and the table, answers the
        request into the response buffer and returns the chain. */
    method DeviceServes(serve: seq<u8> -> seq<u8>, ghost s0: Sys, ghost head: u16, ghost rid: u16, ghost req: seq<u8>, ghost rspLen: u32)
      requires |req| <= REQ_BYTES && rspLen <= RSP_BYTES && reqAddr != rspAddr
      requires InStep() && During(s0, sys, head, rid, Out) && Described(sys, head, rid, |req|, rspLen)
      requires reqBuf[..|req|] == req
      modifies this`sys, this`devAvail, controlq`usedIdx, controlq.usedRing, rspBuf
      ensures InStep() && During(s0, sys, head, rid, Served)
      ensures var n := Min(|serve(req)|, rspLen);
        LenOf(s0, sys) == n && rspBuf[..n] == serve(req)[..n]
    {
      hide Slot, FreeListOk, ChainsOk, AvailOk, UsedOk, RingSize, During, Quiet, DeviceWalk, Apply, DevicePost, LenOf, Enabled, Inv;
      Serves(s0, sys, head, rid, Min(|serve(req)|, rspLen));
      SlotIsMod(devAvail, controlq.size);
      var first := controlq.availRing[devAvail % controlq.size];
      var n := Answer(first, serve, rid, req, rspLen);
      Serves(s0, sys, head, rid, n);
      ReturnChain(UsedElem(first, n));
      devAvail := (devAvail + 1) % 0x1_0000;
      sys := Apply(Apply(sys, Take), Post(|s0.chains|, n));
    }

    method ReturnChain(e: UsedElem)
      requires controlq.Valid()
      modifies controlq`usedIdx, controlq.usedRing
      ensures controlq.Valid() && controlq.State() == DevicePost(old(controlq.State()), e)
    {
      SlotIsMod(controlq.usedIdx, controlq.size);
      controlq.usedRing[controlq.usedIdx % controlq.size] := e;
      controlq.usedIdx := (controlq.usedIdx + 1) % 0x1_0000;
    }

    /** The device follows the chain to the two buffers it knows and answers into
        the one it may write. */
    method Answer(first: u16, serve: seq<u8> -> seq<u8>, ghost rid: u16, ghost req: seq<u8>, ghost rspLen: u32) returns (n: u32)
      requires controlq.Valid() && reqBuf.Length == REQ_BYTES && rspBuf.Length == RSP_BYTES && reqBuf != rspBuf
      requires first < controlq.size && rid < controlq.size && reqAddr != rspAddr
      requires |req| <= REQ_BYTES && rspLen <= RSP_BYTES && reqBuf[..|req|] == req
      requires controlq.desc[first] == Desc(reqAddr, |req|, F_NEXT, rid) && controlq.desc[rid] == Desc(rspAddr, rspLen, F_WRITE, 0)
      modifies rspBuf
      ensures n == Min(|serve(req)|, rspLen) && rspBuf[..n] == serve(req)[..n]
    {
      var d := controlq.desc[first];
      var e := controlq.desc[d.next];
      n := 0;
      if d.addr == reqAddr && e.addr == rspAddr && e.flags == F_WRITE {
        var reply := serve(reqBuf[..d.len]);
        n := if |reply| < e.len then |reply| else e.len;
        for i := 0 to n
          invariant rspBuf[..i] == reply[..i]
        {
          rspBuf[i] := reply[i];
        }
      }
    }

    /** gpu_cmd_sync, with the device answering after `polls` polls of the used
        ring. The caller may give a response area or not. With two descriptors
        free the caller gets the device's answer; the free list is afterwards
        what it was, so the next command finds the same two descriptors. */
    method CmdSync(req: seq<u8>, rsp: Option<seq<u8>>, rspLen: u32, serve: seq<u8> -> seq<u8>, polls: nat)
      returns (ok: bool, out: Option<seq<u8>>)
      requires Valid() && |req| <= REQ_BYTES && rspLen <= RSP_BYTES && reqAddr != rspAddr
      requires rsp.Some? ==> |rsp.value| == rspLen
      modifies Repr()
      ensures Valid() && sys.free == old(sys.free) && sys.owner == old(sys.owner)
      ensures controlq.numFree == old(controlq.numFree) && controlq.freeHead == old(controlq.freeHead)
      ensures out.Some? <==> rsp.Some?
      ensures old(controlq.numFree) >= 2 && rsp.Some? ==>
        out.value == Response(rsp.value, serve(req)) && ok == Accepted(out.value)
      ensures old(controlq.numFree) >= 2 && rsp.Some? ==>
        |out.value| == rspLen
        && forall i :: 0 <= i < rspLen ==> out.value[i] == if i < |serve(req)| then serve(req)[i] else rsp.value[i]
      ensures old(controlq.numFree) >= 2 && rsp.None? ==> ok
      ensures old(controlq.numFree) < 2 ==> !ok && out == rsp && controlq.State() == old(controlq.State())
    {
      hide Slot, FreeListOk, ChainsOk, AvailOk, UsedOk, RingSize, During, Quiet, Described, FromLe;
      ghost var s0 := sys;
      var head, rid;
      ok, head, rid := TakeTwo();
      if !ok { return false, rsp; }
      PostCommand(req, rspLen, head, rid, s0);
      Poll(polls, head, rid, s0);
      DeviceServes(serve, s0, head, rid, req, rspLen);
      out := Finish(rsp, rspLen, serve(req), head, rid, s0);
      ok := out.None? || Accepted(out.value);
      if rsp.Some? {
        forall i | 0 <= i < rspLen
          ensures out.value[i] == if i < |serve(req)| then serve(req)[i] else rsp.value[i]
        {
          ResponseBytes(rsp.value, serve(req), i);
        }
      }
    }

    /** Polls that come too early. */
    method Poll(polls: nat, ghost head: u16, ghost rid: u16, ghost s0: Sys)
      requires InStep() && During(s0, sys, head, rid, Out)
      modifies controlq
      ensures InStep() && sys == old(sys)
    {
      hide Slot, FreeListOk, ChainsOk, AvailOk, UsedOk, RingSize, During, Quiet;
      for waited := 0 to polls
        invariant InStep()
      {
        NothingYet(s0, head, rid);
        var early, cid, clen := controlq.Pop();
      }
    }

    /** The completion is popped, the answer copied, the chain given back. */
    method Finish(rsp: Option<seq<u8>>, rspLen: u32, ghost reply: seq<u8>, head: u16, rid: u16, ghost s0: Sys)
      returns (out: Option<seq<u8>>)
      requires InStep() && During(s0, sys, head, rid, Served) && rspLen <= RSP_BYTES
      requires rsp.Some? ==> |rsp.value| == rspLen
      requires LenOf(s0, sys) == Min(|reply|, rspLen) && rspBuf[..Min(|reply|, rspLen)] == reply[..Min(|reply|, rspLen)]
      modifies this`sys, controlq, controlq.desc
      ensures Valid() && sys.free == s0.free && sys.owner == s0.owner
      ensures controlq.numFree == s0.q.numFree && controlq.freeHead == s0.q.freeHead
      ensures out == if rsp.Some? then Some(Response(rsp.value, reply)) else None
    {
      hide Slot, FreeListOk, ChainsOk, AvailOk, UsedOk, RingSize, During, Response, Quiet;
      ComesBack(s0, sys, head, rid);
      var done, cid, clen := controlq.Pop();
      out := None;
      if rsp.Some? {
        var copied := CopyOut(rsp.value, clen, reply);
        out := Some(copied);
      }
      sys := Apply(sys, Pop);
      GivesBack(s0, sys, head, rid);
      controlq.Free(rid);
      sys := Apply(sys, Release(rid));
      controlq.Free(head);
      sys := Apply(sys, Release(head));
    }

    /** Until the device has served it, a poll finds nothing. */
    lemma NothingYet(s0: Sys, head: u16, rid: u16)
      requires InStep() && During(s0, sys, head, rid, Out)
      ensures !CanPop(sys.q) && UsedPop(sys.q) == sys.q
    {
      hide Slot, FreeListOk, ChainsOk, AvailOk, UsedOk, RingSize;
      PopIsOldestPost(sys);
    }

    method CopyOut(rsp: seq<u8>, clen: u32, ghost reply: seq<u8>) returns (out: seq<u8>)
      requires |rsp| <= RSP_BYTES == rspBuf.Length && clen == Min(|reply|, |rsp|) && rspBuf[..clen] == reply[..clen]
      ensures out == Response(rsp, reply)
    {
      out := rsp;
      var n := if clen < |rsp| then clen else |rsp|;
      for i := 0 to n
        invariant |out| == |rsp| && out == rspBuf[..i] + rsp[i..]
      {
        out := out[i := rspBuf[i]];
      }
    }
  }
}
