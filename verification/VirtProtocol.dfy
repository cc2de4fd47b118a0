/** Driver and device sharing one split virtqueue (section 2.7 of virtio v1.2),
    taking steps in any order.

    `Sys` is the shared memory together with the book-keeping that says who
    owns what: the book-keeping never influences a step, it only records it. */
module VirtProtocol {
  import opened Words
  import opened VirtQueue

  /** Who may touch a descriptor. A free one carries its position in the free
      stack, one in a chain the number of the push that posted the chain. */
  datatype Owner = Free(pos: nat) | Driver | InChain(k: nat)

  /** Where the chain of push k is. A used one carries its place in the log of
      used entries. */
  datatype Stage = Posted | InDevice | Used(j: nat) | Popped

  datatype Completion = Completion(k: nat, len: u32)

  datatype Sys = Sys(
    q: Queue,
    devAvail: u16,              // the device's own 16-bit position in the avail ring
    free: seq<u16>,             // free stack, top last
    owner: seq<Owner>,
    chains: seq<seq<u16>>,      // every chain ever pushed, in order
    stage: seq<Stage>,
    taken: nat,                 // chains the device has read from the avail ring
    log: seq<Completion>,       // every entry the device ever wrote to the used ring
    popped: nat)                // entries of the log the driver has popped

  /** The chain that starts at c[0] as the driver linked it. */
  ghost predicate Linked(desc: seq<Desc>, c: seq<u16>) {
    && c != []
    && (forall i :: 0 <= i < |c| ==> c[i] < |desc|)
    && (forall i {:trigger desc[c[i]]} :: 0 <= i < |c| - 1 ==> HasNext(desc[c[i]]) && desc[c[i]].next == c[i+1])
    && !HasNext(desc[c[|c|-1]])
  }

  ghost predicate FreeListOk(s: Sys)
    requires Shaped(s.q)
  {
    && |s.owner| == s.q.size
    && |s.free| == s.q.numFree
    && (forall p :: 0 <= p < |s.free| ==> s.free[p] < s.q.size && s.owner[s.free[p]] == Free(p))
    && (forall d {:trigger s.owner[d].Free?} :: 0 <= d < |s.owner| && s.owner[d].Free? ==>
          s.owner[d].pos < |s.free| && s.free[s.owner[d].pos] == d)
    && (|s.free| > 0 ==> s.q.freeHead == s.free[|s.free|-1])
    && (forall p {:trigger s.q.desc[s.free[p]]} :: 0 < p < |s.free| ==> s.q.desc[s.free[p]].next == s.free[p-1])
  }

  ghost predicate ChainsOk(s: Sys)
    requires Shaped(s.q)
  {
    && |s.owner| == s.q.size && |s.stage| == |s.chains|
    && (forall k, i :: 0 <= k < |s.chains| && !s.stage[k].Popped? && 0 <= i < |s.chains[k]| ==>
          s.chains[k][i] < s.q.size && s.owner[s.chains[k][i]] == InChain(k))
    && (forall k :: 0 <= k < |s.chains| && !s.stage[k].Popped? ==> Linked(s.q.desc, s.chains[k]))
    && (forall d: nat {:trigger s.owner[d].InChain?} :: d < |s.owner| && s.owner[d].InChain? ==>
          && s.owner[d].k < |s.chains| && !s.stage[s.owner[d].k].Popped?
          && d in s.chains[s.owner[d].k])
  }

  /** The unread part of the avail ring. */
  ghost predicate AvailOk(s: Sys)
    requires Shaped(s.q)
  {
    && |s.stage| == |s.chains|
    && s.taken <= |s.chains|
    && s.q.availIdx == Wrap16(|s.chains|) && s.devAvail == Wrap16(s.taken)
    && (forall k :: 0 <= k < |s.chains| ==> (s.stage[k] == Posted <==> s.taken <= k))
    && (forall k :: s.taken <= k < |s.chains| ==>
          s.chains[k] != [] && s.q.availRing[Slot(k, s.q.size)] == s.chains[k][0])
  }

  /** The unpopped part of the used ring. */
  ghost predicate UsedOk(s: Sys)
    requires Shaped(s.q)
  {
    && |s.stage| == |s.chains|
    && s.popped <= |s.log|
    && s.q.usedIdx == Wrap16(|s.log|) && s.q.lastUsedIdx == Wrap16(s.popped)
    && (forall k {:trigger s.stage[k].Used?} :: 0 <= k < |s.stage| && s.stage[k].Used? ==>
          s.popped <= s.stage[k].j < |s.log| && s.log[s.stage[k].j].k == k)
    && (forall j :: s.popped <= j < |s.log| ==>
          && s.log[j].k < |s.chains| && s.stage[s.log[j].k] == Used(j)
          && s.chains[s.log[j].k] != []
          && s.q.usedRing[Slot(j, s.q.size)] == UsedElem(s.chains[s.log[j].k][0], s.log[j].len))
  }

  ghost predicate Inv(s: Sys) {
    Shaped(s.q) && FreeListOk(s) && ChainsOk(s) && AvailOk(s) && UsedOk(s)
  }

  // ---------------------------------------------------------------- steps

  /** What driver and device can do. Fill is the driver writing an entry of
      the table; a chain is pushed once its entries are linked. */
  datatype Step =
    | Alloc
    | Fill(d: u16, x: Desc)
    | Push(chain: seq<u16>)
    | Pop
    | Release(d: u16)
    | Take
    | Post(k: nat, len: u32)

  ghost predicate Held(s: Sys, d: u16) { d < |s.owner| && s.owner[d] == Driver }

  /** The rules of the interface: the driver touches what it holds, the device
      returns only chains it has. */
  ghost predicate Enabled(s: Sys, t: Step) {
    match t
    case Alloc => true
    case Fill(d, _) => Held(s, d)
    case Push(c) => Linked(s.q.desc, c) && forall i :: 0 <= i < |c| ==> Held(s, c[i])
    case Pop => true
    case Release(d) => Held(s, d)
    case Take => true
    case Post(k, _) => k < |s.stage| && s.stage[k] == InDevice
  }

  function SetOwner(owner: seq<Owner>, c: seq<u16>, o: Owner): (r: seq<Owner>)
    ensures |r| == |owner|
  {
    seq(|owner|, d requires 0 <= d < |owner| => if d in c then o else owner[d])
  }

  ghost function AllocStep(s: Sys): Sys
    requires |s.free| > 0 && s.q.freeHead < |s.owner| == |s.q.desc|
  {
    s.(q := AllocDesc(s.q).0, free := s.free[..|s.free|-1], owner := s.owner[s.q.freeHead := Driver])
  }

  ghost function PushStep(s: Sys, c: seq<u16>): Sys
    requires Shaped(s.q) && c != []
  {
    s.(q := AvailPush(s.q, c[0]),
       owner := SetOwner(s.owner, c, InChain(|s.chains|)),
       chains := s.chains + [c],
       stage := s.stage + [Posted])
  }

  ghost function PopStep(s: Sys, k: nat): Sys
    requires k < |s.chains| == |s.stage|
  {
    s.(q := UsedPop(s.q),
       owner := SetOwner(s.owner, s.chains[k], Driver),
       stage := s.stage[k := Popped],
       popped := s.popped + 1)
  }

  ghost function TakeStep(s: Sys): Sys
    requires s.taken < |s.stage|
  {
    s.(devAvail := Wrap16(s.devAvail + 1), stage := s.stage[s.taken := InDevice], taken := s.taken + 1)
  }

  ghost function PostStep(s: Sys, k: nat, len: u32): Sys
    requires Shaped(s.q) && k < |s.chains| == |s.stage| && s.chains[k] != []
  {
    s.(q := DevicePost(s.q, UsedElem(s.chains[k][0], len)),
       stage := s.stage[k := Used(|s.log|)],
       log := s.log + [Completion(k, len)])
  }

  ghost function Apply(s: Sys, t: Step): Sys
    requires Inv(s) && Enabled(s, t)
  {
    match t
    case Alloc =>
      if s.q.numFree == 0 then s else AllocStep(s)
    case Fill(d, x) => s.(q := FillDesc(s.q, d, x))
    case Push(c) => PushStep(s, c)
    case Pop => if CanPop(s.q) && s.popped < |s.log| then PopStep(s, s.log[s.popped].k) else s
    case Release(d) =>
      s.(q := FreeDesc(s.q, d), free := s.free + [d], owner := s.owner[d := Free(|s.free|)])
    case Take => if s.q.availIdx != s.devAvail && s.taken < |s.chains| then TakeStep(s) else s
    case Post(k, len) => PostStep(s, k, len)
  }

  /** The device writes one entry of the used ring and advances its index. */
  function DevicePost(q: Queue, e: UsedElem): Queue
    requires 0 < q.size == |q.usedRing|
  {
    q.(usedRing := q.usedRing[Slot(q.usedIdx, q.size) := e], usedIdx := Wrap16(q.usedIdx + 1))
  }

  /** The entry of the avail ring the device reads next. */
  function AvailEntry(q: Queue, devAvail: u16): u16
    requires 0 < q.size == |q.availRing|
  {
    q.availRing[Slot(devAvail, q.size)]
  }

  // ------------------------------------------------- ring capacity

  /** Chains waiting in the avail ring have different heads, so there are at
      most `size` of them. */
  lemma AvailFits(s: Sys)
    requires Inv(s)
    ensures |s.chains| - s.taken <= s.q.size
    ensures (exists d: u16 :: Held(s, d)) ==> |s.chains| - s.taken < s.q.size
  {
    hide Slot, FreeListOk, UsedOk, RingSize;
    var n := |s.chains| - s.taken;
    var heads := seq(n, i requires 0 <= i < n => s.chains[s.taken + i][0] as nat);
    HeadsDistinct(s, heads, seq(n, i requires 0 <= i < n => s.taken + i));
    if d: u16 :| Held(s, d) {
      HeadsWithHeld(s, heads, seq(n, i requires 0 <= i < n => s.taken + i), d);
    }
  }

  ghost predicate AreHeads(s: Sys, heads: seq<nat>, ks: seq<nat>)
    requires Inv(s)
  {
    && |heads| == |ks|
    && (forall i :: 0 <= i < |ks| ==> ks[i] < |s.chains| && !s.stage[ks[i]].Popped?)
    && (forall i :: 0 <= i < |ks| ==> heads[i] == s.chains[ks[i]][0])
    && (forall i, j :: 0 <= i < j < |ks| ==> ks[i] != ks[j])
  }

  lemma HeadsDistinct(s: Sys, heads: seq<nat>, ks: seq<nat>)
    requires Inv(s) && AreHeads(s, heads, ks)
    ensures |heads| <= s.q.size
  {
    forall i | 0 <= i < |heads| ensures heads[i] < s.q.size && s.owner[heads[i]] == InChain(ks[i]) {
      assert s.chains[ks[i]][0] < s.q.size;
    }
    Pigeonhole(heads, s.q.size);
  }

  lemma HeadsWithHeld(s: Sys, heads: seq<nat>, ks: seq<nat>, d: u16)
    requires Inv(s) && AreHeads(s, heads, ks) && Held(s, d)
    ensures |heads| < s.q.size
  {
    forall i | 0 <= i < |heads| ensures heads[i] < s.q.size && s.owner[heads[i]] == InChain(ks[i]) {
      assert s.chains[ks[i]][0] < s.q.size;
    }
    Pigeonhole(heads + [d], s.q.size);
  }

  /** Likewise for the used ring: a chain the device still has is not in it. */
  lemma UsedFits(s: Sys)
    requires Inv(s)
    ensures |s.log| - s.popped <= s.q.size
  {
    hide Slot, FreeListOk, AvailOk;
    var n := |s.log| - s.popped;
    var ks := seq(n, i requires 0 <= i < n => s.log[s.popped + i].k);
    var heads := seq(n, i requires 0 <= i < n => s.chains[ks[i]][0] as nat);
    WaitingHeads(s, ks, heads);
    HeadsDistinct(s, heads, ks);
  }

  lemma UsedFitsWith(s: Sys, k: nat)
    requires Inv(s) && k < |s.stage| && s.stage[k] == InDevice
    ensures |s.log| - s.popped < s.q.size
  {
    hide Slot, FreeListOk, AvailOk;
    var n := |s.log| - s.popped;
    var ks := seq(n, i requires 0 <= i < n => s.log[s.popped + i].k);
    var heads := seq(n, i requires 0 <= i < n => s.chains[ks[i]][0] as nat);
    WaitingHeads(s, ks, heads);
    var ks', heads' := ks + [k], heads + [s.chains[k][0] as nat];
    assert forall i, j :: 0 <= i < j < |ks'| ==> ks'[i] != ks'[j];
    HeadsDistinct(s, heads', ks');
  }

  lemma WaitingHeads(s: Sys, ks: seq<nat>, heads: seq<nat>)
    requires Inv(s) && |ks| == |heads| == |s.log| - s.popped
    requires forall i :: 0 <= i < |ks| ==> ks[i] == s.log[s.popped + i].k
    requires forall i :: 0 <= i < |ks| ==> heads[i] == s.chains[ks[i]][0]
    ensures AreHeads(s, heads, ks)
    ensures forall i :: 0 <= i < |ks| ==> s.stage[ks[i]] == Used(s.popped + i)
  {
    hide Slot, FreeListOk, AvailOk;
    forall i | 0 <= i < |ks|
      ensures ks[i] < |s.chains| && s.stage[ks[i]] == Used(s.popped + i)
    {
      assert s.log[s.popped + i].k == ks[i];
    }
  }

  /** The 16-bit indices compare equal exactly when nothing is unread. */
  lemma WrapInjective(i: nat, j: nat)
    requires i <= j < i + 0x1_0000
    ensures Wrap16(i) == Wrap16(j) <==> i == j
  {
  }

  lemma RingSlot(i: nat, n: nat)
    requires RingSize(n)
    ensures Slot(Wrap16(i), n) == Slot(i, n)
  {
    RingSizeDivides(n);
    WrappedSlot(i, n);
  }

  // ------------------------------------------------- every step keeps Inv

  lemma AllocFreeList(s: Sys)
    requires Shaped(s.q) && FreeListOk(s) && |s.free| > 0
    ensures FreeListOk(AllocStep(s))
  {
    var d := s.q.freeHead;
    assert s.owner[d] == Free(|s.free| - 1);
    assert s.q.desc[s.free[|s.free|-1]] == s.q.desc[d];
  }

  lemma AllocChains(s: Sys)
    requires Shaped(s.q) && FreeListOk(s) && ChainsOk(s) && |s.free| > 0
    ensures ChainsOk(AllocStep(s))
  {
    assert s.owner[s.q.freeHead] == Free(|s.free| - 1);
  }

  lemma AllocKeepsInv(s: Sys)
    requires Inv(s)
    ensures Inv(Apply(s, Alloc))
  {
    if s.q.numFree > 0 {
      AllocFreeList(s);
      AllocChains(s);
    }
  }

  lemma FillKeepsInv(s: Sys, d: u16, x: Desc)
    requires Inv(s) && Enabled(s, Fill(d, x))
    ensures Inv(Apply(s, Fill(d, x)))
  {
    var s' := Apply(s, Fill(d, x));
    assert FreeListOk(s');
    forall k | 0 <= k < |s.chains| && !s.stage[k].Popped? ensures Linked(s'.q.desc, s'.chains[k]) {
      assert forall i :: 0 <= i < |s.chains[k]| ==> s.chains[k][i] != d;
    }
  }

  lemma ReleaseKeepsInv(s: Sys, d: u16)
    requires Inv(s) && Enabled(s, Release(d))
    ensures Inv(Apply(s, Release(d)))
  {
    FreeBelowSize(s, d);
    var s' := Apply(s, Release(d));
    assert FreeListOk(s');
    forall k | 0 <= k < |s.chains| && !s.stage[k].Popped? ensures Linked(s'.q.desc, s'.chains[k]) {
      assert forall i :: 0 <= i < |s.chains[k]| ==> s.chains[k][i] != d;
    }
  }

  lemma FreeBelowSize(s: Sys, d: u16)
    requires Inv(s) && Held(s, d)
    ensures s.q.numFree < s.q.size
  {
    var xs := seq(|s.free|, i requires 0 <= i < |s.free| => s.free[i] as nat) + [d];
    Pigeonhole(xs, s.q.size);
  }

  lemma PushFreeList(s: Sys, c: seq<u16>)
    requires Shaped(s.q) && FreeListOk(s) && c != []
    requires forall i :: 0 <= i < |c| ==> Held(s, c[i])
    ensures FreeListOk(PushStep(s, c))
  {
    var s' := PushStep(s, c);
    forall p | 0 <= p < |s.free| ensures s'.owner[s.free[p]] == Free(p) {
      assert s.free[p] !in c;
    }
  }

  lemma PushChains(s: Sys, c: seq<u16>)
    requires Shaped(s.q) && ChainsOk(s) && Linked(s.q.desc, c)
    requires forall i :: 0 <= i < |c| ==> Held(s, c[i])
    ensures ChainsOk(PushStep(s, c))
  {
    var s', n := PushStep(s, c), |s.chains|;
    forall k, i | 0 <= k < |s'.chains| && !s'.stage[k].Popped? && 0 <= i < |s'.chains[k]|
      ensures s'.chains[k][i] < s.q.size && s'.owner[s'.chains[k][i]] == InChain(k)
    {
      if k < n {
        var d := s.chains[k][i];
        assert s.owner[d] == InChain(k);
        assert d !in c;
      } else {
        assert c[i] in c;
      }
    }
  }

  lemma PushAvail(s: Sys, c: seq<u16>)
    requires Shaped(s.q) && AvailOk(s) && c != []
    requires |s.chains| - s.taken < s.q.size
    ensures AvailOk(PushStep(s, c))
  {
    hide Slot, RingSize;
    var s', n := PushStep(s, c), |s.chains|;
    RingSlot(n, s.q.size);
    forall k | s.taken <= k < n ensures s'.q.availRing[Slot(k, s.q.size)] == s.chains[k][0] {
      SlotsDiffer(k, n, s.q.size);
    }
  }

  lemma PushUsed(s: Sys, c: seq<u16>)
    requires Shaped(s.q) && UsedOk(s) && c != []
    ensures UsedOk(PushStep(s, c))
  {}

  lemma PushKeepsInv(s: Sys, c: seq<u16>)
    requires Inv(s) && Enabled(s, Push(c))
    ensures Inv(Apply(s, Push(c)))
  {
    assert Held(s, c[0]);
    AvailFits(s);
    PushFreeList(s, c);
    PushChains(s, c);
    PushAvail(s, c);
    PushUsed(s, c);
  }

  lemma PopFreeList(s: Sys, k: nat)
    requires Shaped(s.q) && FreeListOk(s) && ChainsOk(s)
    requires k < |s.chains| && !s.stage[k].Popped?
    ensures FreeListOk(PopStep(s, k))
  {
    var s' := PopStep(s, k);
    forall p | 0 <= p < |s.free| ensures s'.owner[s.free[p]] == Free(p) {
      assert s.free[p] !in s.chains[k];
    }
  }

  lemma PopChains(s: Sys, k: nat)
    requires Shaped(s.q) && ChainsOk(s)
    requires k < |s.chains| && !s.stage[k].Popped?
    ensures ChainsOk(PopStep(s, k))
  {
    var s' := PopStep(s, k);
    forall k', i | 0 <= k' < |s.chains| && !s'.stage[k'].Popped? && 0 <= i < |s.chains[k']|
      ensures s.chains[k'][i] < s.q.size && s'.owner[s.chains[k'][i]] == InChain(k')
    {
      assert s.owner[s.chains[k'][i]] == InChain(k');
      assert s.chains[k'][i] !in s.chains[k];
    }
  }

  lemma PopUsed(s: Sys)
    requires Shaped(s.q) && UsedOk(s) && s.popped < |s.log| && CanPop(s.q)
    ensures UsedOk(PopStep(s, s.log[s.popped].k))
  {
    assert s.stage[s.log[s.popped].k] == Used(s.popped);
  }

  lemma PopKeepsInv(s: Sys)
    requires Inv(s)
    ensures CanPop(s.q) <==> s.popped < |s.log|
    ensures Inv(Apply(s, Pop))
  {
    UsedFits(s);
    WrapInjective(s.popped, |s.log|);
    if CanPop(s.q) {
      var k := s.log[s.popped].k;
      assert s.stage[k] == Used(s.popped);
      PopFreeList(s, k);
      PopChains(s, k);
      PopUsed(s);
    }
  }

  lemma TakeChains(s: Sys)
    requires Shaped(s.q) && ChainsOk(s) && AvailOk(s) && s.taken < |s.chains|
    ensures ChainsOk(TakeStep(s)) && AvailOk(TakeStep(s))
  {}

  lemma TakeUsed(s: Sys)
    requires Shaped(s.q) && UsedOk(s) && AvailOk(s) && s.taken < |s.chains|
    ensures UsedOk(TakeStep(s))
  {
    assert s.stage[s.taken] == Posted;
  }

  lemma TakeKeepsInv(s: Sys)
    requires Inv(s)
    ensures s.q.availIdx == s.devAvail <==> s.taken == |s.chains|
    ensures Inv(Apply(s, Take))
  {
    AvailFits(s);
    WrapInjective(s.taken, |s.chains|);
    if s.taken < |s.chains| {
      TakeChains(s);
      TakeUsed(s);
    }
  }

  lemma PostChains(s: Sys, k: nat, len: u32)
    requires Shaped(s.q) && ChainsOk(s) && FreeListOk(s) && AvailOk(s)
    requires k < |s.chains| && s.stage[k] == InDevice
    ensures var s' := PostStep(s, k, len); ChainsOk(s') && FreeListOk(s') && AvailOk(s')
  {
    assert s.chains[k] != [];
  }

  lemma PostUsed(s: Sys, k: nat, len: u32)
    requires Shaped(s.q) && UsedOk(s) && |s.log| - s.popped < s.q.size
    requires k < |s.chains| && s.stage[k] == InDevice && s.chains[k] != []
    ensures UsedOk(PostStep(s, k, len))
  {
    hide Slot, RingSize;
    var s', n := PostStep(s, k, len), |s.log|;
    RingSlot(n, s.q.size);
    forall j | s.popped <= j < n
      ensures s'.log[j] == s.log[j] && s.log[j].k != k
      ensures s'.q.usedRing[Slot(j, s.q.size)] == s.q.usedRing[Slot(j, s.q.size)]
    {
      assert s.stage[s.log[j].k] == Used(j);
      SlotsDiffer(j, n, s.q.size);
    }
    assert s'.log[n] == Completion(k, len);
  }

  lemma PostKeepsInv(s: Sys, k: nat, len: u32)
    requires Inv(s) && Enabled(s, Post(k, len))
    ensures Inv(Apply(s, Post(k, len)))
  {
    UsedFitsWith(s, k);
    PostChains(s, k, len);
    PostUsed(s, k, len);
  }
}
