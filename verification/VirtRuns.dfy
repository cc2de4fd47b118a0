/** What holds in every run of VirtProtocol, in terms a user of the queue sees:
    the descriptor table, the two rings, and the values popped. */
module VirtRuns {
  import opened Words
  import opened VirtQueue
  import opened VirtProtocol

  /** The queue right after setup: every descriptor free, both rings empty. */
  ghost function InitialSys(size: u16): (s: Sys)
    requires RingSize(size)
    ensures Inv(s)
  {
    var s := Sys(InitialQueue(size), 0,
                 seq(size, i requires 0 <= i < size => Wrap16(size - 1 - i)),
                 seq(size, d requires 0 <= d < size => Free(size - 1 - d)),
                 [], [], 0, [], 0);
    InitialInv(s);
    s
  }

  lemma InitialInv(s: Sys)
    requires RingSize(s.q.size) && s.q == InitialQueue(s.q.size)
    requires |s.free| == |s.owner| == s.q.size
    requires forall i :: 0 <= i < s.q.size ==> s.free[i] == s.q.size - 1 - i
    requires forall d :: 0 <= d < s.q.size ==> s.owner[d] == Free(s.q.size - 1 - d)
    requires s.chains == [] && s.stage == [] && s.log == [] && s.taken == 0 && s.popped == 0 && s.devAvail == 0
    ensures Inv(s)
  {
    assert s.q.size > 0;
    hide RingSize, FreeListOk, Slot;
    assert forall i :: 0 <= i < s.q.size - 1 ==> s.q.desc[i].next == i + 1;
    assert |s.q.desc| == |s.q.availRing| == |s.q.usedRing| == s.q.size;
    InitialFreeList(s);
  }

  lemma InitialFreeList(s: Sys)
    requires Shaped(s.q) && forall i :: 0 <= i < s.q.size - 1 ==> s.q.desc[i].next == i + 1
    requires s.q.freeHead == 0 && s.q.numFree == s.q.size && |s.free| == |s.owner| == s.q.size
    requires forall i :: 0 <= i < s.q.size ==> s.free[i] == s.q.size - 1 - i
    requires forall d :: 0 <= d < s.q.size ==> s.owner[d] == Free(s.q.size - 1 - d)
    ensures FreeListOk(s)
  {
    hide RingSize;
    forall p | 0 < p < |s.free| ensures s.q.desc[s.free[p]].next == s.free[p-1] {
      assert s.free[p] + 1 == s.free[p-1] < s.q.size;
    }
  }

  lemma ApplyKeepsInv(s: Sys, t: Step)
    requires Inv(s) && Enabled(s, t)
    ensures Inv(Apply(s, t))
  {
    match t
    case Alloc => AllocKeepsInv(s);
    case Fill(d, x) => FillKeepsInv(s, d, x);
    case Push(c) => PushKeepsInv(s, c);
    case Pop => PopKeepsInv(s);
    case Release(d) => ReleaseKeepsInv(s, d);
    case Take => TakeKeepsInv(s);
    case Post(k, len) => PostKeepsInv(s, k, len);
  }

  /** The steps, taken in this order, all obey the rules of the interface. */
  ghost predicate Legal(s: Sys, run: seq<Step>)
    requires Inv(s)
    decreases run
  {
    run != [] ==>
      Enabled(s, run[0]) && (ApplyKeepsInv(s, run[0]); Legal(Apply(s, run[0]), run[1..]))
  }

  ghost function After(s: Sys, run: seq<Step>): (r: Sys)
    requires Inv(s) && Legal(s, run)
    ensures Inv(r)
    decreases run
  {
    if run == [] then s
    else ApplyKeepsInv(s, run[0]); After(Apply(s, run[0]), run[1..])
  }

  // -------------------------------------------------- ownership partition

  /** The descriptors met by following `next` n times from `head`. */
  function FreeWalk(desc: seq<Desc>, head: u16, n: nat): seq<u16>
    decreases n
  {
    if n == 0 then []
    else if head >= |desc| then [head]
    else [head] + FreeWalk(desc, desc[head].next, n - 1)
  }

  ghost predicate InStage(s: Sys, d: u16, used: bool)
    requires Inv(s)
  {
    exists k :: 0 <= k < |s.chains| && !s.stage[k].Popped? && s.stage[k].Used? == used && d in s.chains[k]
  }

  lemma {:induction false} FreeWalkIs(s: Sys, n: nat)
    requires Inv(s) && n <= |s.free|
    ensures n > 0 ==> FreeWalk(s.q.desc, s.free[n-1], n) == seq(n, i requires 0 <= i < n => s.free[n-1-i])
  {
    if n > 1 {
      FreeWalkIs(s, n - 1);
      assert s.q.desc[s.free[n-1]].next == s.free[n-2];
    }
  }

  /** The walk meets each free descriptor once and no other. */
  lemma FreeWalkOwns(s: Sys)
    requires Inv(s)
    ensures var w := FreeWalk(s.q.desc, s.q.freeHead, s.q.numFree);
      && |w| == s.q.numFree && |s.owner| == s.q.size
      && (forall i, j :: 0 <= i < j < |w| ==> w[i] != w[j])
      && (forall d: u16 :: d in w ==> d < s.q.size)
      && (forall d: u16 :: d < s.q.size ==> (d in w <==> s.owner[d].Free?))
  {
    hide Slot, ChainsOk, AvailOk, UsedOk, RingSize;
    var n := |s.free|;
    var w := FreeWalk(s.q.desc, s.q.freeHead, s.q.numFree);
    FreeWalkIs(s, n);
    assert |w| == n && forall i :: 0 <= i < n ==> w[i] == s.free[n-1-i];
    forall i, j | 0 <= i < j < |w| ensures w[i] != w[j] {
      assert s.owner[w[i]] == Free(n - 1 - i) && s.owner[w[j]] == Free(n - 1 - j);
    }
    forall d: u16 | d < s.q.size ensures d in w <==> s.owner[d].Free? {
      if s.owner[d].Free? {
        assert w[n - 1 - s.owner[d].pos] == d;
      }
    }
  }

  /** Walking the free list from free_head for num_free nodes never meets a
      descriptor twice, and each descriptor is in exactly one of: that walk,
      the driver's hands, a chain on its way to or at the device, a used chain
      not yet popped. */
  lemma OwnershipPartition(s: Sys)
    requires Inv(s)
    ensures var w := FreeWalk(s.q.desc, s.q.freeHead, s.q.numFree);
      && |w| == s.q.numFree
      && (forall i, j :: 0 <= i < j < |w| ==> w[i] != w[j])
      && (forall d: u16 :: d in w ==> d < s.q.size)
      && (forall d: u16 {:trigger Held(s, d)} :: d < s.q.size ==>
            && (d in w ==> !Held(s, d) && !InStage(s, d, false) && !InStage(s, d, true))
            && (Held(s, d) ==> !InStage(s, d, false) && !InStage(s, d, true))
            && !(InStage(s, d, false) && InStage(s, d, true))
            && (d in w || Held(s, d) || InStage(s, d, false) || InStage(s, d, true)))
  {
    hide Slot, AvailOk, UsedOk, FreeListOk, FreeWalk, RingSize, Linked, InStage;
    FreeWalkOwns(s);
    forall d: u16 | d < s.q.size
      ensures InStage(s, d, false) || InStage(s, d, true) <==> s.owner[d].InChain?
      ensures !(InStage(s, d, false) && InStage(s, d, true))
    {
      StageOwner(s, d, false);
      StageOwner(s, d, true);
      if s.owner[d].InChain? { OwnerStage(s, d); }
    }
  }

  lemma StageOwner(s: Sys, d: u16, used: bool)
    requires Inv(s) && d < s.q.size
    ensures InStage(s, d, used) ==> s.owner[d].InChain? && s.stage[s.owner[d].k].Used? == used
  {
    if InStage(s, d, used) {
      var k :| 0 <= k < |s.chains| && !s.stage[k].Popped? && s.stage[k].Used? == used && d in s.chains[k];
      var i :| 0 <= i < |s.chains[k]| && s.chains[k][i] == d;
      assert s.owner[s.chains[k][i]] == InChain(k);
    }
  }

  lemma OwnerStage(s: Sys, d: u16)
    requires Inv(s) && d < |s.owner| && s.owner[d].InChain?
    ensures InStage(s, d, false) || InStage(s, d, true)
  {
    var k := s.owner[d].k;
    assert !s.stage[k].Popped? && d in s.chains[k];
    assert InStage(s, d, s.stage[k].Used?);
  }

  // -------------------------------------------------- what the device reads

  /** The chain a device finds from `head`, reading at most `fuel` entries. */
  function DeviceWalk(desc: seq<Desc>, head: u16, fuel: nat): seq<u16>
    decreases fuel
  {
    if fuel == 0 || head >= |desc| then []
    else if HasNext(desc[head]) then [head] + DeviceWalk(desc, desc[head].next, fuel - 1)
    else [head]
  }

  lemma {:induction false} LinkedDistinct(desc: seq<Desc>, c: seq<u16>, i: nat, j: nat)
    requires Linked(desc, c) && i < j < |c|
    ensures c[i] != c[j]
    decreases |c| - j
  {
    if j < |c| - 1 {
      LinkedDistinct(desc, c, i + 1, j + 1);
      assert desc[c[i]].next == c[i+1] && desc[c[j]].next == c[j+1];
    } else {
      assert HasNext(desc[c[i]]);
    }
  }

  lemma {:induction false} WalkFinds(desc: seq<Desc>, c: seq<u16>, fuel: nat)
    requires Linked(desc, c) && |c| <= fuel
    ensures DeviceWalk(desc, c[0], fuel) == c
    decreases |c|
  {
    if |c| > 1 {
      assert Linked(desc, c[1..]);
      WalkFinds(desc, c[1..], fuel - 1);
    }
  }

  /** From any chain that is posted, at the device or used, a device reading
      the table finds what the driver linked: nothing else wrote to it since. */
  lemma ChainsStayIntact(s: Sys, k: nat)
    requires Inv(s) && k < |s.chains| && !s.stage[k].Popped?
    ensures DeviceWalk(s.q.desc, s.chains[k][0], s.q.size) == s.chains[k]
  {
    var c := s.chains[k];
    forall i, j | 0 <= i < j < |c| ensures c[i] != c[j] {
      LinkedDistinct(s.q.desc, c, i, j);
    }
    Pigeonhole(seq(|c|, i requires 0 <= i < |c| => c[i] as nat), s.q.size);
    WalkFinds(s.q.desc, c, s.q.size);
  }

  /** When the device's 16-bit position differs from avail.idx, the slot it
      selects holds the oldest chain not yet taken; when they are equal there
      is none. */
  lemma TakeIsOldestPush(s: Sys)
    requires Inv(s)
    ensures s.q.availIdx == s.devAvail <==> s.taken == |s.chains|
    ensures s.taken < |s.chains| ==> AvailEntry(s.q, s.devAvail) == s.chains[s.taken][0]
  {
    TakeKeepsInv(s);
    RingSlot(s.taken, s.q.size);
  }

  /** Likewise virtq_used_pop: it succeeds exactly when the device has posted
      an entry not popped yet, and returns the oldest such entry. */
  lemma PopIsOldestPost(s: Sys)
    requires Inv(s)
    ensures CanPop(s.q) <==> s.popped < |s.log|
    ensures CanPop(s.q) ==> PopElem(s.q) == Entry(s.chains, s.log[s.popped])
  {
    PopKeepsInv(s);
    RingSlot(s.popped, s.q.size);
  }

  /** The used entry that completes chain c.k. */
  function Entry(chains: seq<seq<u16>>, c: Completion): UsedElem {
    UsedElem(if c.k < |chains| && chains[c.k] != [] then chains[c.k][0] else 0, c.len)
  }

  // -------------------------------------------------- whole runs

  /** What one step posts, and what it pops. */
  ghost function Posted(s: Sys, t: Step): seq<UsedElem>
    requires Inv(s) && Enabled(s, t)
  {
    if t.Post? then [UsedElem(s.chains[t.k][0], t.len)] else []
  }

  ghost function Popped(s: Sys, t: Step): seq<UsedElem>
    requires Inv(s) && Enabled(s, t)
  {
    if t == Pop && CanPop(s.q) then [PopElem(s.q)] else []
  }

  /** The entries the successful pops of a run return, in order. */
  ghost function Pops(s: Sys, run: seq<Step>): seq<UsedElem>
    requires Inv(s) && Legal(s, run)
    decreases run
  {
    if run == [] then []
    else
      ApplyKeepsInv(s, run[0]);
      Popped(s, run[0]) + Pops(Apply(s, run[0]), run[1..])
  }

  /** The entries the device writes in a run, in order. */
  ghost function Posts(s: Sys, run: seq<Step>): seq<UsedElem>
    requires Inv(s) && Legal(s, run)
    decreases run
  {
    if run == [] then []
    else
      ApplyKeepsInv(s, run[0]);
      Posted(s, run[0]) + Posts(Apply(s, run[0]), run[1..])
  }

  /** The entries in the used ring that wait to be popped. */
  ghost function Waiting(s: Sys): seq<UsedElem>
    requires s.popped <= |s.log|
  {
    Entries(s.chains, s.log[s.popped..])
  }

  ghost function Entries(chains: seq<seq<u16>>, log: seq<Completion>): (r: seq<UsedElem>)
    ensures |r| == |log|
    ensures forall i :: 0 <= i < |log| ==> r[i] == Entry(chains, log[i])
  {
    seq(|log|, i requires 0 <= i < |log| => Entry(chains, log[i]))
  }

  lemma StepConserves(s: Sys, t: Step)
    requires Inv(s) && Enabled(s, t) && Inv(Apply(s, t))
    ensures Waiting(s) + Posted(s, t) == Popped(s, t) + Waiting(Apply(s, t))
  {
    hide Slot, RingSize, FreeListOk, ChainsOk, AvailOk, Linked;
    PopIsOldestPost(s);
    var s' := Apply(s, t);
    match t
    case Pop =>
      if CanPop(s.q) { PopConserves(s, s'); } else { SameWaiting(s, s'); }
    case Post(k, len) =>
      ChainNotEmpty(s, k);
      PostConserves(s, s', k, len);
    case _ => SameWaiting(s, s');
  }

  lemma ChainNotEmpty(s: Sys, k: nat)
    requires Inv(s) && k < |s.stage| && s.stage[k] == InDevice
    ensures k < |s.chains| && s.chains[k] != []
  {
    hide Slot, FreeListOk, UsedOk;
  }

  lemma PopConserves(s: Sys, s': Sys)
    requires s.popped < |s.log| && s'.popped == s.popped + 1
    requires s'.log == s.log && s'.chains == s.chains
    ensures Waiting(s) == [Entry(s.chains, s.log[s.popped])] + Waiting(s')
  {}

  lemma PostConserves(s: Sys, s': Sys, k: nat, len: u32)
    requires s.popped <= |s.log| && k < |s.chains| && s.chains[k] != []
    requires s'.log == s.log + [Completion(k, len)] && s'.chains == s.chains && s'.popped == s.popped
    ensures Waiting(s) + [UsedElem(s.chains[k][0], len)] == Waiting(s')
  {}

  lemma SameWaiting(s: Sys, s': Sys)
    requires s.popped <= |s.log| && s'.log == s.log && s'.popped == s.popped && s.chains <= s'.chains
    requires forall j :: s.popped <= j < |s.log| ==> s.log[j].k < |s.chains|
    ensures Waiting(s') == Waiting(s)
  {}

  /** Nothing posted is lost, repeated or reordered, however often the 16-bit
      indices wrap: over any run, what waited before followed by what the
      device posted is what was popped followed by what still waits. */
  lemma {:induction false} PopsArePrefixOfPosts(s: Sys, run: seq<Step>)
    requires Inv(s) && Legal(s, run)
    ensures Waiting(s) + Posts(s, run) == Pops(s, run) + Waiting(After(s, run))
    decreases run
  {
    hide Slot, Enabled, Apply, Waiting, ChainsOk, FreeListOk, AvailOk, Shaped;
    if run != [] {
      ApplyKeepsInv(s, run[0]);
      var s1 := Apply(s, run[0]);
      StepConserves(s, run[0]);
      PopsArePrefixOfPosts(s1, run[1..]);
      Reassociate(Waiting(s), Posted(s, run[0]), Posts(s1, run[1..]),
                  Popped(s, run[0]), Waiting(s1), Pops(s1, run[1..]), Waiting(After(s, run)));
    }
  }

  lemma Reassociate<T>(w: seq<T>, e: seq<T>, es: seq<T>, p: seq<T>, w1: seq<T>, ps: seq<T>, w2: seq<T>)
    requires w + e == p + w1 && w1 + es == ps + w2
    ensures w + (e + es) == (p + ps) + w2
  {
    assert w + (e + es) == (w + e) + es;
    assert (p + w1) + es == p + (w1 + es);
    assert p + (ps + w2) == (p + ps) + w2;
  }

  /** Truncating the running index to 16 bits keeps the slots right for all
      counts exactly when the ring size divides 2^16. */
  lemma WrapExact(n: nat)
    requires n > 0
    ensures (forall i: nat :: Slot(Wrap16(i), n) == Slot(i, n)) <==> 0x1_0000 % n == 0
  {
    if 0x1_0000 % n == 0 {
      forall i: nat ensures Slot(Wrap16(i), n) == Slot(i, n) {
        WrappedSlot(i, n);
      }
    } else {
      SlotIsMod(0x1_0000, n);
      assert Slot(Wrap16(0x1_0000), n) == 0;
    }
  }

  /** From the moment the queue is set up, everything popped is a prefix of
      everything the device posted, and every descriptor has one owner. */
  lemma EveryRun(size: u16, run: seq<Step>)
    requires RingSize(size)
    requires Legal(InitialSys(size), run)
    ensures Inv(After(InitialSys(size), run))
    ensures Pops(InitialSys(size), run) <= Posts(InitialSys(size), run)
  {
    hide FreeListOk, ChainsOk, AvailOk, UsedOk, Enabled, Apply, InitialQueue;
    var s := InitialSys(size);
    PopsArePrefixOfPosts(s, run);
    assert Waiting(s) == [];
    assert Waiting(s) + Posts(s, run) == Posts(s, run);
  }
}
