/** The completion ring of an NVMe queue pair: the controller toggles the phase
    bit on every lap, and submit_and_wait of src/nvme.c takes a slot whose
    phase matches the one it expects (section 4.6 of NVMe 1.4). */
module NvmeRing {
  import opened Words

  /** One completion as its last dword: command id, phase and status. */
  function CqeWord(cid: u16, phase: bool, status: nat): u32
    requires status < 0x8000
  {
    cid + (if phase then 0x1_0000 else 0) + status * 0x2_0000
  }

  predicate Phase(w: u32) { (w / 0x1_0000) % 2 == 1 }

  function Status(w: u32): nat { w / 0x2_0000 }

  lemma CqeWordReads(cid: u16, phase: bool, status: nat)
    requires status < 0x8000
    ensures Phase(CqeWord(cid, phase, status)) == phase
    ensures Status(CqeWord(cid, phase, status)) == status
  {}

  /** The dword as section 4.6 lays it out: id, phase in bit 16, status above. */
  lemma CqeLayout(cid: u16, phase: bool, status: nat)
    requires status < 0x8000
    ensures CqeWord(cid, phase, status) == cid + 0x2_0000 * status + if phase then 0x1_0000 else 0
    ensures forall w: u32 :: (Phase(w) <==> w / 0x1_0000 % 2 == 1) && Status(w) == w / 0x2_0000
  {}

  /** Phase of the i-th completion ever posted: true on the first lap, and the
      other one on each lap after that. */
  predicate LapPhase(i: nat, n: nat)
    requires n > 0
    decreases i
  {
    if i < n then true else !LapPhase(i - n, n)
  }

  /** The queue pair. `slots` is shared memory; head and expected phase are the
      driver's, tail and phase the controller's. */
  datatype Ring = Ring(slots: seq<u32>, head: nat, expected: bool, tail: nat, phase: bool)

  predicate Matches(r: Ring)
    requires r.head < |r.slots|
  {
    Phase(r.slots[r.head]) == r.expected
  }

  /** The driver takes the completion at its head. */
  function Take(r: Ring): Ring
    requires r.head < |r.slots|
  {
    var h := (r.head + 1) % |r.slots|;
    r.(head := h, expected := if h == 0 then !r.expected else r.expected)
  }

  /** The controller posts a completion at its tail. */
  function Post(r: Ring, cid: u16, status: nat): Ring
    requires r.tail < |r.slots| && status < 0x8000
  {
    var t := (r.tail + 1) % |r.slots|;
    r.(slots := r.slots[r.tail := CqeWord(cid, r.phase, status)],
       tail := t, phase := if t == 0 then !r.phase else r.phase)
  }

  /** Zeroed memory, head and tail at slot 0, phase 1 expected first. */
  function NewRing(n: nat): Ring { Ring(seq(n, _ => 0 as u32), 0, true, 0, true) }

  /** The ring after the controller posted `log` and the driver took the first
      `taken` of them. */
  ghost predicate Synced(r: Ring, log: seq<u32>, taken: nat) {
    var n := |r.slots|;
    && n > 0 && taken <= |log| <= taken + n
    && r.head == Slot(taken, n) && r.expected == LapPhase(taken, n)
    && r.tail == Slot(|log|, n) && r.phase == LapPhase(|log|, n)
    && (forall j :: 0 <= j < n ==>
          Phase(r.slots[j]) == if j < r.tail then r.phase else !r.phase)
    && (forall c :: taken <= c < |log| ==> r.slots[Slot(c, n)] == log[c])
  }

  lemma NewRingSynced(n: nat)
    requires n > 0
    ensures Synced(NewRing(n), [], 0)
  {}

  /** One step round the ring: the next slot, and the phase flips at slot 0. */
  lemma {:induction false} NextSlot(i: nat, n: nat)
    requires n > 0
    ensures Slot(i + 1, n) == (Slot(i, n) + 1) % n
    ensures LapPhase(i + 1, n) == if Slot(i + 1, n) == 0 then !LapPhase(i, n) else LapPhase(i, n)
    decreases i
  {
    if i >= n {
      NextSlot(i - n, n);
    } else if i + 1 < n {
      assert (i + 1) % n == i + 1;
    } else {
      assert n % n == 0;
      assert Slot(n, n) == Slot(0, n) == 0;
      assert LapPhase(n, n) == !LapPhase(0, n);
    }
  }

  /** How far apart two positions at most a lap apart are. */
  lemma {:induction false} LapsApart(i: nat, j: nat, n: nat)
    requires n > 0 && i <= j <= i + n
    ensures LapPhase(i, n) == LapPhase(j, n) ==> Slot(j, n) - Slot(i, n) == j - i
    ensures LapPhase(i, n) != LapPhase(j, n) ==> Slot(i, n) - Slot(j, n) == n - (j - i)
    decreases i
  {
    if i >= n {
      LapsApart(i - n, j - n, n);
    } else if j >= n {
      assert LapPhase(j, n) == !LapPhase(j - n, n) && Slot(j, n) == Slot(j - n, n) == j - n;
    }
  }

  /** The slot at the head has the expected phase exactly when a completion
      waits there, and then it is the oldest one not yet taken. */
  lemma MatchesIffPosted(r: Ring, log: seq<u32>, taken: nat)
    requires Synced(r, log, taken)
    ensures Matches(r) <==> taken < |log|
    ensures taken < |log| ==> r.slots[r.head] == log[taken]
  {
    LapsApart(taken, |log|, |r.slots|);
  }

  lemma TakeSynced(r: Ring, log: seq<u32>, taken: nat)
    requires Synced(r, log, taken) && taken < |log|
    ensures Synced(Take(r), log, taken + 1)
  {
    NextSlot(taken, |r.slots|);
  }

  /** The controller may post while the ring has room. */
  lemma PostSynced(r: Ring, log: seq<u32>, taken: nat, cid: u16, status: nat)
    requires Synced(r, log, taken) && |log| < taken + |r.slots| && status < 0x8000
    ensures Synced(Post(r, cid, status), log + [CqeWord(cid, r.phase, status)], taken)
  {
    var n, k := |r.slots|, |log|;
    var r', w := Post(r, cid, status), CqeWord(cid, r.phase, status);
    NextSlot(k, n);
    CqeWordReads(cid, r.phase, status);
    PostPhases(r, w);
    forall c | taken <= c < k ensures r'.slots[Slot(c, n)] == log[c] {
      SlotsDiffer(c, k, n);
    }
  }

  lemma PostPhases(r: Ring, w: u32)
    requires r.tail < |r.slots| && Phase(w) == r.phase
    requires forall j :: 0 <= j < |r.slots| ==>
          Phase(r.slots[j]) == if j < r.tail then r.phase else !r.phase
    ensures var n := |r.slots|; var t := (r.tail + 1) % n; var s := r.slots[r.tail := w];
      var p := if t == 0 then !r.phase else r.phase;
      forall j :: 0 <= j < n ==> Phase(s[j]) == if j < t then p else !p
  {
    var n := |r.slots|;
    if r.tail + 1 < n {
      assert (r.tail + 1) % n == r.tail + 1;
    } else {
      assert n % n == 0;
    }
  }

  // ------------------------------------------------------------ whole runs

  /** What happens to a queue pair: the controller posts a completion, or the
      driver polls the slot at its head. */
  datatype Event = Posts(cid: u16, status: nat) | Polls

  ghost predicate Orderly(r: Ring, log: seq<u32>, taken: nat, run: seq<Event>)
    requires Synced(r, log, taken)
    decreases run
  {
    run != [] ==>
      match run[0]
      case Posts(cid, status) =>
        && status < 0x8000 && |log| < taken + |r.slots|
        && (PostSynced(r, log, taken, cid, status);
            Orderly(Post(r, cid, status), log + [CqeWord(cid, r.phase, status)], taken, run[1..]))
      case Polls =>
        MatchesIffPosted(r, log, taken);
        if Matches(r) then
          TakeSynced(r, log, taken); Orderly(Take(r), log, taken + 1, run[1..])
        else Orderly(r, log, taken, run[1..])
  }

  /** The statuses the driver's polls take, in order. */
  function Taken(r: Ring, run: seq<Event>): seq<nat>
    requires r.head < |r.slots| && r.tail < |r.slots|
    requires forall i :: 0 <= i < |run| && run[i].Posts? ==> run[i].status < 0x8000
    decreases run
  {
    if run == [] then []
    else match run[0]
      case Posts(cid, status) => Taken(Post(r, cid, status), run[1..])
      case Polls =>
        if Matches(r) then [Status(r.slots[r.head])] + Taken(Take(r), run[1..])
        else Taken(r, run[1..])
  }

  function Posted(run: seq<Event>): seq<nat> {
    if run == [] then []
    else (if run[0].Posts? then [run[0].status] else []) + Posted(run[1..])
  }

  function Statuses(log: seq<u32>): seq<nat> { seq(|log|, i requires 0 <= i < |log| => Status(log[i])) }

  ghost predicate StatusesOk(run: seq<Event>) {
    forall i :: 0 <= i < |run| && run[i].Posts? ==> run[i].status < 0x8000
  }

  /** Over any number of laps, in any interleaving of polls and completions:
      the driver takes every completion once, in the order posted. */
  lemma {:induction false} TakenInOrder(r: Ring, log: seq<u32>, taken: nat, run: seq<Event>)
    requires Synced(r, log, taken) && StatusesOk(run) && Orderly(r, log, taken, run)
    ensures r.head < |r.slots| && r.tail < |r.slots| && taken <= |log|
    ensures Taken(r, run) <= Statuses(log)[taken..] + Posted(run)
    decreases run
  {
    hide Synced, Phase, Status, Matches, CqeWord, Take, Post, Slot, LapPhase, Statuses, Orderly, Taken, Posted;
    SyncedBounds(r, log, taken);
    StatusesShape(log);
    if run == [] {
      NothingTaken(r);
    } else {
      var rest := run[1..];
      assert StatusesOk(rest);
      FirstEvent(r, log, taken, run);
      match run[0]
      case Posts(cid, status) =>
        var w := CqeWord(cid, r.phase, status);
        TakenInOrder(Post(r, cid, status), log + [w], taken, rest);
        OneMorePosted(log, cid, r.phase, status, taken, Posted(rest));
      case Polls =>
        if Matches(r) {
          TakenInOrder(Take(r), log, taken + 1, rest);
          OneMoreTaken(Status(log[taken]), Statuses(log), taken, Posted(rest), Taken(Take(r), rest));
        } else {
          TakenInOrder(r, log, taken, rest);
        }
    }
  }

  lemma NothingTaken(r: Ring)
    requires r.head < |r.slots| && r.tail < |r.slots|
    ensures Taken(r, []) == [] && Posted([]) == []
  {}

  /** What the first event of an orderly run comes to. */
  lemma FirstEvent(r: Ring, log: seq<u32>, taken: nat, run: seq<Event>)
    requires Synced(r, log, taken) && StatusesOk(run) && Orderly(r, log, taken, run) && run != []
    ensures r.head < |r.slots| && r.tail < |r.slots|
    ensures match run[0]
      case Posts(cid, status) =>
        && status < 0x8000 && Posted(run) == [status] + Posted(run[1..])
        && Synced(Post(r, cid, status), log + [CqeWord(cid, r.phase, status)], taken)
        && Orderly(Post(r, cid, status), log + [CqeWord(cid, r.phase, status)], taken, run[1..])
        && Taken(r, run) == Taken(Post(r, cid, status), run[1..])
      case Polls =>
        && Posted(run) == Posted(run[1..])
        && if Matches(r) then
             && taken < |log| && Synced(Take(r), log, taken + 1) && Orderly(Take(r), log, taken + 1, run[1..])
             && Taken(r, run) == [Status(log[taken])] + Taken(Take(r), run[1..])
           else Orderly(r, log, taken, run[1..]) && Taken(r, run) == Taken(r, run[1..])
  {
    hide Synced, Phase, Status, Matches, CqeWord, Take, Post, Slot, LapPhase;
    SyncedBounds(r, log, taken);
    assert StatusesOk(run[1..]);
    match run[0]
    case Posts(cid, status) =>
      PostSynced(r, log, taken, cid, status);
      SyncedBounds(Post(r, cid, status), log + [CqeWord(cid, r.phase, status)], taken);
    case Polls =>
      MatchesIffPosted(r, log, taken);
      if Matches(r) {
        TakeSynced(r, log, taken);
        SyncedBounds(Take(r), log, taken + 1);
      }
      assert [] + Posted(run[1..]) == Posted(run[1..]);
  }

  lemma StatusesShape(log: seq<u32>)
    ensures |Statuses(log)| == |log|
    ensures forall i :: 0 <= i < |log| ==> Statuses(log)[i] == Status(log[i])
  {}

  lemma OneMorePosted(log: seq<u32>, cid: u16, phase: bool, status: nat, taken: nat, rest: seq<nat>)
    requires status < 0x8000 && taken <= |log|
    ensures var log' := log + [CqeWord(cid, phase, status)];
      |Statuses(log)| == |log| && |Statuses(log')| == |log| + 1
      && Statuses(log')[taken..] + rest == Statuses(log)[taken..] + ([status] + rest)
  {
    CqeWordReads(cid, phase, status);
    var log' := log + [CqeWord(cid, phase, status)];
    assert Statuses(log') == Statuses(log) + [status];
  }

  lemma OneMoreTaken(x: nat, ss: seq<nat>, taken: nat, rest: seq<nat>, t: seq<nat>)
    requires taken < |ss| && ss[taken] == x && t <= ss[taken + 1..] + rest
    ensures [x] + t <= ss[taken..] + rest
  {
    assert ss[taken..] == [x] + ss[taken + 1..];
  }

  lemma SyncedBounds(r: Ring, log: seq<u32>, taken: nat)
    requires Synced(r, log, taken)
    ensures r.head < |r.slots| && r.tail < |r.slots| && taken <= |log|
  {}

  /** From a queue pair just set up, what the driver takes is a prefix of what
      the controller posts. */
  lemma EveryRingRun(n: nat, run: seq<Event>)
    requires n > 0 && StatusesOk(run)
    requires (NewRingSynced(n); Orderly(NewRing(n), [], 0, run))
    ensures Taken(NewRing(n), run) <= Posted(run)
  {
    NewRingSynced(n);
    TakenInOrder(NewRing(n), [], 0, run);
    assert Statuses([])[0..] + Posted(run) == Posted(run);
  }
}
