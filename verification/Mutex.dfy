/** The spinlock of include/mutex.h on the compare-and-swap of
    include/atomic.h, with LR/SC as reservations (section 8.2 of the RISC-V
    Unprivileged ISA 20191213): any number of harts, every interleaving, and
    store-conditionals that may fail for no reason. */
module Mutex {
  import opened Words

  const RETRIES: nat := 32

  /** Whether the compare-and-swap was called from mutex_lock, which tries
      again, or from mutex_trylock. */
  datatype Caller = Lock | TryLock

  /** Where a hart is. The critical section is the client's increment of a
      plain counter: read, write, then unlock. */
  datatype Pc =
    | Outside
    | LoadReserved(caller: Caller, left: nat)
    | StoreConditional(caller: Caller, left: nat)
    | Read
    | Write(tmp: u32)
    | Unlock

  datatype Sys = Sys(holder: nat, pcs: seq<Pc>, reserved: seq<bool>, counter: u32, completed: nat)

  datatype Action = CallLock | CallTryLock | Lr | Sc(spurious: bool) | ReadCounter | WriteCounter | StoreHolder | LoadHolder

  predicate Can(s: Sys, h: nat, a: Action) {
    && h < |s.pcs|
    && match a
       case CallLock | CallTryLock | LoadHolder => s.pcs[h].Outside?
       case Lr => s.pcs[h].LoadReserved?
       case Sc(_) => s.pcs[h].StoreConditional?
       case ReadCounter => s.pcs[h].Read?
       case WriteCounter => s.pcs[h].Write?
       case StoreHolder => s.pcs[h].Unlock?
  }

  /** Any write to the lock word breaks every reservation on it. */
  function SetHolder(s: Sys, v: nat): Sys {
    s.(holder := v, reserved := seq(|s.reserved|, _ => false))
  }

  function Goto(s: Sys, h: nat, pc: Pc): Sys
    requires h < |s.pcs|
  {
    s.(pcs := s.pcs[h := pc])
  }

  /** The compare-and-swap returns false. */
  function CasFailed(s: Sys, h: nat, caller: Caller): Sys
    requires h < |s.pcs|
  {
    Goto(s, h, if caller == Lock then LoadReserved(Lock, RETRIES) else Outside)
  }

  function Do(s: Sys, h: nat, a: Action): Sys
    requires Can(s, h, a) && |s.reserved| == |s.pcs|
  {
    match a
    case CallLock => Goto(s, h, LoadReserved(Lock, RETRIES))
    case CallTryLock => Goto(s, h, LoadReserved(TryLock, RETRIES))
    case LoadHolder => s.(reserved := s.reserved[h := true])
    case Lr =>
      var pc, t := s.pcs[h], s.(reserved := s.reserved[h := true]);
      if s.holder != 0 then CasFailed(t, h, pc.caller)
      else Goto(t, h, StoreConditional(pc.caller, pc.left))
    case Sc(spurious) =>
      var pc := s.pcs[h];
      if s.reserved[h] && !spurious then Goto(SetHolder(s, h + 1), h, Read)
      else
        var t := s.(reserved := s.reserved[h := false]);
        if pc.left > 1 then Goto(t, h, LoadReserved(pc.caller, pc.left - 1))
        else CasFailed(t, h, pc.caller)
    case ReadCounter => Goto(s, h, Write(s.counter))
    case WriteCounter => Goto(s.(counter := (s.pcs[h].tmp + 1) % 0x1_0000_0000), h, Unlock)
    case StoreHolder => Goto(SetHolder(s, 0), h, Outside).(completed := s.completed + 1)
  }

  // ---- What every step keeps ----

  predicate InSection(pc: Pc) { pc.Read? || pc.Write? || pc.Unlock? }

  ghost predicate Shaped(s: Sys) {
    |s.reserved| == |s.pcs| < 0xFFFF_FFFF && s.holder <= |s.pcs|
  }

  /** The lock word names the one hart in its critical section. */
  ghost predicate HolderNames(s: Sys) {
    forall h :: 0 <= h < |s.pcs| ==> (InSection(s.pcs[h]) <==> s.holder == h + 1)
  }

  /** A reservation that survived since the load saw zero: it is zero still. */
  ghost predicate ReservedFree(s: Sys) {
    forall h :: 0 <= h < |s.pcs| && |s.reserved| == |s.pcs| && s.reserved[h] && s.pcs[h].StoreConditional? ==> s.holder == 0
  }

  /** The increments that are in the counter. */
  ghost predicate Counted(s: Sys) {
    && s.holder <= |s.pcs|
    && if s.holder == 0 then s.counter == s.completed % 0x1_0000_0000
       else match s.pcs[s.holder - 1]
         case Unlock => s.counter == (s.completed + 1) % 0x1_0000_0000
         case Write(tmp) => s.counter == s.completed % 0x1_0000_0000 && tmp == s.counter
         case _ => s.counter == s.completed % 0x1_0000_0000
  }

  ghost predicate Inv(s: Sys) {
    Shaped(s) && HolderNames(s) && ReservedFree(s) && Counted(s)
  }

  lemma AcquireKeepsInv(s: Sys, h: nat, spurious: bool)
    requires Inv(s) && Can(s, h, Sc(spurious))
    ensures Inv(Do(s, h, Sc(spurious)))
    ensures s.reserved[h] && !spurious ==> s.holder == 0
  {}

  lemma SectionKeepsInv(s: Sys, h: nat, a: Action)
    requires Inv(s) && Can(s, h, a) && (a.ReadCounter? || a.WriteCounter? || a.StoreHolder?)
    ensures Inv(Do(s, h, a))
  {
    assert InSection(s.pcs[h]);
    assert s.holder == h + 1;
    if a.WriteCounter? { Increment(s.completed); }
  }

  lemma Increment(n: nat)
    ensures (n % 0x1_0000_0000 + 1) % 0x1_0000_0000 == (n + 1) % 0x1_0000_0000
  {}

  lemma OutsideKeepsInv(s: Sys, h: nat, a: Action)
    requires Inv(s) && Can(s, h, a) && (a.CallLock? || a.CallTryLock? || a.LoadHolder? || a.Lr?)
    ensures Inv(Do(s, h, a))
  {
    assert s.holder > 0 ==> s.holder - 1 != h;
  }

  /** Every step of every hart keeps the invariant. */
  lemma DoKeepsInv(s: Sys, h: nat, a: Action)
    requires Inv(s) && Can(s, h, a)
    ensures Inv(Do(s, h, a))
  {
    hide Inv, Do;
    match a
    case Sc(spurious) => AcquireKeepsInv(s, h, spurious);
    case ReadCounter | WriteCounter | StoreHolder => SectionKeepsInv(s, h, a);
    case _ => OutsideKeepsInv(s, h, a);
  }

  // ---- Runs ----

  /** A lock just initialised, and harts that have not called it yet. */
  ghost predicate Initial(s: Sys) {
    && |s.reserved| == |s.pcs| < 0xFFFF_FFFF && s.holder == 0 && s.counter == 0 && s.completed == 0
    && forall h :: 0 <= h < |s.pcs| ==> s.pcs[h].Outside?
  }

  datatype Event = Event(hart: nat, action: Action)

  ghost predicate Run(s: Sys, es: seq<Event>, t: Sys)
    decreases |es|
  {
    if es == [] then s == t
    else
      |s.reserved| == |s.pcs| && Can(s, es[0].hart, es[0].action)
      && Run(Do(s, es[0].hart, es[0].action), es[1..], t)
  }

  lemma {:induction false} RunKeepsInv(s: Sys, es: seq<Event>, t: Sys)
    requires Inv(s) && Run(s, es, t)
    ensures Inv(t)
    decreases |es|
  {
    if es != [] {
      DoKeepsInv(s, es[0].hart, es[0].action);
      RunKeepsInv(Do(s, es[0].hart, es[0].action), es[1..], t);
    }
  }

  /** In every state any run can reach, at most one hart is in its critical
      section, and the lock word is 0 or one more than that hart's id. */
  lemma MutualExclusion(s: Sys, es: seq<Event>, t: Sys)
    requires Initial(s) && Run(s, es, t)
    ensures forall g, h :: 0 <= g < |t.pcs| && 0 <= h < |t.pcs| && InSection(t.pcs[g]) && InSection(t.pcs[h]) ==> g == h
    ensures t.holder == 0 <==> forall h :: 0 <= h < |t.pcs| ==> !InSection(t.pcs[h])
    ensures t.holder != 0 ==> t.holder <= |t.pcs| && InSection(t.pcs[t.holder - 1])
  {
    RunKeepsInv(s, es, t);
    if t.holder != 0 { assert InSection(t.pcs[t.holder - 1]); }
  }

  /** The plain counter counts the critical sections: whenever the lock is
      free, no increment has been lost. */
  lemma NoLostIncrement(s: Sys, es: seq<Event>, t: Sys)
    requires Initial(s) && Run(s, es, t)
    ensures t.holder == 0 ==> t.counter == t.completed % 0x1_0000_0000
    ensures t.completed == Unlocks(es)
  {
    RunKeepsInv(s, es, t);
    CompletedCounts(s, es, t);
  }

  function Unlocks(es: seq<Event>): nat {
    if es == [] then 0 else (if es[0].action.StoreHolder? then 1 else 0) + Unlocks(es[1..])
  }

  lemma {:induction false} CompletedCounts(s: Sys, es: seq<Event>, t: Sys)
    requires Run(s, es, t)
    ensures t.completed == s.completed + Unlocks(es)
    decreases |es|
  {
    if es != [] { CompletedCounts(Do(s, es[0].hart, es[0].action), es[1..], t); }
  }

  // ---- What the compare-and-swap returns ----

  /** The attempts of one call of the compare-and-swap, run by hart h alone,
      where the i-th store-conditional fails for no reason when lost[i]. */
  function Attempt(h: nat, lost: seq<bool>): seq<Event>
    decreases |lost|
  {
    if lost == [] then []
    else [Event(h, Lr), Event(h, Sc(lost[0]))] + if lost[0] then Attempt(h, lost[1..]) else []
  }

  /** Left alone with a free lock, the call succeeds exactly when one of its
      32 store-conditionals does: a mutex_trylock may return false though
      nobody holds the lock. */
  lemma {:induction false} AloneSucceedsIff(s: Sys, h: nat, lost: seq<bool>, t: Sys)
    requires Inv(s) && h < |s.pcs| && s.holder == 0
    requires s.pcs[h] == LoadReserved(TryLock, |lost|) && 0 < |lost|
    requires Run(s, Attempt(h, lost), t)
    ensures |t.pcs| == |s.pcs| && (t.pcs[h] == Read || t.pcs[h] == Outside)
    ensures t.pcs[h] == Read <==> false in lost
    ensures t.holder == if false in lost then h + 1 else 0
    decreases |lost|
  {
    var s1 := Do(s, h, Lr);
    var s2 := Do(s1, h, Sc(lost[0]));
    var es := Attempt(h, lost);
    assert es[1..][0] == Event(h, Sc(lost[0]));
    var rest := if lost[0] then Attempt(h, lost[1..]) else [];
    assert es[1..][1..] == rest;
    assert Run(s1, es[1..], t) && Run(s2, rest, t);
    DoKeepsInv(s, h, Lr);
    DoKeepsInv(s1, h, Sc(lost[0]));
    if lost[0] && |lost| > 1 {
      AloneSucceedsIff(s2, h, lost[1..], t);
      assert false in lost <==> false in lost[1..];
    } else if lost[0] {
      assert lost == [true];
    }
  }

  /** A mutex_trylock from the outside, alone on a free lock: it makes 32 attempts,
      and takes the lock exactly when one of them is not spoiled. */
  lemma TryLockAlone(s: Sys, h: nat, lost: seq<bool>, t: Sys)
    requires Inv(s) && h < |s.pcs| && s.holder == 0 && s.pcs[h].Outside? && |lost| == 32
    requires Run(s, [Event(h, CallTryLock)] + Attempt(h, lost), t)
    ensures |t.pcs| == |s.pcs|
    ensures if false in lost then t.pcs[h] == Read && t.holder == h + 1 else t.pcs[h] == Outside && t.holder == 0
  {
    hide Attempt;
    var es := [Event(h, CallTryLock)] + Attempt(h, lost);
    assert es[1..] == Attempt(h, lost);
    DoKeepsInv(s, h, CallTryLock);
    AloneSucceedsIff(Do(s, h, CallTryLock), h, lost, t);
  }

  /** Between its call and its critical section a hart in mutex_lock only tries:
      no step of any hart takes it anywhere but to a further attempt or, holding
      the lock, into the section. */
  lemma LockLeavesHolding(s: Sys, h: nat, g: nat, a: Action)
    requires Inv(s) && Can(s, g, a) && h < |s.pcs| && Trying(s.pcs[h])
    ensures var s' := Do(s, g, a);
      |s'.pcs| == |s.pcs| && (Trying(s'.pcs[h]) || (g == h && s'.pcs[h] == Read && s.holder == 0 && s'.holder == h + 1))
  {}

  predicate Trying(pc: Pc) {
    (pc.LoadReserved? || pc.StoreConditional?) && pc.caller == Lock
  }

  /** Alone on a free lock, mutex_lock has it as soon as one store-conditional is
      not spoiled, after however many that were. */
  lemma {:induction false} LockAlone(s: Sys, h: nat, lost: seq<bool>, t: Sys)
    requires Inv(s) && h < |s.pcs| && s.holder == 0 && s.pcs[h].LoadReserved? && s.pcs[h].caller == Lock
    requires Run(s, Attempt(h, lost), t)
    ensures |t.pcs| == |s.pcs|
    ensures if false in lost then t.pcs[h] == Read && t.holder == h + 1 else Trying(t.pcs[h]) && t.holder == 0
    decreases |lost|
  {
    if lost != [] {
      var s1 := Do(s, h, Lr);
      var s2 := Do(s1, h, Sc(lost[0]));
      var es := Attempt(h, lost);
      assert es[1..][0] == Event(h, Sc(lost[0]));
      var rest := if lost[0] then Attempt(h, lost[1..]) else [];
      assert es[1..][1..] == rest;
      assert Run(s1, es[1..], t) && Run(s2, rest, t);
      DoKeepsInv(s, h, Lr);
      DoKeepsInv(s1, h, Sc(lost[0]));
      if lost[0] {
        LockAlone(s2, h, lost[1..], t);
        assert false in lost <==> false in lost[1..];
      }
    }
  }

  /** mutex_unlock frees the lock. */
  lemma UnlockFrees(s: Sys, h: nat)
    requires Inv(s) && Can(s, h, StoreHolder)
    ensures Do(s, h, StoreHolder).holder == 0 && Do(s, h, StoreHolder).pcs == s.pcs[h := Outside]
    ensures s.holder == h + 1
  {
    assert InSection(s.pcs[h]);
  }
}
