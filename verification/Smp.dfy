/** Dispatch of work to parked harts: smp_start and smp_wait of src/smp.c on the
    primary, and the park loop of src/start.S with __smp_secondary_dispatch on
    every other hart.  Each memory access is a step of its own. */
module Smp {
  import opened Words

  const MAX_HARTS: nat := 8

  /** A function pointer (0 is NULL) and its argument. */
  datatype Job = Job(fn: u64, arg: u64)

  /** Where a secondary is: at the wfi, about to load msip, to clear it, to read
      its command slot, inside the function, or about to say it is idle. */
  datatype Pc =
    | Wfi
    | LoadMsip
    | ClearMsip
    | ReadFn
    | ReadArg(fn: u64)
    | Call(job: Job)
    | Running(job: Job)
    | SayIdle

  /** What belongs to one hart: its command slot, its running flag, its msip
      register; and, for the statements only, the jobs smp_start accepted for
      it, those it called and how many of these returned. */
  datatype Hart = Hart(fn: u64, arg: u64, running: bool, msip: bool, pc: Pc,
                       accepted: seq<Job>, called: seq<Job>, returned: nat)

  /** Where the primary is: outside, storing a command for hart h, or in
      smp_wait. */
  datatype Primary =
    | Idle
    | WriteFn(h: nat, job: Job)
    | WriteArg(h: nat, job: Job)
    | SetRunning(h: nat, job: Job)
    | SendIpi(h: nat, job: Job)
    | Waiting(h: nat)

  datatype Sys = Sys(count: nat, primary: Primary, harts: seq<Hart>)

  datatype Event = CallStart(h: nat, job: Job) | CallWait(h: nat) | PrimaryStep | HartStep(h: nat)

  /** The checks smp_start makes. */
  predicate Accepts(s: Sys, h: nat, job: Job) {
    h != 0 && h < s.count && h < |s.harts| && !s.harts[h].running && job.fn != 0
  }

  predicate Shaped(s: Sys) {
    && 1 <= s.count <= MAX_HARTS && |s.harts| == MAX_HARTS
    && (s.primary.WriteFn? || s.primary.WriteArg? || s.primary.SetRunning? || s.primary.SendIpi? ==> 0 < s.primary.h < s.count)
  }

  predicate Can(s: Sys, e: Event) {
    match e
    case CallStart(_, _) | CallWait(_) => s.primary.Idle?
    case PrimaryStep => !s.primary.Idle?
    case HartStep(h) => 0 < h < MAX_HARTS
  }

  function Do(s: Sys, e: Event): Sys
    requires Shaped(s) && Can(s, e)
  {
    match e
    case CallStart(h, job) => if Accepts(s, h, job) then s.(primary := WriteFn(h, job)) else s
    case CallWait(h) => s.(primary := Waiting(h))
    case PrimaryStep =>
      (match s.primary
       case WriteFn(h, job) => s.(primary := WriteArg(h, job), harts := s.harts[h := s.harts[h].(fn := job.fn)])
       case WriteArg(h, job) => s.(primary := SetRunning(h, job), harts := s.harts[h := s.harts[h].(arg := job.arg)])
       case SetRunning(h, job) => s.(primary := SendIpi(h, job), harts := s.harts[h := s.harts[h].(running := true)])
       case SendIpi(h, job) =>
         s.(primary := Idle, harts := s.harts[h := s.harts[h].(msip := true, accepted := s.harts[h].accepted + [job])])
       case Waiting(h) => if IsRunning(s, h) then s else s.(primary := Idle)
       case Idle => s)
    case HartStep(h) => s.(harts := s.harts[h := Step(s.harts[h])])
  }

  predicate IsRunning(s: Sys, h: nat) { h < MAX_HARTS && h < |s.harts| && s.harts[h].running }

  /** One step of a secondary.  A wfi may end without an interrupt. */
  function Step(t: Hart): Hart {
    match t.pc
    case Wfi => t.(pc := LoadMsip)
    case LoadMsip => t.(pc := if t.msip then ClearMsip else Wfi)
    case ClearMsip => t.(pc := ReadFn, msip := false)
    case ReadFn => t.(pc := ReadArg(t.fn))
    case ReadArg(fn) => t.(pc := if fn != 0 then Call(Job(fn, t.arg)) else SayIdle)
    case Call(job) => t.(pc := Running(job), called := t.called + [job])
    case Running(_) => t.(pc := SayIdle, returned := t.returned + 1)
    case SayIdle => t.(pc := Wfi, running := false)
  }

  // ---- What every step keeps ----

  predicate Looping(pc: Pc) { pc.Wfi? || pc.LoadMsip? }

  predicate BeforeCall(pc: Pc) { pc.ReadFn? || pc.ReadArg? || pc.Call? }

  /** All accepted jobs have been called and have returned. */
  predicate AllDone(t: Hart) { t.called == t.accepted && t.returned == |t.accepted| }

  /** All but the last, which is in the command slot. */
  predicate OneLeft(t: Hart) {
    && t.accepted != [] && t.called == t.accepted[..|t.accepted| - 1] && t.returned == |t.called|
    && Job(t.fn, t.arg) == t.accepted[|t.accepted| - 1] && t.fn != 0
  }

  /** What a secondary has read of its command slot is the job in it. */
  predicate ReadRight(t: Hart) {
    && (t.pc.ReadArg? ==> t.pc.fn == t.fn)
    && (t.pc.Call? ==> t.pc.job == Job(t.fn, t.arg))
  }

  /** The life of a job on a hart: idle; waked; awake; called; returned. */
  predicate HartOk(t: Hart) {
    if !t.running then AllDone(t) && !t.msip && Looping(t.pc)
    else if t.msip then OneLeft(t) && (Looping(t.pc) || t.pc.ClearMsip?)
    else if Looping(t.pc) then AllDone(t)
    else if BeforeCall(t.pc) then OneLeft(t) && ReadRight(t)
    else if t.pc.Running? then t.called == t.accepted && |t.accepted| == t.returned + 1
    else t.pc.SayIdle? && AllDone(t)
  }

  /** A hart the primary is starting sees none of it until the interrupt. */
  predicate BeingStarted(p: Primary, h: nat, t: Hart) {
    match p
    case WriteFn(g, job) => g == h ==> !t.running && job.fn != 0
    case WriteArg(g, job) => g == h ==> !t.running && job.fn != 0 && t.fn == job.fn
    case SetRunning(g, job) => g == h ==> !t.running && job.fn != 0 && t.fn == job.fn && t.arg == job.arg
    case SendIpi(g, job) =>
      if g == h then t.running && !t.msip && Looping(t.pc) && AllDone(t) && job.fn != 0 && t.fn == job.fn && t.arg == job.arg
      else t.running && Looping(t.pc) ==> t.msip
    case _ => true
  }

  /** A hart that is running and back in its loop has its interrupt pending,
      unless the primary is just about to send it. */
  predicate Waked(p: Primary, h: nat, t: Hart) {
    t.running && Looping(t.pc) && !t.msip ==> p.SendIpi? && p.h == h
  }

  ghost predicate Inv(s: Sys) {
    && Shaped(s)
    && forall h :: 0 <= h < MAX_HARTS ==> HartOk(s.harts[h]) && BeingStarted(s.primary, h, s.harts[h]) && Waked(s.primary, h, s.harts[h])
  }

  /** A secondary's own step, whatever the primary is about. */
  lemma StepKeepsOk(p: Primary, h: nat, t: Hart)
    requires HartOk(t) && BeingStarted(p, h, t) && Waked(p, h, t)
    ensures HartOk(Step(t)) && BeingStarted(p, h, Step(t)) && Waked(p, h, Step(t))
  {
    if t.pc.Call? { assert t.accepted == t.called + [t.accepted[|t.accepted| - 1]]; }
  }

  lemma PrimaryKeepsInv(s: Sys)
    requires Inv(s) && !s.primary.Idle?
    ensures Inv(Do(s, PrimaryStep))
  {
    var s' := Do(s, PrimaryStep);
    forall h | 0 <= h < MAX_HARTS
      ensures HartOk(s'.harts[h]) && BeingStarted(s'.primary, h, s'.harts[h]) && Waked(s'.primary, h, s'.harts[h])
    {
      assert HartOk(s.harts[h]);
    }
  }

  lemma DoKeepsInv(s: Sys, e: Event)
    requires Inv(s) && Can(s, e)
    ensures Inv(Do(s, e))
  {
    hide HartOk, Step, Looping;
    match e
    case PrimaryStep => PrimaryKeepsInv(s);
    case HartStep(h) => StepKeepsOk(s.primary, h, s.harts[h]);
    case CallStart(h, job) => StartKeepsInv(s, h, job);
    case CallWait(h) =>
  }

  lemma StartKeepsInv(s: Sys, h: nat, job: Job)
    requires Inv(s) && s.primary.Idle?
    ensures Inv(Do(s, CallStart(h, job)))
  {}

  // ---- Runs ----

  /** Every secondary parked, no command given yet. */
  ghost predicate Initial(s: Sys) {
    && Shaped(s) && s.primary.Idle?
    && forall h :: 0 <= h < MAX_HARTS ==>
         var t := s.harts[h]; Looping(t.pc) && !t.running && !t.msip && t.accepted == [] && t.called == [] && t.returned == 0
  }

  ghost predicate Run(s: Sys, es: seq<Event>, s': Sys)
    decreases |es|
  {
    if es == [] then s == s'
    else Shaped(s) && Can(s, es[0]) && Run(Do(s, es[0]), es[1..], s')
  }

  lemma {:induction false} RunKeepsInv(s: Sys, es: seq<Event>, s': Sys)
    requires Inv(s) && Run(s, es, s')
    ensures Inv(s')
    decreases |es|
  {
    if es != [] {
      DoKeepsInv(s, es[0]);
      RunKeepsInv(Do(s, es[0]), es[1..], s');
    }
  }

  lemma InitialInv(s: Sys)
    requires Initial(s)
    ensures Inv(s)
  {}

  /** In every reachable state a hart has called exactly the jobs accepted for
      it, in that order, but perhaps for the last; and only its last call may
      not have returned. */
  lemma ExactlyOnce(s: Sys, es: seq<Event>, s': Sys, h: nat)
    requires Initial(s) && Run(s, es, s') && h < MAX_HARTS
    ensures |s'.harts| == MAX_HARTS
    ensures var t := s'.harts[h];
      && t.called <= t.accepted && |t.accepted| <= |t.called| + 1
      && t.returned <= |t.called| && |t.accepted| <= t.returned + 1
  {
    InitialInv(s);
    RunKeepsInv(s, es, s');
    assert HartOk(s'.harts[h]);
  }

  /** No wake is lost: a job accepted and not yet called has its interrupt
      pending, or the hart has cleared it and is on its way to the call. */
  lemma NoLostWake(s: Sys, es: seq<Event>, s': Sys, h: nat)
    requires Initial(s) && Run(s, es, s') && h < MAX_HARTS
    ensures |s'.harts| == MAX_HARTS
    ensures var t := s'.harts[h]; |t.called| < |t.accepted| ==> t.msip || BeforeCall(t.pc)
  {
    InitialInv(s);
    RunKeepsInv(s, es, s');
    assert HartOk(s'.harts[h]);
  }

  /** smp_wait returns as soon as it looks and the hart is not running; and that
      is only when every job accepted for the hart has been called and has
      returned. */
  lemma WaitMeansDone(s: Sys, es: seq<Event>, s': Sys)
    requires Initial(s) && Run(s, es, s') && s'.primary.Waiting? && 0 < s'.primary.h < MAX_HARTS
    ensures Shaped(s')
    ensures Do(s', PrimaryStep).primary.Idle? <==> !s'.harts[s'.primary.h].running
    ensures Do(s', PrimaryStep).primary.Idle? ==> AllDone(s'.harts[s'.primary.h])
  {
    InitialInv(s);
    RunKeepsInv(s, es, s');
    assert HartOk(s'.harts[s'.primary.h]);
  }

  /** smp_start takes a job exactly when the hart is one of the started ones,
      the function is not NULL, and the hart is through with all it was given
      and back in its loop. */
  lemma StartAcceptsIff(s: Sys, es: seq<Event>, s': Sys, h: nat, job: Job)
    requires Initial(s) && Run(s, es, s') && s'.primary.Idle?
    ensures Shaped(s')
    ensures Do(s', CallStart(h, job)).primary == WriteFn(h, job) <==>
            (0 < h < s'.count && job.fn != 0 && AllDone(s'.harts[h]) && Looping(s'.harts[h].pc))
  {
    InitialInv(s);
    RunKeepsInv(s, es, s');
    if h < s'.count { assert HartOk(s'.harts[h]) && Waked(s'.primary, h, s'.harts[h]); }
  }

  /** The primary left to itself. */
  function PrimaryAlone(s: Sys, n: nat): Sys
    requires Shaped(s)
    decreases n
  {
    if n == 0 || s.primary.Idle? then s else PrimaryAlone(Do(s, PrimaryStep), n - 1)
  }

  /** Four steps after smp_start has accepted a job the hart's command slot holds
      it, its running flag is set, its interrupt pending, and the job on
      record. */
  lemma StartDelivers(s: Sys, h: nat, job: Job)
    requires Inv(s) && s.primary == WriteFn(h, job)
    ensures Shaped(PrimaryAlone(s, 4)) && PrimaryAlone(s, 4).primary.Idle?
    ensures var t := s.harts[h];
      PrimaryAlone(s, 4).harts[h]
        == t.(fn := job.fn, arg := job.arg, running := true, msip := true, accepted := t.accepted + [job])
  {
    var s1 := Do(s, PrimaryStep);
    var s2 := Do(s1, PrimaryStep);
    var s3 := Do(s2, PrimaryStep);
    assert PrimaryAlone(s, 4) == PrimaryAlone(s1, 3) == PrimaryAlone(s2, 2) == PrimaryAlone(s3, 1);
    assert PrimaryAlone(s3, 1) == PrimaryAlone(Do(s3, PrimaryStep), 0);
  }

  /** A hart that is done says so within a step. */
  lemma SaysIdle(t: Hart)
    requires HartOk(t) && AllDone(t) && t.running && !Looping(t.pc)
    ensures !Step(t).running
  {}

  // ---- Progress ----

  /** How many of its own steps a hart is from having returned from a job it
      has not returned from. */
  function StepsLeft(t: Hart): nat {
    match t.pc
    case SayIdle => 9
    case Wfi => 8
    case LoadMsip => if t.msip then 7 else 9
    case ClearMsip => 6
    case ReadFn => 5
    case ReadArg(_) => 4
    case Call(_) => 3
    case Running(_) => 2
  }

  /** Every step of the hart brings an accepted job nearer its return, and no
      step of anyone else takes it further away. */
  lemma Progress(s: Sys, e: Event, h: nat)
    requires Inv(s) && Can(s, e) && 0 < h < MAX_HARTS && s.harts[h].returned < |s.harts[h].accepted|
    ensures var t, t' := s.harts[h], Do(s, e).harts[h];
      if e == HartStep(h) then t'.returned == |t'.accepted| || StepsLeft(t') < StepsLeft(t)
      else t'.returned == t.returned && StepsLeft(t') <= StepsLeft(t)
  {
    assert HartOk(s.harts[h]) && BeingStarted(s.primary, h, s.harts[h]) && Waked(s.primary, h, s.harts[h]);
  }

  /** A hart left to itself with an accepted job. */
  function Alone(t: Hart, n: nat): Hart
    decreases n
  {
    if n == 0 then t else Alone(Step(t), n - 1)
  }

  /** Eight steps of the hart are enough. */
  lemma {:induction false} DoneInEight(t: Hart) returns (k: nat)
    requires HartOk(t) && (t.running && Looping(t.pc) ==> t.msip)
    ensures k <= 8 && k <= StepsLeft(t) && AllDone(Alone(t, k))
    decreases StepsLeft(t)
  {
    if AllDone(t) {
      k := 0;
    } else {
      StepKeepsOk(Idle, 0, t);
      if AllDone(Step(t)) {
        k := 1;
        assert Alone(t, 1) == Alone(Step(t), 0);
      } else {
        k := DoneInEight(Step(t));
        k := k + 1;
        assert Alone(t, k) == Alone(Step(t), k - 1);
      }
    }
  }

  // ---- Why smp_start must be the only sender ----

  /** A hart on its way through a dispatch of no function. */
  predicate CallsNothing(t: Hart) {
    t.fn == 0 && !t.pc.Call? && !t.pc.Running? && (t.pc.ReadArg? ==> t.pc.fn == 0)
  }

  lemma {:induction false} NothingCalled(t: Hart, k: nat)
    requires CallsNothing(t)
    ensures Alone(t, k).called == t.called
    decreases k
  {
    if k > 0 { NothingCalled(Step(t), k - 1); }
  }

  /** An interrupt from anyone else makes an idle hart, wherever in its loop it
      is, call the job in its command slot once more if and only if that has a
      function. */
  lemma StrayInterruptRepeatsIff(t: Hart)
    requires HartOk(t) && !t.running
    ensures (exists k: nat :: Alone(t.(msip := true), k).called != t.accepted) <==> t.fn != 0
    ensures t.fn != 0 ==> exists k: nat :: Alone(t.(msip := true), k).called == t.accepted + [Job(t.fn, t.arg)]
  {
    var u := t.(msip := true);
    if t.fn != 0 {
      var k := CalledAgain(t);
      assert |Alone(u, k).called| == |t.accepted| + 1;
    } else {
      forall k: nat ensures Alone(u, k).called == t.accepted { NothingCalled(u, k); }
    }
  }

  lemma CalledAgain(t: Hart) returns (k: nat)
    requires HartOk(t) && !t.running && t.fn != 0
    ensures Alone(t.(msip := true), k).called == t.accepted + [Job(t.fn, t.arg)]
  {
    var u := t.(msip := true);
    var v := if t.pc.Wfi? then Step(u) else u;
    LoadedRepeats(v);
    k := if t.pc.Wfi? then 6 else 5;
    assert Alone(u, k) == Alone(v, 5);
  }

  lemma LoadedRepeats(t: Hart)
    requires t.pc.LoadMsip? && t.msip && t.fn != 0
    ensures Alone(t, 5).called == t.called + [Job(t.fn, t.arg)]
  {
    var t1 := Step(t);
    var t2 := Step(t1);
    var t3 := Step(t2);
    var t4 := Step(t3);
    assert Alone(t, 5) == Alone(t1, 4) == Alone(t2, 3) == Alone(t3, 2) == Alone(t4, 1) == Step(t4);
  }
}
