/** The edge-driven resampler of src/audio_edge.c: level changes stamped in the
    emulator's cycles become a 48 kHz stream, frame by frame.  The whole stream
    is shown to be one function of the history of edges. */
module AudioEdge {
  import opened Words
  import opened AudioPcm

  const RATE: nat := 48000
  const RING_FRAMES: nat := 4800
  const MAX_EVENTS: nat := 256
  const MAX_WAITS: nat := 50
  const TWO64: nat := 0x1_0000_0000_0000_0000

  /** Frames the host takes before polls 1 to n. */
  function Drained(drains: nat -> nat, n: nat): nat {
    if n == 0 then 0 else Drained(drains, n - 1) + drains(n)
  }

  lemma NothingDrained(drains: nat -> nat)
    ensures Drained(drains, 0) == 0
  {}

  lemma DrainedStep(drains: nat -> nat, n: nat)
    ensures Drained(drains, n + 1) == Drained(drains, n) + drains(n + 1)
  {}

  lemma {:induction false} DrainedGrows(drains: nat -> nat, m: nat, n: nat)
    requires m <= n
    ensures Drained(drains, m) <= Drained(drains, n)
  {
    if m < n { DrainedGrows(drains, m, n - 1); }
  }

  /** A level change as submitted. */
  datatype Edge = Edge(cycle: u64, level: i16)

  /** A level change at the sample from which on it is heard. */
  datatype Mark = Mark(at: nat, level: i16)

  /** cycle_to_sample, with the wrap-around of its 64-bit product. */
  function ToSample(cycle: nat, hz: nat): (r: nat)
    requires hz > 0
    ensures r < TWO64
  {
    var product := (cycle * RATE) % TWO64;
    DivShrinks(product, hz);
    product / hz
  }

  /** Short of the wrap-around it is floor(cycle * 48000 / hz). */
  lemma ToSampleIsFloor(cycle: nat, hz: nat)
    requires hz > 0 && cycle * 48000 < 0x1_0000_0000_0000_0000
    ensures ToSample(cycle, hz) * hz <= cycle * 48000 < (ToSample(cycle, hz) + 1) * hz
  {
    SmallMod(cycle * RATE, TWO64);
    FloorBounds(cycle * RATE, hz);
  }

  lemma FloorBounds(a: nat, n: nat)
    requires n > 0
    ensures a / n * n <= a < (a / n + 1) * n
  {
    assert a == a / n * n + a % n;
    assert (a / n + 1) * n == a / n * n + n;
  }

  /** An edge has come by sample s exactly when its cycle is before the end of
      that sample. */
  lemma HasCome(cycle: nat, hz: nat, s: nat)
    requires hz > 0 && cycle * 48000 < 0x1_0000_0000_0000_0000
    ensures ToSample(cycle, hz) <= s <==> cycle * 48000 < (s + 1) * hz
  {
    hide ToSample;
    ToSampleIsFloor(cycle, hz);
    var f := ToSample(cycle, hz);
    if f <= s {
      MulMono(f + 1, s + 1, hz);
    } else {
      MulMono(s + 1, f, hz);
    }
  }

  lemma MulMono(a: nat, b: nat, n: nat)
    requires a <= b
    ensures a * n <= b * n
  {
    assert b * n == a * n + (b - a) * n;
  }

  /** The zero-order hold: sample s carries the level of the last edge, in
      order of submission, whose sample is not after s. */
  function Zoh(h: seq<Mark>, s: nat): i16 {
    if h == [] then 0
    else if h[|h|-1].at <= s then h[|h|-1].level
    else Zoh(h[..|h|-1], s)
  }

  function LastLevel(h: seq<Mark>): i16 { if h == [] then 0 else h[|h|-1].level }

  /** The sample at which an edge takes effect when it is drained by an advance
      from sample `start` to sample `end`. */
  function EffectiveAt(cycle: nat, now: nat, start: nat, end: nat, hz: nat): (at: nat)
    requires hz > 0 && start <= end
    ensures start <= at <= end
  {
    var f := ToSample(if cycle > now then now else cycle, hz);
    var idx := if f > start then (f - start) % 0x1_0000_0000 else 0;
    start + if idx > end - start then end - start else idx
  }

  function MarksOf(es: seq<Edge>, now: nat, start: nat, end: nat, hz: nat): (h: seq<Mark>)
    requires hz > 0 && start <= end
    ensures |h| == |es|
    ensures forall i :: 0 <= i < |es| ==> h[i] == Mark(EffectiveAt(es[i].cycle, now, start, end, hz), es[i].level)
  {
    seq(|es|, i requires 0 <= i < |es| => Mark(EffectiveAt(es[i].cycle, now, start, end, hz), es[i].level))
  }

  /** Where edges fall if each is converted on its own. */
  function PlainMarks(es: seq<Edge>, hz: nat): (h: seq<Mark>)
    requires hz > 0
    ensures |h| == |es|
    ensures forall i :: 0 <= i < |es| ==> h[i] == Mark(ToSample(es[i].cycle, hz), es[i].level)
  {
    seq(|es|, i requires 0 <= i < |es| => Mark(ToSample(es[i].cycle, hz), es[i].level))
  }

  lemma {:induction false} LaterEdgesUnheard(h: seq<Mark>, more: seq<Mark>, s: nat)
    requires forall m :: m in more ==> m.at > s
    ensures Zoh(h + more, s) == Zoh(h, s)
  {
    if more == [] {
      assert h + more == h;
    } else {
      var all := h + more;
      assert all[..|all|-1] == h + more[..|more|-1];
      assert more[|more|-1] in more;
      LaterEdgesUnheard(h, more[..|more|-1], s);
    }
  }

  lemma ZohSnoc(h: seq<Mark>, m: Mark, s: nat)
    ensures Zoh(h + [m], s) == if m.at <= s then m.level else Zoh(h, s)
  {
    assert (h + [m])[..|h|] == h;
  }

  lemma ToSampleMono(c: nat, d: nat, hz: nat)
    requires hz > 0 && c <= d && d * RATE < TWO64
    ensures ToSample(c, hz) <= ToSample(d, hz)
  {
    SmallMod(c * RATE, TWO64);
    SmallMod(d * RATE, TWO64);
    DivMono(c * RATE, d * RATE, hz);
  }

  /** An edge between two advances, both free of wrap-around, takes effect at
      its own sample, wherever the frame is cut. */
  lemma PunctualEdge(cycle: nat, prev: nat, now: nat, hz: nat)
    requires hz > 0 && prev <= cycle <= now && now * RATE < TWO64
    requires ToSample(now, hz) - ToSample(prev, hz) < 0x1_0000_0000
    ensures ToSample(prev, hz) <= ToSample(now, hz)
    ensures EffectiveAt(cycle, now, ToSample(prev, hz), ToSample(now, hz), hz) == ToSample(cycle, hz)
  {
    ToSampleMono(prev, cycle, hz);
    ToSampleMono(cycle, now, hz);
    ToSampleMono(prev, now, hz);
  }

  /** No edge takes effect after `bound`. */
  ghost predicate Within(h: seq<Mark>, bound: nat) {
    forall i :: 0 <= i < |h| ==> h[i].at <= bound
  }

  /** The stream is the initial silence followed by n samples of the zero-order
      hold of `h`. */
  ghost predicate Follows(stream: seq<i16>, h: seq<Mark>, n: nat) {
    && |stream| == RING_FRAMES - 1 + n
    && forall s :: 0 <= s < n ==> stream[RING_FRAMES - 1 + s] == Zoh(h, s)
  }

  lemma WithinGrows(h: seq<Mark>, es: seq<Edge>, now: nat, start: nat, end: nat, hz: nat)
    requires hz > 0 && start <= end && Within(h, start)
    ensures Within(h + MarksOf(es, now, start, end, hz), end)
  {}

  lemma WithinLater(h: seq<Mark>, bound: nat, later: nat)
    requires Within(h, bound) && bound <= later
    ensures Within(h, later)
  {}

  lemma SameHold(stream: seq<i16>, h: seq<Mark>, h': seq<Mark>, n: nat)
    requires Follows(stream, h, n) && forall s :: 0 <= s < n ==> Zoh(h', s) == Zoh(h, s)
    ensures Follows(stream, h', n)
  {}

  lemma LastOfSum(h: seq<Mark>, marks: seq<Mark>)
    ensures LastLevel(h + marks) == if marks == [] then LastLevel(h) else marks[|marks|-1].level
  {
    if marks == [] {
      assert h + marks == h;
    } else {
      assert (h + marks)[|h| + |marks| - 1] == marks[|marks|-1];
    }
  }

  /** Edges drained by a later frame do not change samples already out. */
  lemma OldSamplesKept(h: seq<Mark>, marks: seq<Mark>, start: nat)
    requires forall i :: 0 <= i < |marks| ==> marks[i].at >= start
    ensures forall s :: 0 <= s < start ==> Zoh(h + marks, s) == Zoh(h, s)
  {
    forall s | 0 <= s < start ensures Zoh(h + marks, s) == Zoh(h, s) {
      LaterEdgesUnheard(h, marks, s);
    }
  }

  /** A whole frame of punctual edges: each takes effect at its own sample. */
  lemma PunctualFrame(es: seq<Edge>, earlier: seq<Edge>, prev: nat, now: nat, hz: nat)
    requires hz > 0 && prev <= now && now * RATE < TWO64
    requires ToSample(now, hz) - ToSample(prev, hz) < 0x1_0000_0000
    requires forall i :: 0 <= i < |es| ==> prev <= es[i].cycle <= now
    ensures ToSample(prev, hz) <= ToSample(now, hz)
    ensures MarksOf(es, now, ToSample(prev, hz), ToSample(now, hz), hz) == PlainMarks(es, hz)
    ensures PlainMarks(earlier + es, hz) == PlainMarks(earlier, hz) + PlainMarks(es, hz)
  {
    ToSampleMono(prev, now, hz);
    forall i | 0 <= i < |es|
      ensures EffectiveAt(es[i].cycle, now, ToSample(prev, hz), ToSample(now, hz), hz) == ToSample(es[i].cycle, hz)
    {
      PunctualEdge(es[i].cycle, prev, now, hz);
    }
  }

  /** Appending a rendered frame keeps the stream the zero-order hold. */
  lemma StreamGrows(stream: seq<i16>, h: seq<Mark>, h': seq<Mark>, start: nat, frames: nat, data: seq<i16>)
    requires Follows(stream, h, start) && |data| == frames
    requires forall s :: 0 <= s < start ==> Zoh(h', s) == Zoh(h, s)
    requires forall i :: 0 <= i < frames ==> data[i] == Zoh(h', start + i)
    ensures Follows(stream + data, h', start + frames)
  {
    hide Zoh;
    forall s | 0 <= s < start + frames
      ensures (stream + data)[RING_FRAMES - 1 + s] == Zoh(h', s)
    {
      if s >= start {
        assert data[s - start] == Zoh(h', start + (s - start));
      }
    }
  }

  class Speaker {
    const hz: nat
    const pcm: Pcm<i16>
    const events: array<Edge>
    var nEvents: nat
    var totalSamples: nat
    var currentLevel: i16
    var dropped: u32
    ghost var history: seq<Mark>     // edges drained, where they took effect
    ghost var drained: seq<Edge>     // the same edges as submitted
    ghost var lastNow: nat           // cycle of the last advance
    ghost var lossless: bool         // nothing was dropped so far
    ghost var punctual: bool         // every edge lay between its two advances

    ghost function Repr(): set<object> { {this, pcm, pcm.ring, events} }

    ghost predicate Shape()
      reads Repr()
    {
      && hz > 0 && pcm.Valid() && pcm.running && pcm.ring.Length == RING_FRAMES
      && events.Length == MAX_EVENTS && nEvents <= MAX_EVENTS
      && totalSamples < TWO64
      && Within(history, totalSamples)
    }

    /** Unless something was dropped, the stream is the initial silence followed
        by the zero-order hold of the edges so far. */
    ghost predicate Faithful()
      reads this, pcm
    {
      lossless ==> Follows(pcm.stream, history, totalSamples) && currentLevel == LastLevel(history)
    }

    /** The stream is the initial silence followed by the zero-order hold of
        the edges so far; and where all edges were punctual, of the edges as
        they were submitted. */
    ghost predicate Valid()
      reads Repr()
    {
      && Shape() && Faithful()
      && (punctual ==> history == PlainMarks(drained, hz) && totalSamples == ToSample(lastNow, hz))
    }

    /** audio_edge_open: the ring starts out full of silence. */
    constructor (hz: nat)
      requires hz > 0
      ensures Valid() && fresh(Repr()) && lossless && punctual
      ensures nEvents == 0 && totalSamples == 0 && lastNow == 0 && drained == [] && pcm.stream == Silence(4799)
      ensures this.hz == hz
    {
      this.hz := hz;
      pcm := new Pcm(RING_FRAMES, 1, 0);
      events := new Edge[MAX_EVENTS](_ => Edge(0, 0));
      nEvents, totalSamples, currentLevel, dropped := 0, 0, 0, 0;
      history, drained, lastNow, lossless, punctual := [], [], 0, true, true;
      new;
      pcm.Advance(RING_FRAMES - 1, Silence(RING_FRAMES - 1));
      assert pcm.stream == Silence(RING_FRAMES - 1);
    }

    /** audio_edge_set. */
    method Set(level: i16, atCycle: u64)
      requires Valid()
      modifies this`nEvents, this`dropped, this`currentLevel, this`lossless, events
      ensures Valid()
      ensures old(nEvents) < 256 ==>
        lossless == old(lossless) && events[..nEvents] == old(events[..nEvents]) + [Edge(atCycle, level)]
        && currentLevel == old(currentLevel) && dropped == old(dropped)
      ensures old(nEvents) == 256 ==>
        !lossless && events[..] == old(events[..]) && nEvents == 256 && currentLevel == level
        && dropped == (old(dropped) + 1) % 0x1_0000_0000
    {
      if nEvents >= MAX_EVENTS {
        dropped := (dropped + 1) % 0x1_0000_0000;
        currentLevel := level;
        lossless := false;
        return;
      }
      events[nEvents] := Edge(atCycle, level);
      nEvents := nEvents + 1;
    }

    /** The host consumes up to k frames, as far as there are any. */
    method HostDrains(k: nat)
      requires pcm.Valid()
      modifies pcm`consumed, pcm`heard, pcm`part
      ensures pcm.Valid() && pcm.stream == old(pcm.stream)
      ensures pcm.consumed == Min(old(pcm.consumed) + k, |pcm.stream|)
      ensures pcm.Room() == Min(old(pcm.Room()) + k, pcm.ring.Length - 1)
    {
      hide Slot, Pcm.Valid;
      InRing();
      for j := 0 to k
        invariant pcm.Valid() && pcm.stream == old(pcm.stream)
        invariant pcm.consumed == Min(old(pcm.consumed) + j, |pcm.stream|)
      {
        pcm.HostTakes(0);
      }
    }

    /** The wait for room: at most 50 polls a millisecond apart, the host taking
        drains(j) frames before poll j. It succeeds exactly when the room there
        was and what the host takes in 50 polls are enough. */
    method AwaitRoom(frames: nat, drains: nat -> nat) returns (ok: bool)
      requires pcm.Valid() && pcm.running && frames < pcm.ring.Length
      modifies pcm`consumed, pcm`heard, pcm`part
      ensures pcm.Valid() && pcm.stream == old(pcm.stream)
      ensures ok <==> frames <= pcm.Room()
      ensures ok <==> frames <= old(pcm.Room()) + Drained(drains, 50)
    {
      hide Slot, Pcm.Valid, Pcm.Room, Drained;
      InRing();
      NothingDrained(drains);
      ghost var room := pcm.Room();
      var free := pcm.Writable();
      var waited := 0;
      while free < frames
        invariant pcm.Valid() && pcm.stream == old(pcm.stream)
        invariant 0 <= waited <= MAX_WAITS && free == pcm.Room()
        invariant free == Min(room + Drained(drains, waited), pcm.ring.Length - 1)
        decreases MAX_WAITS - waited
      {
        if waited >= MAX_WAITS { return false; }
        DrainedStep(drains, waited);
        waited := waited + 1;
        HostDrains(drains(waited));
        free := pcm.Writable();
      }
      DrainedGrows(drains, waited, MAX_WAITS);
      ok := true;
    }

    lemma InRing()
      requires pcm.Valid()
      ensures pcm.consumed <= |pcm.stream| < pcm.consumed + pcm.ring.Length
      ensures 0 <= pcm.Room() < pcm.ring.Length && pcm.channels > 0
    {}

    ghost predicate Elapsed(now: nat)
      requires hz > 0
      reads this
    {
      ToSample(now, hz) > totalSamples
    }

    /** The frames an advance has to put out: never more than the ring takes. */
    ghost function Due(now: nat): int
      requires hz > 0
      reads this
    {
      Min(ToSample(now, hz) - totalSamples, RING_FRAMES - 1)
    }

    /** The host does not make room for them in 50 polls. */
    ghost predicate Stalls(now: nat, drains: nat -> nat)
      requires hz > 0
      reads this, pcm
    {
      Elapsed(now) && Due(now) > Vacant() + Drained(drains, 50)
    }

    /** audio_edge_advance. Before poll j of the wait for room the host takes
        drains(j) frames. The stream stays faithful exactly when the frame is
        not over 4799 samples and the host makes room for it in time. */
    method Advance(now: u64, drains: nat -> nat)
      requires Valid()
      modifies this, pcm, pcm.ring
      ensures Valid() && nEvents == 0 && lastNow == now
      ensures old(pcm.stream) <= pcm.stream
      ensures |pcm.stream| == |old(pcm.stream)| + if old(Elapsed(now)) && !old(Stalls(now, drains)) then old(Due(now)) else 0
      ensures totalSamples == Max(old(totalSamples), ToSample(now, hz))
      ensures lossless <==>
        old(lossless) && !old(Stalls(now, drains)) && ToSample(now, hz) - old(totalSamples) <= RING_FRAMES - 1
      ensures !old(Stalls(now, drains)) ==> drained == old(drained) + old(events[..nEvents])
      ensures lossless && old(punctual) && old(IsPunctual(now)) ==> punctual
      ensures currentLevel ==
        if old(nEvents) == 0 || old(Stalls(now, drains)) then old(currentLevel) else old(events[nEvents - 1].level)
    {
      hide Slot, Zoh, ToSample, LastLevel, MarksOf, PlainMarks, Within, Follows, IsPunctual, Drained, Pcm.Valid, Pcm.Room;
      var totalNow := ToSample(now, hz);
      if totalNow <= totalSamples {
        AdvanceIdle(now);
        return;
      }
      var frames := totalNow - totalSamples;
      if frames > RING_FRAMES - 1 { frames := RING_FRAMES - 1; }
      var ok := AwaitRoom(frames, drains);
      if !ok {
        Skip(now, totalNow);
        return;
      }
      Emit(now, frames, totalNow);
    }

    /** The frame is dropped, edges and all. */
    method Skip(now: u64, totalNow: nat)
      requires Valid() && totalSamples < totalNow == ToSample(now, hz)
      modifies this
      ensures Valid() && nEvents == 0 && lastNow == now && totalSamples == totalNow
      ensures !lossless && currentLevel == old(currentLevel)
    {
      hide Slot, Zoh, ToSample, LastLevel, MarksOf, PlainMarks, Within, Follows, IsPunctual;
      nEvents := 0;
      WithinLater(history, totalSamples, totalNow);
      totalSamples := totalNow;
      lossless, punctual, lastNow := false, false, now;
    }

    /** No sample has elapsed: only the level is kept. */
    method AdvanceIdle(now: u64)
      requires Valid() && ToSample(now, hz) <= totalSamples
      modifies this
      ensures Valid() && nEvents == 0 && lastNow == now
      ensures totalSamples == old(totalSamples) && lossless == old(lossless)
      ensures drained == old(drained) + old(events[..nEvents])
      ensures punctual <==> old(punctual) && old(IsPunctual(now))
      ensures currentLevel == if old(nEvents) == 0 then old(currentLevel) else old(events[nEvents - 1].level)
    {
      hide Slot, Zoh, ToSample, LastLevel, Within, Follows, IsPunctual, PlainMarks;
      ghost var es, was := events[..nEvents], punctual && IsPunctual(now);
      ghost var marks := MarksOf(es, now, totalSamples, totalSamples, hz);
      if was { PunctualHere(now, es); }
      LastOfSum(history, marks);
      OldSamplesKept(history, marks, totalSamples);
      WithinGrows(history, es, now, totalSamples, totalSamples, hz);
      if lossless { SameHold(pcm.stream, history, history + marks, totalSamples); }
      if nEvents != 0 {
        currentLevel := events[nEvents - 1].level;
        nEvents := 0;
      }
      history, drained := history + marks, drained + es;
      punctual, lastNow := was, now;
    }

    /** Render a frame there is room for and commit it. */
    method Emit(now: u64, frames: nat, totalNow: nat)
      requires Valid() && 0 < frames <= pcm.Room() && totalNow == ToSample(now, hz)
      requires frames == Min(totalNow - totalSamples, RING_FRAMES - 1)
      modifies this, pcm, pcm.ring
      ensures Valid() && nEvents == 0 && lastNow == now && totalSamples == totalNow
      ensures old(pcm.stream) <= pcm.stream && |pcm.stream| == |old(pcm.stream)| + frames
      ensures drained == old(drained) + old(events[..nEvents])
      ensures lossless <==> old(lossless) && totalNow == old(totalSamples) + frames
      ensures punctual <==> old(punctual) && old(IsPunctual(now)) && totalNow == old(totalSamples) + frames
      ensures currentLevel == if old(nEvents) == 0 then old(currentLevel) else old(events[nEvents - 1].level)
    {
      hide Slot, Zoh, ToSample, LastLevel, PlainMarks, MarksOf, Within, Follows, IsPunctual, Pcm.Valid;
      ghost var es := events[..nEvents];
      var last; ghost var h;
      last, h := Render(now, frames, es);
      Commit(now, frames, h, es, last);
      Finish(now, frames, totalNow, last, h, es);
    }

    /** Hand the rendered frames to the ring's reader. */
    method Commit(ghost now: nat, frames: nat, ghost h: seq<Mark>, ghost es: seq<Edge>, ghost last: i16)
      requires Shape() && Faithful() && frames <= pcm.Room()
      requires h == history + MarksOf(es, now, totalSamples, totalSamples + frames, hz)
      requires lossless ==> Rendered(h, frames)
      modifies pcm
      ensures Shape() && old(pcm.stream) <= pcm.stream && |pcm.stream| == |old(pcm.stream)| + frames
      ensures lossless ==> Follows(pcm.stream, h, totalSamples + frames)
    {
      hide Slot, Zoh, ToSample, LastLevel, MarksOf, Within, Follows, Rendered;
      OldSamplesKept(history, MarksOf(es, now, totalSamples, totalSamples + frames, hz), totalSamples);
      ghost var data := Next(frames);
      if lossless {
        NextIsHold(h, frames);
        StreamGrows(pcm.stream, history, h, totalSamples, frames, data);
      }
      pcm.Advance(frames, data);
    }

    method Finish(now: u64, frames: nat, totalNow: nat, last: i16, ghost h: seq<Mark>, ghost es: seq<Edge>)
      requires Shape() && totalSamples + frames <= totalNow == ToSample(now, hz) && es == events[..nEvents]
      requires punctual ==> history == PlainMarks(drained, hz) && totalSamples == ToSample(lastNow, hz)
      requires h == history + MarksOf(es, now, totalSamples, totalSamples + frames, hz)
      requires lossless ==> Follows(pcm.stream, h, totalSamples + frames) && last == LastLevel(h)
      modifies this
      ensures Valid() && nEvents == 0 && lastNow == now && totalSamples == totalNow
      ensures drained == old(drained) + es && currentLevel == last
      ensures lossless <==> old(lossless) && totalNow == old(totalSamples) + frames
      ensures punctual <==> old(punctual) && old(IsPunctual(now)) && totalNow == old(totalSamples) + frames
    {
      hide Slot, Zoh, ToSample, LastLevel, PlainMarks, MarksOf, Within, Follows, IsPunctual;
      ghost var was := punctual && IsPunctual(now);
      if was { PunctualHere(now, es); }
      WithinGrows(history, es, now, totalSamples, totalSamples + frames, hz);
      WithinLater(h, totalSamples + frames, totalNow);
      ghost var whole := totalNow == totalSamples + frames;
      totalSamples := totalNow;
      currentLevel := last;
      nEvents := 0;
      history, drained := h, drained + es;
      lossless := lossless && whole;
      punctual, lastNow := was && whole, now;
    }

    /** What the ring holds for the next n positions of the stream. */
    ghost function Next(n: nat): (d: seq<i16>)
      requires pcm.ring.Length > 0
      reads this, pcm, pcm.ring
      ensures |d| == n
      ensures forall i :: |pcm.stream| <= i < |pcm.stream| + n ==> d[i - |pcm.stream|] == pcm.Frame(i)
      ensures forall i :: 0 <= i < n ==> d[i] == pcm.Frame(|pcm.stream| + i)
    {
      if n == 0 then [] else Next(n - 1) + [pcm.Frame(|pcm.stream| + n - 1)]
    }

    lemma NextIsHold(h: seq<Mark>, n: nat)
      requires pcm.ring.Length > 0 && Rendered(h, n)
      ensures forall i :: 0 <= i < n ==> Next(n)[i] == Zoh(h, totalSamples + i)
    {
      hide Zoh;
    }

    /** With the event array full, audio_edge_set keeps the level of a further
        edge, meaning it to be what the frame ends on. It is exactly when the
        256th edge has that level too, or the frame is dropped: otherwise the
        256th edge decides. */
    method FullArrayForgetsLevel(level: i16, atCycle: u64, now: u64, drains: nat -> nat)
      requires Valid() && nEvents == MAX_EVENTS
      modifies this, pcm, pcm.ring, events
      ensures currentLevel == level <==>
        level == old(events[MAX_EVENTS - 1].level) || old(Stalls(now, drains))
    {
      hide ToSample, Within, Follows, LastLevel, PlainMarks, IsPunctual, Drained;
      ghost var before := events[..];
      Set(level, atCycle);
      assert events[MAX_EVENTS - 1] == before[MAX_EVENTS - 1];
      Advance(now, drains);
    }

    ghost function Vacant(): int
      reads this, pcm
    {
      pcm.Room()
    }

    lemma PunctualHere(now: nat, es: seq<Edge>)
      requires hz > 0 && nEvents <= events.Length && es == events[..nEvents] && IsPunctual(now)
      requires totalSamples == ToSample(lastNow, hz)
      ensures totalSamples <= ToSample(now, hz)
      ensures MarksOf(es, now, totalSamples, ToSample(now, hz), hz) == PlainMarks(es, hz)
      ensures PlainMarks(drained + es, hz) == PlainMarks(drained, hz) + PlainMarks(es, hz)
    {
      hide ToSample, MarksOf, PlainMarks;
      PunctualFrame(es, drained, lastNow, now, hz);
    }

    /** Every pending edge lies between the last advance and this one, and the
        clock has not wrapped around. */
    ghost predicate IsPunctual(now: nat)
      requires hz > 0 && nEvents <= events.Length
      reads this, events
    {
      && lastNow <= now && now * RATE < TWO64
      && ToSample(now, hz) - totalSamples < 0x1_0000_0000
      && forall i :: 0 <= i < nEvents ==> lastNow <= events[i].cycle <= now
    }

    /** The rendering loops: the ring's next `frames` positions get the
        zero-order hold of all edges drained so far. */
    method Render(now: u64, frames: nat, ghost es: seq<Edge>) returns (last: i16, ghost h: seq<Mark>)
      requires Shape() && frames <= pcm.Room() && es == events[..nEvents]
      modifies pcm.ring
      ensures Shape()
      ensures h == history + MarksOf(es, now, totalSamples, totalSamples + frames, hz)
      ensures currentLevel == LastLevel(history) ==> last == LastLevel(h)
      ensures last == if nEvents == 0 then currentLevel else es[nEvents - 1].level
      ensures currentLevel == LastLevel(history) ==> Rendered(h, frames)
    {
      hide Slot, ToSample, EffectiveAt, Zoh, LastLevel;
      ghost var marks := MarksOf(es, now, totalSamples, totalSamples + frames, hz);
      var prevIdx, i := 0, 0;
      last := currentLevel;
      h := history;
      ghost var exact := currentLevel == LastLevel(history);
      while i < nEvents
        invariant 0 <= i <= nEvents && 0 <= prevIdx <= frames && h == history + marks[..i]
        invariant exact ==> last == LastLevel(h)
        invariant last == if i == 0 then currentLevel else es[i - 1].level
        invariant h != [] ==> h[|h|-1].at <= totalSamples + prevIdx
        invariant exact ==> Rendered(h, prevIdx)
        invariant pcm.Valid()
      {
        prevIdx := RenderEdge(events[i], marks[i], now, frames, prevIdx, last, h, exact);
        assert marks[..i + 1] == marks[..i] + [marks[i]];
        last := events[i].level;
        h := h + [marks[i]];
        i := i + 1;
      }
      assert marks[..i] == marks;
      Hold(prevIdx, frames, last, h, exact);
    }

    /** One edge: the level before it is held up to its sample. */
    method RenderEdge(e: Edge, ghost m: Mark, now: u64, frames: nat, prevIdx: nat, level: i16,
                      ghost h: seq<Mark>, ghost exact: bool)
      returns (evtIdx: nat)
      requires hz > 0 && pcm.Valid() && pcm.ring.Length == RING_FRAMES && frames <= pcm.Room()
      requires m == Mark(EffectiveAt(e.cycle, now, totalSamples, totalSamples + frames, hz), e.level)
      requires h != [] ==> h[|h|-1].at <= totalSamples + prevIdx
      requires exact ==> level == LastLevel(h) && Rendered(h, prevIdx)
      modifies pcm.ring
      ensures pcm.Valid() && evtIdx <= frames && m.at == totalSamples + evtIdx
      ensures exact ==> Rendered(h + [m], evtIdx)
      ensures e.level == LastLevel(h + [m])
    {
      hide Slot, ToSample, EffectiveAt, Zoh;
      evtIdx := EventIndex(e.cycle, now, frames);
      Hold(prevIdx, evtIdx, level, h, exact);
      RenderedSnoc(h, m, evtIdx);
    }

    /** The ring's next n positions hold what `h` says. */
    ghost predicate Rendered(h: seq<Mark>, n: nat)
      requires pcm.ring.Length > 0
      reads this, pcm, pcm.ring
    {
      forall p {:trigger pcm.Frame(p)} :: |pcm.stream| <= p < |pcm.stream| + n ==>
        pcm.Frame(p) == Zoh(h, totalSamples + (p - |pcm.stream|))
    }

    lemma RenderedSnoc(h: seq<Mark>, m: Mark, n: nat)
      requires pcm.ring.Length > 0 && m.at == totalSamples + n
      ensures Rendered(h, n) ==> Rendered(h + [m], n)
      ensures LastLevel(h + [m]) == m.level
    {
      hide Zoh;
      if Rendered(h, n) {
        forall p | |pcm.stream| <= p < |pcm.stream| + n
          ensures pcm.Frame(p) == Zoh(h + [m], totalSamples + (p - |pcm.stream|))
        {
          ZohSnoc(h, m, totalSamples + (p - |pcm.stream|));
        }
      }
    }

    /** Holding the last level from prevIdx up to upTo (or not at all, when an
        edge goes back) keeps the ring in step with `h`. */
    method Hold(prevIdx: nat, upTo: nat, level: i16, ghost h: seq<Mark>, ghost exact: bool)
      requires pcm.Valid() && pcm.ring.Length == RING_FRAMES && upTo <= pcm.Room()
      requires h != [] ==> h[|h|-1].at <= totalSamples + prevIdx
      requires exact ==> level == LastLevel(h) && Rendered(h, prevIdx)
      modifies pcm.ring
      ensures pcm.Valid()
      ensures exact ==> Rendered(h, upTo)
    {
      hide Slot;
      FillRing(prevIdx, upTo, level);
    }

    /** The frame-relative sample of an event. */
    method EventIndex(cycle: u64, now: u64, frames: nat) returns (evtIdx: nat)
      requires hz > 0
      ensures totalSamples + evtIdx == EffectiveAt(cycle, now, totalSamples, totalSamples + frames, hz)
    {
      var evtCycle := cycle;
      if evtCycle > now { evtCycle := now; }
      var evtSampleTotal := ToSample(evtCycle, hz);
      evtIdx := if evtSampleTotal > totalSamples then (evtSampleTotal - totalSamples) % 0x1_0000_0000 else 0;
      if evtIdx > frames { evtIdx := frames; }
    }

    /** Put `level` in the ring at offsets [from, to) behind the write
        position: the stream positions that come next. */
    method FillRing(from: nat, to: nat, level: i16)
      requires pcm.Valid() && pcm.ring.Length == RING_FRAMES && to <= pcm.Room()
      modifies pcm.ring
      ensures forall i :: |pcm.stream| + from <= i < |pcm.stream| + to ==> pcm.Frame(i) == level
      ensures forall i {:trigger pcm.Frame(i)} :: pcm.consumed <= i < pcm.consumed + RING_FRAMES ==>
        (|pcm.stream| + from <= i < |pcm.stream| + to) || pcm.Frame(i) == old(pcm.Frame(i))
    {
      var s := from;
      while s < to
        invariant from <= s && (s <= to || s == from)
        invariant forall i :: |pcm.stream| + from <= i < |pcm.stream| + s ==> pcm.Frame(i) == level
        invariant forall i {:trigger pcm.Frame(i)} :: pcm.consumed <= i < pcm.consumed + RING_FRAMES ==>
          (|pcm.stream| + from <= i < |pcm.stream| + s) || pcm.Frame(i) == old(pcm.Frame(i))
      {
        StoreFrame(s, level);
        s := s + 1;
      }
    }

    method StoreFrame(s: nat, level: i16)
      requires pcm.Valid() && pcm.ring.Length == RING_FRAMES && s < pcm.Room()
      modifies pcm.ring
      ensures pcm.Frame(|pcm.stream| + s) == level
      ensures forall j :: pcm.consumed <= j < pcm.consumed + RING_FRAMES && j != |pcm.stream| + s ==>
        pcm.Frame(j) == old(pcm.Frame(j))
    {
      hide Slot;
      ghost var i := |pcm.stream| + s;
      SlotAdd(|pcm.stream|, s, RING_FRAMES);
      SlotIsMod(pcm.wpFrames + s, RING_FRAMES);
      pcm.ring[(pcm.wpFrames + s) % RING_FRAMES] := level;
      forall j | pcm.consumed <= j < pcm.consumed + RING_FRAMES && j != i
        ensures Slot(j, RING_FRAMES) != Slot(i, RING_FRAMES)
      {
        if j < i { SlotsDiffer(j, i, RING_FRAMES); } else { SlotsDiffer(i, j, RING_FRAMES); }
      }
    }
  }

  /** What a class in order holds, said without frames. */
  lemma StreamOfEdges(a: Speaker)
    requires a.Valid() && a.lossless && a.punctual
    ensures |a.pcm.stream| == RING_FRAMES - 1 + ToSample(a.lastNow, a.hz)
    ensures forall s :: 0 <= s < ToSample(a.lastNow, a.hz) ==>
      a.pcm.stream[RING_FRAMES - 1 + s] == Zoh(PlainMarks(a.drained, a.hz), s)
  {}

  /** Two runs that drained the same edges up to the same cycle put out the same
      stream, however their frames were cut. */
  lemma CutsDoNotMatter(a: Speaker, b: Speaker)
    requires a.Valid() && a.lossless && a.punctual && b.Valid() && b.lossless && b.punctual
    requires a.hz == b.hz && a.drained == b.drained && a.lastNow == b.lastNow
    ensures a.pcm.stream[RING_FRAMES - 1..] == b.pcm.stream[RING_FRAMES - 1..]
  {
    hide ToSample, PlainMarks, Zoh, Follows;
    StreamOfEdges(a);
    StreamOfEdges(b);
    var x, y := a.pcm.stream[RING_FRAMES - 1..], b.pcm.stream[RING_FRAMES - 1..];
    forall s | 0 <= s < |x| ensures x[s] == y[s] {
      assert x[s] == a.pcm.stream[RING_FRAMES - 1 + s] == Zoh(PlainMarks(a.drained, a.hz), s);
      assert y[s] == b.pcm.stream[RING_FRAMES - 1 + s];
    }
  }

  // ---- Whole runs ----

  /** A call of the audio interface. */
  datatype Call = SetLevel(level: i16, cycle: u64) | AdvanceTo(now: u64, drains: nat -> nat)

  /** A frame from cycle `last` to `now`: at most 4799 samples, with a host that
      takes as many in 50 polls, and edges between the two cycles. */
  ghost predicate InTime(pending: seq<Edge>, last: nat, now: nat, drains: nat -> nat, hz: nat)
    requires hz > 0
  {
    && last <= now && now * 48000 < 0x1_0000_0000_0000_0000
    && ToSample(now, hz) - ToSample(last, hz) <= 4799
    && ToSample(now, hz) - ToSample(last, hz) <= Drained(drains, 50)
    && forall i :: 0 <= i < |pending| ==> last <= pending[i].cycle <= now
  }

  /** Calls in order of time, at most 256 edges to a frame. */
  ghost predicate Orderly(calls: seq<Call>, pending: seq<Edge>, last: nat, hz: nat)
    requires hz > 0
    decreases |calls|
  {
    calls != [] ==>
      match calls[0]
      case SetLevel(level, cycle) => |pending| < 256 && Orderly(calls[1..], pending + [Edge(cycle, level)], last, hz)
      case AdvanceTo(now, drains) => InTime(pending, last, now, drains, hz) && Orderly(calls[1..], [], now, hz)
  }

  /** The edges the calls drain, in order of submission. */
  ghost function Heard(calls: seq<Call>, pending: seq<Edge>): seq<Edge>
    decreases |calls|
  {
    if calls == [] then []
    else match calls[0]
      case SetLevel(level, cycle) => Heard(calls[1..], pending + [Edge(cycle, level)])
      case AdvanceTo(_, _) => pending + Heard(calls[1..], [])
  }

  /** The cycle of the last advance. */
  ghost function Until(calls: seq<Call>, last: nat): nat
    decreases |calls|
  {
    if calls == [] then last
    else Until(calls[1..], if calls[0].AdvanceTo? then calls[0].now else last)
  }

  /** One call, in time, keeps the stream that of the edges submitted. */
  method PlayOne(e: Speaker, call: Call)
    requires e.Valid() && e.lossless && e.punctual
    requires call.SetLevel? ==> e.nEvents < MAX_EVENTS
    requires call.AdvanceTo? ==> InTime(e.events[..e.nEvents], e.lastNow, call.now, call.drains, e.hz)
    modifies e, e.events, e.pcm, e.pcm.ring
    ensures e.Valid() && e.lossless && e.punctual && old(e.pcm.stream) <= e.pcm.stream
    ensures call.SetLevel? ==>
      e.events[..e.nEvents] == old(e.events[..e.nEvents]) + [Edge(call.cycle, call.level)]
      && e.drained == old(e.drained) && e.lastNow == old(e.lastNow)
    ensures call.AdvanceTo? ==>
      e.nEvents == 0 && e.drained == old(e.drained) + old(e.events[..e.nEvents]) && e.lastNow == call.now
  {
    hide Slot, Zoh, ToSample, PlainMarks, Within, Follows, LastLevel, Drained, Pcm.Valid;
    match call {
      case SetLevel(level, cycle) => e.Set(level, cycle);
      case AdvanceTo(now, drains) =>
        FrameInTime(e, now, drains);
        e.Advance(now, drains);
    }
  }

  lemma FrameInTime(e: Speaker, now: nat, drains: nat -> nat)
    requires e.Valid() && e.punctual && InTime(e.events[..e.nEvents], e.lastNow, now, drains, e.hz)
    ensures e.IsPunctual(now) && !e.Stalls(now, drains) && ToSample(now, e.hz) - e.totalSamples <= RING_FRAMES - 1
  {
    hide Slot, Zoh, ToSample, PlainMarks, Within, Follows, LastLevel, Drained;
    assert forall i :: 0 <= i < e.nEvents ==> e.events[i] == e.events[..e.nEvents][i];
  }

  /** Every edge drained in an orderly run is short of the wrap-around. */
  lemma {:induction false} HeardInRange(calls: seq<Call>, pending: seq<Edge>, last: nat, hz: nat)
    requires hz > 0 && Orderly(calls, pending, last, hz) && last * 48000 < 0x1_0000_0000_0000_0000
    ensures Until(calls, last) * 48000 < 0x1_0000_0000_0000_0000
    ensures InRange(Heard(calls, pending))
    decreases |calls|
  {
    hide ToSample, Drained;
    if calls != [] {
      match calls[0]
      case SetLevel(level, cycle) => HeardInRange(calls[1..], pending + [Edge(cycle, level)], last, hz);
      case AdvanceTo(now, drains) => HeardInRange(calls[1..], [], now, hz);
    }
  }

  ghost predicate InRange(es: seq<Edge>) {
    forall i :: 0 <= i < |es| ==> es[i].cycle * 48000 < 0x1_0000_0000_0000_0000
  }

  /** `level` is that of the last of the edges, in order of submission, to come
      by sample s at 48000 samples to hz cycles; silence before the first. */
  ghost predicate LastHeard(es: seq<Edge>, hz: nat, s: nat, level: i16) {
    || (level == 0 && forall j :: 0 <= j < |es| ==> es[j].cycle * 48000 >= (s + 1) * hz)
    || exists k :: 0 <= k < |es| && es[k].cycle * 48000 < (s + 1) * hz && level == es[k].level
                   && forall j :: k < j < |es| ==> es[j].cycle * 48000 >= (s + 1) * hz
  }

  lemma {:induction false} HoldIsLastHeard(es: seq<Edge>, hz: nat, s: nat)
    requires hz > 0 && InRange(es)
    ensures LastHeard(es, hz, s, Zoh(PlainMarks(es, hz), s))
    decreases |es|
  {
    hide ToSample;
    if es != [] {
      var n := |es| - 1;
      HasCome(es[n].cycle, hz, s);
      assert PlainMarks(es, hz)[..n] == PlainMarks(es[..n], hz);
      if es[n].cycle * 48000 >= (s + 1) * hz {
        HoldIsLastHeard(es[..n], hz, s);
        LastOfPrefix(es, hz, s, Zoh(PlainMarks(es[..n], hz), s));
      }
    }
  }

  lemma LastOfPrefix(es: seq<Edge>, hz: nat, s: nat, level: i16)
    requires es != [] && es[|es| - 1].cycle * 48000 >= (s + 1) * hz && LastHeard(es[..|es| - 1], hz, s, level)
    ensures LastHeard(es, hz, s, level)
  {
    var n := |es| - 1;
    var fs := es[..n];
    if !(level == 0 && forall j :: 0 <= j < n ==> fs[j].cycle * 48000 >= (s + 1) * hz) {
      var k :| 0 <= k < n && fs[k].cycle * 48000 < (s + 1) * hz && level == fs[k].level
               && forall j :: k < j < n ==> fs[j].cycle * 48000 >= (s + 1) * hz;
      assert es[k].cycle * 48000 < (s + 1) * hz && level == es[k].level;
      forall j | k < j < |es| ensures es[j].cycle * 48000 >= (s + 1) * hz {
        if j < n { assert fs[j] == es[j]; }
      }
    } else {
      forall j | 0 <= j < |es| ensures es[j].cycle * 48000 >= (s + 1) * hz {
        if j < n { assert fs[j] == es[j]; }
      }
    }
  }

  function Silence(n: nat): (r: seq<i16>)
    ensures |r| == n && forall i :: 0 <= i < n ==> r[i] == 0
  {
    seq(n, _ => 0)
  }

  /** The stream of a whole run, from opening on: 4799 samples of silence, then
      for every sample up to the last advance the level of the last edge
      submitted that has come by then. The frames do not occur in it. */
  method Play(hz: nat, calls: seq<Call>) returns (e: Speaker)
    requires hz > 0 && Orderly(calls, [], 0, hz)
    ensures fresh(e.Repr()) && e.Valid() && Silence(4799) <= e.pcm.stream
    ensures var n := |e.pcm.stream| - 4799; n * hz <= Until(calls, 0) * 48000 < (n + 1) * hz
    ensures forall i :: 4799 <= i < |e.pcm.stream| ==> LastHeard(Heard(calls, []), hz, i - 4799, e.pcm.stream[i])
  {
    hide Slot, Zoh, ToSample, PlainMarks, Within, Follows, LastLevel, Drained, InTime, Pcm.Valid;
    e := new Speaker(hz);
    var i := 0;
    assert e.events[..e.nEvents] == [] && calls[0..] == calls;
    while i < |calls|
      invariant 0 <= i <= |calls| && fresh(e.Repr()) && e.hz == hz
      invariant e.Valid() && e.lossless && e.punctual && Silence(4799) <= e.pcm.stream
      invariant Orderly(calls[i..], e.events[..e.nEvents], e.lastNow, hz)
      invariant e.drained + Heard(calls[i..], e.events[..e.nEvents]) == Heard(calls, [])
      invariant Until(calls[i..], e.lastNow) == Until(calls, 0)
    {
      assert calls[i..][0] == calls[i] && calls[i..][1..] == calls[i + 1..];
      ghost var drained, pending, rest := e.drained, e.events[..e.nEvents], calls[i + 1..];
      PlayOne(e, calls[i]);
      if calls[i].AdvanceTo? {
        assert e.events[..e.nEvents] == [];
        assert drained + (pending + Heard(rest, [])) == drained + pending + Heard(rest, []);
      }
      i := i + 1;
    }
    assert e.drained + [] == e.drained;
    StreamIsLastHeard(e, calls);
  }

  lemma StreamIsLastHeard(e: Speaker, calls: seq<Call>)
    requires e.Valid() && e.lossless && e.punctual && Orderly(calls, [], 0, e.hz)
    requires e.drained == Heard(calls, []) && e.lastNow == Until(calls, 0)
    ensures |e.pcm.stream| >= 4799
    ensures var n := |e.pcm.stream| - 4799; n * e.hz <= Until(calls, 0) * 48000 < (n + 1) * e.hz
    ensures forall i :: 4799 <= i < |e.pcm.stream| ==> LastHeard(Heard(calls, []), e.hz, i - 4799, e.pcm.stream[i])
  {
    hide Zoh, ToSample, PlainMarks, Within, Follows, LastLevel, Drained, InTime, LastHeard, Slot, Pcm.Valid;
    StreamOfEdges(e);
    HeardInRange(calls, [], 0, e.hz);
    ToSampleIsFloor(e.lastNow, e.hz);
    forall i | 4799 <= i < |e.pcm.stream| ensures LastHeard(Heard(calls, []), e.hz, i - 4799, e.pcm.stream[i]) {
      var s := i - 4799;
      HoldIsLastHeard(e.drained, e.hz, s);
      assert e.pcm.stream[RING_FRAMES - 1 + s] == Zoh(PlainMarks(e.drained, e.hz), s);
    }
  }
}
