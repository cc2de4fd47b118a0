/** The keyboard driver of src/virtio_input.c: a client of the virtqueue that
    keeps every descriptor posted as an empty event buffer. */
module VirtInput {
  import opened Words
  import opened VirtQueue
  import opened VirtProtocol
  import opened VirtRuns

  const QSIZE: u16 := 16
  const EVENT_BYTES: u32 := 8
  const EV_KEY: u16 := 1

  datatype Event = Event(kind: u16, code: u16, value: u32)

  /** One use of an event buffer: what the device wrote, and the length it
      reported. */
  datatype Arrival = Arrival(event: Event, len: u32)

  /** One call of the keyboard callback. */
  datatype KeyChange = KeyChange(usage: u8, pressed: bool)

  /** Linux keycode to USB usage, sixteen keycodes a row; 0 where there is none. */
  const KEYS_0: seq<u8> := [0x00, 0x29, 0x1E, 0x1F, 0x20, 0x21, 0x22, 0x23, 0x24, 0x25, 0x26, 0x27, 0x2D, 0x2E, 0x2A, 0x2B]
  const KEYS_16: seq<u8> := [0x14, 0x1A, 0x08, 0x15, 0x17, 0x1C, 0x18, 0x0C, 0x12, 0x13, 0x2F, 0x30, 0x28, 0xE0, 0x04, 0x16]
  const KEYS_32: seq<u8> := [0x07, 0x09, 0x0A, 0x0B, 0x0D, 0x0E, 0x0F, 0x33, 0x34, 0x35, 0xE1, 0x31, 0x1D, 0x1B, 0x06, 0x19]
  const KEYS_48: seq<u8> := [0x05, 0x11, 0x10, 0x36, 0x37, 0x38, 0xE5, 0x55, 0xE2, 0x2C, 0x39, 0x3A, 0x3B, 0x3C, 0x3D, 0x3E]
  const KEYS_64: seq<u8> := [0x3F, 0x40, 0x41, 0x42, 0x43, 0x53, 0x47, 0x5F, 0x60, 0x61, 0x56, 0x5C, 0x5D, 0x5E, 0x57, 0x59]
  const KEYS_80: seq<u8> := [0x5A, 0x5B, 0x62, 0x63, 0x00, 0x00, 0x00, 0x44, 0x45, 0x00, 0x00, 0x00, 0x00, 0x00, 0x00, 0x00]
  const KEYS_96: seq<u8> := [0x58, 0xE4, 0x54, 0x46, 0xE6, 0x00, 0x4A, 0x52, 0x4B, 0x50, 0x4F, 0x4D, 0x51, 0x4E, 0x49, 0x4C]
  const KEYS_112: seq<u8> := [0x00, 0x00, 0x00, 0x00, 0x00, 0x00, 0x00, 0x00, 0x00, 0x00, 0x00, 0x00, 0x00, 0xE3, 0xE7, 0x00]
  const LKC_TO_USB: seq<u8> :=
    KEYS_0 + KEYS_16 + KEYS_32 + KEYS_48 + KEYS_64 + KEYS_80 + KEYS_96 + KEYS_112

  /** The USB usage of a Linux keycode, if it has one. */
  function Usage(code: u16): u8 {
    if code < |LKC_TO_USB| then LKC_TO_USB[code] else 0
  }

  /** What a whole event of the device means to the keyboard's user: presses
      and releases of known keys, and nothing else. */
  predicate IsKeyChange(a: Arrival) {
    a.len >= EVENT_BYTES && a.event.kind == EV_KEY && a.event.value != 2 && Usage(a.event.code) != 0
  }

  function KeyChanges(w: seq<Arrival>): seq<KeyChange> {
    if w == [] then []
    else
      var a := w[|w|-1];
      KeyChanges(w[..|w|-1])
      + (if IsKeyChange(a) then [KeyChange(Usage(a.event.code), a.event.value == 1)] else [])
  }

  /** What one event comes to, and that events are taken one by one. */
  lemma KeyChangesLaws(a: Arrival, v: seq<Arrival>, w: seq<Arrival>)
    ensures KeyChanges([a]) ==
      if a.len >= 8 && a.event.kind == 1 && a.event.value != 2 && a.event.code < 128 && LKC_TO_USB[a.event.code] != 0
      then [KeyChange(LKC_TO_USB[a.event.code], a.event.value == 1)] else []
    ensures KeyChanges(v + w) == KeyChanges(v) + KeyChanges(w)
  {
    hide IsKeyChange;
    OneKey(a);
    KeyChangesJoin(v, w);
  }

  lemma OneKey(a: Arrival)
    ensures KeyChanges([a]) ==
      if a.len >= 8 && a.event.kind == 1 && a.event.value != 2 && a.event.code < 128 && LKC_TO_USB[a.event.code] != 0
      then [KeyChange(LKC_TO_USB[a.event.code], a.event.value == 1)] else []
  {
    assert [a][..0] == [];
    assert |LKC_TO_USB| == 128;
    hide LKC_TO_USB;
  }

  lemma {:induction false} KeyChangesJoin(v: seq<Arrival>, w: seq<Arrival>)
    ensures KeyChanges(v + w) == KeyChanges(v) + KeyChanges(w)
    decreases |w|
  {
    hide IsKeyChange, Usage;
    if w == [] {
      assert v + w == v;
    } else {
      var n := |w| - 1;
      assert (v + w)[..|v + w| - 1] == v + w[..n];
      KeyChangesJoin(v, w[..n]);
    }
  }

  /** The usages of letters in section 10 of the USB HID Usage Tables. */
  function Letters(s: string): (r: seq<int>)
    ensures |r| == |s|
  {
    seq(|s|, i requires 0 <= i < |s| => 0x04 + (s[i] as int - 'a' as int))
  }

  /** Where each row of sixteen is in the table. */
  lemma KeyAt(code: nat)
    requires code < 128
    ensures |LKC_TO_USB| == 128
    ensures 0 <= code < 16 ==> LKC_TO_USB[code] == KEYS_0[code]
    ensures 16 <= code < 32 ==> LKC_TO_USB[code] == KEYS_16[code - 16]
    ensures 32 <= code < 48 ==> LKC_TO_USB[code] == KEYS_32[code - 32]
    ensures 48 <= code < 64 ==> LKC_TO_USB[code] == KEYS_48[code - 48]
    ensures 64 <= code < 80 ==> LKC_TO_USB[code] == KEYS_64[code - 64]
  {}

  lemma TopRow(i: nat)
    requires i < 10
    ensures Usage(16 + i) == Letters("qwertyuiop")[i]
  {
    KeyAt(16 + i);
  }

  lemma HomeRow(i: nat)
    requires i < 9
    ensures Usage(30 + i) == Letters("asdfghjkl")[i]
  {
    KeyAt(30 + i);
    if i < 2 {
      assert Usage(30 + i) == KEYS_16[14 + i];
    } else {
      assert Usage(30 + i) == KEYS_32[i - 2];
    }
  }

  lemma BottomRow(i: nat)
    requires i < 7
    ensures Usage(44 + i) == Letters("zxcvbnm")[i]
  {
    KeyAt(44 + i);
  }

  lemma DigitRow(i: nat)
    requires i < 10
    ensures Usage(2 + i) == 0x1E + i
  {
    KeyAt(2 + i);
  }

  lemma FunctionRow(i: nat)
    requires i < 10
    ensures Usage(59 + i) == 0x3A + i
  {
    KeyAt(59 + i);
  }

  /** Linux numbers the keys of a keyboard row by row: from 16, 30 and 44 on the
      letters, from 2 on the digits, from 59 on the function keys. */
  lemma TableIsUsb(i: nat)
    ensures i < 10 ==> Usage(16 + i) == Letters("qwertyuiop")[i]
    ensures i < 9 ==> Usage(30 + i) == Letters("asdfghjkl")[i]
    ensures i < 7 ==> Usage(44 + i) == Letters("zxcvbnm")[i]
    ensures i < 10 ==> Usage(2 + i) == 0x1E + i
    ensures i < 10 ==> Usage(59 + i) == 0x3A + i
  {
    hide Usage, Letters;
    if i < 10 {
      TopRow(i);
      DigitRow(i);
      FunctionRow(i);
      if i < 9 { HomeRow(i); }
      if i < 7 { BottomRow(i); }
    }
  }

  // ---------------------------------------------------- the device's side

  /** The descriptor of event buffer d, the buffers starting at `base`. */
  function BufferDesc(base: u64, d: u16): Desc
    requires BaseOk(base)
  {
    Desc(base + d * EVENT_BYTES, EVENT_BYTES, F_WRITE, 0)
  }

  predicate BaseOk(base: u64) { base + 0x10_0000 < 0x1_0000_0000_0000_0000 }

  /** Every chain the device can see is one descriptor, that of its buffer. */
  ghost predicate SingleChains(s: Sys, base: u64)
    requires Inv(s) && BaseOk(base)
  {
    forall k :: 0 <= k < |s.chains| && !s.stage[k].Popped? ==>
      |s.chains[k]| == 1 && s.chains[k][0] < |s.q.desc|
      && s.q.desc[s.chains[k][0]] == BufferDesc(base, s.chains[k][0])
  }

  /** The buffers of completions not yet popped still hold what was written. */
  ghost predicate BuffersOk(s: Sys, buf: seq<Event>, w: seq<Arrival>)
    requires Inv(s)
  {
    && |buf| == s.q.size && |w| == |s.log|
    && (forall j :: 0 <= j < |w| ==> w[j].len == s.log[j].len)
    && (forall j :: s.popped <= j < |w| ==>
          s.chains[s.log[j].k][0] < s.q.size && buf[s.chains[s.log[j].k][0]] == w[j].event)
  }

  ghost predicate OnlyHeld(s: Sys, hs: set<u16>) {
    forall d: u16 :: Held(s, d) <==> d in hs
  }

  /** What the device can have done between two steps of the driver. */
  ghost predicate DeviceMoved(s: Sys, w: seq<Arrival>, s': Sys, buf': seq<Event>, w': seq<Arrival>) {
    && Inv(s) && Inv(s') && BuffersOk(s', buf', w')
    && s'.owner == s.owner && s'.free == s.free && s'.chains == s.chains && s'.popped == s.popped
    && s'.q.(usedIdx := s.q.usedIdx, usedRing := s.q.usedRing) == s.q
    && (forall k :: 0 <= k < |s.stage| ==> (s'.stage[k].Popped? <==> s.stage[k].Popped?))
    && |s'.stage| == |s.stage| && s.log <= s'.log && w <= w'
  }

  /** One device step: reading the avail ring, or filling the buffer of a chain
      it has and posting the completion. */
  datatype DeviceStep = Reads | Writes(k: nat, arrival: Arrival)

  datatype World = World(s: Sys, base: u64, buf: seq<Event>, w: seq<Arrival>)

  ghost predicate WorldOk(x: World) {
    Inv(x.s) && BaseOk(x.base) && SingleChains(x.s, x.base) && BuffersOk(x.s, x.buf, x.w)
  }

  ghost predicate DeviceMay(x: World, t: DeviceStep) {
    t.Writes? ==> t.k < |x.s.stage| && x.s.stage[t.k] == InDevice
  }

  /** The event buffer a descriptor gives to the device: one of eight bytes it
      may write, among the n that start at `base`. */
  function Target(base: u64, x: Desc, n: nat): Option<nat> {
    if x.flags / 2 % 2 == 1 && x.len >= 8 && x.addr >= base && (x.addr - base) % 8 == 0 && (x.addr - base) / 8 < n
    then Some((x.addr - base) / 8)
    else None
  }

  lemma TargetOfBuffer(base: u64, d: u16, n: nat)
    requires BaseOk(base) && d < n
    ensures BufferDesc(base, d) == Desc(base + 8 * d, 8, 2, 0)
    ensures Target(base, BufferDesc(base, d), n) == Some(d as nat)
  {}

  /** The device writes where the descriptor at the chain's head says. */
  ghost function DeviceFills(x: World, k: nat, e: Event): (buf: seq<Event>)
    requires WorldOk(x) && k < |x.s.chains| && x.s.chains[k] != [] && x.s.chains[k][0] < |x.s.q.desc|
    ensures |buf| == |x.buf|
  {
    match Target(x.base, x.s.q.desc[x.s.chains[k][0]], |x.buf|)
    case Some(i) => x.buf[i := e]
    case None => x.buf
  }

  lemma HeadInTable(x: World, k: nat)
    requires WorldOk(x) && k < |x.s.stage| && x.s.stage[k] == InDevice
    ensures k < |x.s.chains| && x.s.chains[k] != [] && x.s.chains[k][0] < |x.s.q.desc|
  {
    hide Slot, FreeListOk, UsedOk;
  }

  ghost function DeviceDoes(x: World, t: DeviceStep): World
    requires WorldOk(x) && DeviceMay(x, t)
  {
    match t
    case Reads => x.(s := Apply(x.s, Take))
    case Writes(k, a) =>
      HeadInTable(x, k);
      World(Apply(x.s, Post(k, a.len)), x.base, DeviceFills(x, k, a.event), x.w + [a])
  }

  lemma DeviceStepMoves(x: World, t: DeviceStep)
    requires WorldOk(x) && DeviceMay(x, t)
    ensures var y := DeviceDoes(x, t); WorldOk(y) && DeviceMoved(x.s, x.w, y.s, y.buf, y.w)
  {
    hide Slot, FreeListOk;
    match t
    case Reads => TakeKeepsInv(x.s);
    case Writes(k, a) => WriteMoves(x, k, a);
  }

  lemma WriteMoves(x: World, k: nat, a: Arrival)
    requires WorldOk(x) && DeviceMay(x, Writes(k, a))
    ensures var y := DeviceDoes(x, Writes(k, a)); WorldOk(y) && DeviceMoved(x.s, x.w, y.s, y.buf, y.w)
  {
    hide Slot, FreeListOk, AvailOk, UsedOk, BuffersOk, DeviceFills;
    HeadInTable(x, k);
    PostKeepsInv(x.s, k, a.len);
    FillKeepsBuffers(x, k, a);
  }

  lemma FillKeepsBuffers(x: World, k: nat, a: Arrival)
    requires WorldOk(x) && DeviceMay(x, Writes(k, a)) && Inv(Apply(x.s, Post(k, a.len)))
    ensures var y := DeviceDoes(x, Writes(k, a)); BuffersOk(y.s, y.buf, y.w)
  {
    hide Slot, FreeListOk, AvailOk;
    var s, y := x.s, DeviceDoes(x, Writes(k, a));
    assert y.s.log == s.log + [Completion(k, a.len)];
    assert s.chains[k] != [] && s.owner[s.chains[k][0]] == InChain(k);
    TargetOfBuffer(x.base, s.chains[k][0], |x.buf|);
    forall j | s.popped <= j < |x.w| ensures s.chains[s.log[j].k][0] != s.chains[k][0] {
      assert s.stage[s.log[j].k] == Used(j);
      assert s.owner[s.chains[s.log[j].k][0]] == InChain(s.log[j].k);
    }
  }

  ghost predicate DeviceMayAll(x: World, run: seq<DeviceStep>)
    requires WorldOk(x)
    decreases run
  {
    run != [] ==> DeviceMay(x, run[0]) && (DeviceStepMoves(x, run[0]); DeviceMayAll(DeviceDoes(x, run[0]), run[1..]))
  }

  ghost function DeviceDoesAll(x: World, run: seq<DeviceStep>): (y: World)
    requires WorldOk(x) && DeviceMayAll(x, run)
    ensures WorldOk(y)
    decreases run
  {
    if run == [] then x
    else DeviceStepMoves(x, run[0]); DeviceDoesAll(DeviceDoes(x, run[0]), run[1..])
  }

  /** Whatever the device does between two driver steps, any number of buffers
      filled in any order, is a move the driver is proved against. */
  lemma {:induction false} DeviceRunMoves(x: World, run: seq<DeviceStep>)
    requires WorldOk(x) && DeviceMayAll(x, run)
    ensures var y := DeviceDoesAll(x, run); DeviceMoved(x.s, x.w, y.s, y.buf, y.w)
    decreases run
  {
    hide FreeListOk, ChainsOk, AvailOk, UsedOk, BuffersOk, SingleChains, DeviceDoes, DeviceMay;
    if run != [] {
      DeviceStepMoves(x, run[0]);
      var x1 := DeviceDoes(x, run[0]);
      DeviceRunMoves(x1, run[1..]);
      var y := DeviceDoesAll(x1, run[1..]);
      MovesCompose(x.s, x.w, x1.s, x1.buf, x1.w, y.s, y.buf, y.w);
    }
  }

  lemma MovesCompose(s: Sys, w: seq<Arrival>, s1: Sys, b1: seq<Event>, w1: seq<Arrival>,
                     s2: Sys, b2: seq<Event>, w2: seq<Arrival>)
    requires DeviceMoved(s, w, s1, b1, w1) && DeviceMoved(s1, w1, s2, b2, w2)
    ensures DeviceMoved(s, w, s2, b2, w2)
  {
    hide FreeListOk, ChainsOk, AvailOk, UsedOk, BuffersOk;
    assert w2 == w + w2[|w|..];
    assert s2.log == s.log + s2.log[|s.log|..];
  }

  // ---------------------------------------------------- the driver

  /** Popping hands the driver the one descriptor of the oldest completion,
      whose buffer holds the event the device wrote. */
  lemma PopsOneBuffer(s: Sys, base: u64, buf: seq<Event>, w: seq<Arrival>)
    requires Inv(s) && BaseOk(base) && SingleChains(s, base) && BuffersOk(s, buf, w) && OnlyHeld(s, {})
    ensures CanPop(s.q) <==> s.popped < |s.log|
    ensures CanPop(s.q) ==>
      var s', d := Apply(s, Pop), PopElem(s.q).id;
      && d < s.q.size && PopElem(s.q).len == w[s.popped].len && buf[d] == w[s.popped].event
      && Inv(s') && s'.popped == s.popped + 1 && s'.log == s.log
      && SingleChains(s', base) && BuffersOk(s', buf, w) && OnlyHeld(s', {Id16(d)})
  {
    hide Slot, FreeListOk, AvailOk, ChainsOk;
    PopKeepsInv(s);
    PopIsOldestPost(s);
    if CanPop(s.q) {
      var s', k := Apply(s, Pop), s.log[s.popped].k;
      OldestIsSingle(s, base, k);
      PopHolds(s, s', k);
      PopKeepsBuffers(s, s', base, k, buf, w);
    }
  }

  lemma OldestIsSingle(s: Sys, base: u64, k: nat)
    requires Inv(s) && BaseOk(base) && SingleChains(s, base) && s.popped < |s.log| && k == s.log[s.popped].k
    ensures k < |s.chains| && |s.chains[k]| == 1 && s.chains[k][0] < |s.owner|
    ensures Entry(s.chains, s.log[s.popped]) == UsedElem(s.chains[k][0], s.log[s.popped].len)
  {
    hide Slot, FreeListOk, AvailOk;
    assert s.stage[k] == Used(s.popped);
    assert s.owner[s.chains[k][0]] == InChain(k);
  }

  lemma PopKeepsBuffers(s: Sys, s': Sys, base: u64, k: nat, buf: seq<Event>, w: seq<Arrival>)
    requires Inv(s) && BaseOk(base) && SingleChains(s, base) && BuffersOk(s, buf, w)
    requires s.popped < |s.log| && k == s.log[s.popped].k
    requires Inv(s') && s'.q.desc == s.q.desc && s'.chains == s.chains && s'.log == s.log && s'.popped == s.popped + 1
    requires s'.q.size == s.q.size && s'.stage == s.stage[k := Popped]
    ensures SingleChains(s', base) && BuffersOk(s', buf, w)
  {
    hide Slot, FreeListOk, AvailOk, ChainsOk;
  }

  lemma PopHolds(s: Sys, s': Sys, k: nat)
    requires k < |s.chains| && |s.chains[k]| == 1 && s.chains[k][0] < |s.owner|
    requires s'.owner == SetOwner(s.owner, s.chains[k], Driver)
    requires OnlyHeld(s, {})
    ensures OnlyHeld(s', {s.chains[k][0]})
  {
    assert s.chains[k] == [s.chains[k][0]];
    forall d: u16 ensures Held(s', d) <==> d == s.chains[k][0] {
      assert d < |s.owner| ==> !Held(s, d);
    }
  }

  lemma ReleasesIt(s: Sys, base: u64, d: u16, buf: seq<Event>, w: seq<Arrival>)
    requires Inv(s) && BaseOk(base) && SingleChains(s, base) && BuffersOk(s, buf, w) && OnlyHeld(s, {d})
    ensures Held(s, d) && s.q.numFree < s.q.size && d < s.q.size
    ensures var s' := Apply(s, Release(d));
      && Inv(s') && s'.popped == s.popped && s'.log == s.log && s'.q.numFree == s.q.numFree + 1
      && SingleChains(s', base) && BuffersOk(s', buf, w) && OnlyHeld(s', {})
  {
    assert Held(s, d);
    ReleaseKeepsInv(s, d);
    FreeBelowSize(s, d);
    var s' := Apply(s, Release(d));
    forall e: u16 ensures !Held(s', e) {
      assert Held(s, e) <==> e == d;
    }
  }

  /** Taking a free descriptor, describing its buffer and pushing it. */
  ghost function Repost(s: Sys, x: Desc): (s': Sys)
    requires Inv(s) && s.q.numFree > 0 && !HasNext(x)
    ensures Inv(s') && s'.q.numFree == s.q.numFree - 1
    ensures s'.q == AvailPush(FillDesc(AllocDesc(s.q).0, s.q.freeHead, x), s.q.freeHead)
    ensures s'.log == s.log && s'.popped == s.popped
    ensures s.q.freeHead < |s.owner|
    ensures s'.owner == SetOwner(s.owner[s.q.freeHead := Driver], [s.q.freeHead], InChain(|s.chains|))
    ensures s'.chains == s.chains + [[s.q.freeHead]] && s'.stage == s.stage + [Stage.Posted]
  {
    hide Slot, FreeListOk, ChainsOk, AvailOk, UsedOk;
    var d := s.q.freeHead;
    TopIsFree(s);
    AllocKeepsInv(s);
    var s1 := Apply(s, Alloc);
    FillKeepsInv(s1, d, x);
    var s2 := Apply(s1, Fill(d, x));
    assert Held(s2, d) && Linked(s2.q.desc, [d]);
    PushKeepsInv(s2, [d]);
    Apply(s2, Push([d]))
  }

  lemma TopIsFree(s: Sys)
    requires Inv(s) && s.q.numFree > 0
    ensures s.q.freeHead < s.q.size == |s.owner| && |s.free| > 0
    ensures Held(Apply(s, Alloc), s.q.freeHead)
  {
    hide Slot, ChainsOk, AvailOk, UsedOk;
  }

  lemma RepostKeeps(s: Sys, base: u64, x: Desc, buf: seq<Event>, w: seq<Arrival>)
    requires Inv(s) && s.q.numFree > 0 && !HasNext(x) && BaseOk(base)
    requires s.q.freeHead < |s.q.desc| && x == BufferDesc(base, s.q.freeHead)
    requires SingleChains(s, base) && BuffersOk(s, buf, w) && OnlyHeld(s, {})
    ensures var s' := Repost(s, x); SingleChains(s', base) && BuffersOk(s', buf, w) && OnlyHeld(s', {})
  {
    hide Slot, FreeListOk, AvailOk, ChainsOk, Repost;
    RepostHolds(s, Repost(s, x), s.q.freeHead);
  }

  lemma RepostHolds(s: Sys, s': Sys, d: u16)
    requires d < |s.owner| && OnlyHeld(s, {})
    requires s'.owner == SetOwner(s.owner[d := Driver], [d], InChain(|s.chains|))
    ensures OnlyHeld(s', {})
  {
    forall e: u16 ensures !Held(s', e) {
      assert !Held(s, e);
    }
  }

  /** virtio_input_t after a successful virtio_input_init_fdt.  The ghost
      fields record who owns what and every arrival so far. */
  class VirtInput {
    const eventq: Virtq
    const evtBuf: array<Event>
    const base: u64                  // address of evt_buf
    var calls: seq<KeyChange>        // the callback's calls, in order
    ghost var sys: Sys
    ghost var arrivals: seq<Arrival>

    ghost function Repr(): set<object> {
      {this, evtBuf} + eventq.Repr()
    }

    /** Every buffer is posted or awaits its pop, except the free ones, and the
        user has been told exactly the key changes among the events popped. */
    ghost predicate Consistent()
      reads Repr()
    {
      Holding({})
    }

    /** The same, while the driver has a few descriptors in hand. */
    ghost predicate Holding(hs: set<u16>)
      reads Repr()
    {
      && eventq.Valid() && eventq.size == QSIZE && evtBuf.Length == QSIZE
      && sys.q == eventq.State()
      && Inv(sys) && BaseOk(base) && SingleChains(sys, base) && BuffersOk(sys, evtBuf[..], arrivals) && OnlyHeld(sys, hs)
      && calls == KeyChanges(arrivals[..sys.popped])
    }

    ghost predicate Valid()
      reads Repr()
    {
      Consistent() && eventq.numFree == 0
    }

    constructor (base: u64)
      requires BaseOk(base)
      ensures Valid() && fresh(Repr())
      ensures calls == [] && sys.popped == 0
    {
      hide Slot, FreeListOk, ChainsOk, AvailOk, UsedOk, SingleChains, BuffersOk;
      assert RingSize(QSIZE) by { assert Pow2(4) == 16; }
      eventq := new Virtq(QSIZE);
      evtBuf := new Event[QSIZE](_ => Event(0, 0, 0));
      this.base := base;
      calls := [];
      arrivals := [];
      sys := InitialSys(QSIZE);
      new;
      NothingPostedYet(QSIZE, base, evtBuf[..]);
      RefillEventq();
    }

    /** Between two steps of the driver the device may do anything DeviceMoved
        allows; the driver is proved against this contract alone. */
    method DeviceActs()
      requires Consistent()
      modifies this`sys, this`arrivals, evtBuf, eventq`usedIdx, eventq.usedRing
      ensures Consistent()
      ensures DeviceMoved(old(sys), old(arrivals), sys, evtBuf[..], arrivals)
    {
    }

    method RefillEventq()
      requires Consistent()
      modifies Repr()
      ensures Valid()
      ensures calls == old(calls) && sys.popped == old(sys.popped) && old(arrivals) <= arrivals
    {
      while eventq.numFree != 0
        invariant Consistent()
        invariant calls == old(calls) && sys.popped == old(sys.popped) && old(arrivals) <= arrivals
        decreases eventq.numFree
      {
        DeviceActs();
        RefillOne();
      }
    }

    method RefillOne()
      requires Consistent() && eventq.numFree > 0
      modifies this`sys, eventq, eventq.desc, eventq.availRing
      ensures Consistent() && eventq.numFree == old(eventq.numFree) - 1
      ensures sys.popped == old(sys.popped) && sys.log == old(sys.log)
    {
      hide Slot, FreeListOk, ChainsOk, AvailOk, UsedOk, SingleChains, BuffersOk;
      TopIsFree(sys);
      var idx := eventq.Alloc();
      var x := BufferDesc(base, idx);
      eventq.Fill(idx, x);
      eventq.Push(idx);
      RepostKeeps(sys, base, x, evtBuf[..], arrivals);
      sys := Repost(sys, x);
    }

    /** The body of the drain loop: one event to at most one call. */
    method Dispatch(id: u16, len: u32)
      requires evtBuf.Length == QSIZE
      modifies this`calls
      ensures calls == old(calls) +
        if id < QSIZE && IsKeyChange(Arrival(evtBuf[id], len))
        then [KeyChange(Usage(evtBuf[id].code), evtBuf[id].value == 1)] else []
    {
      if id < QSIZE && len >= EVENT_BYTES {
        var e := evtBuf[id];
        if e.kind == EV_KEY && e.value != 2 {
          var pressed := e.value == 1;
          var code := e.code;
          if code < 128 {
            var usage := LKC_TO_USB[code];
            if usage != 0 {
              calls := calls + [KeyChange(usage, pressed)];
            }
          }
        }
      }
    }

    method PopOne() returns (ok: bool)
      requires Consistent()
      modifies this`sys, this`calls, eventq, eventq.desc
      ensures Consistent()
      ensures ok <==> old(sys.popped) < |old(sys.log)|
      ensures sys.log == old(sys.log) && old(calls) <= calls
      ensures sys.popped == old(sys.popped) + (if ok then 1 else 0)
      ensures eventq.numFree == old(eventq.numFree) + (if ok then 1 else 0) <= QSIZE
    {
      hide Slot, RingSize, Shaped, FreeListOk, ChainsOk, AvailOk, UsedOk, SingleChains, BuffersOk, KeyChanges, IsKeyChange;
      PopsOneBuffer(sys, base, evtBuf[..], arrivals);
      FreeFits(sys);
      var id, len;
      ok, id, len := eventq.Pop();
      if !ok { return; }
      ghost var n := sys.popped;
      BuffersLength(sys, evtBuf[..], arrivals);
      sys := Apply(sys, Pop);
      Dispatch(id, len);
      OneMoreArrival(arrivals, n);
      GiveBack(id);
    }

    /** The descriptor popped is freed. */
    method GiveBack(id: u16)
      requires Holding({id})
      modifies this`sys, eventq, eventq.desc
      ensures Consistent() && sys.popped == old(sys.popped) && sys.log == old(sys.log)
      ensures eventq.numFree == old(eventq.numFree) + 1 <= QSIZE
    {
      hide Slot, RingSize, Shaped, FreeListOk, ChainsOk, AvailOk, UsedOk, SingleChains, BuffersOk, KeyChanges;
      ReleasesIt(sys, base, id, evtBuf[..], arrivals);
      eventq.Free(id);
      sys := Apply(sys, Release(id));
    }

    /** virtio_input_poll: whatever the device does meanwhile, the new calls of
        the callback are the key changes among the events drained, in order. */
    method Poll() returns (events: nat)
      requires Valid()
      modifies Repr()
      ensures Valid()
      ensures old(sys.popped) <= sys.popped <= |arrivals| && old(arrivals) <= arrivals
      ensures sys.popped >= |old(sys.log)|
      ensures calls == KeyChanges(arrivals[..sys.popped])
      ensures events == |calls| - |old(calls)|
    {
      hide Slot, FreeListOk, ChainsOk, AvailOk, UsedOk, SingleChains, BuffersOk;
      var any := false;
      ghost var before := |calls|;
      events := 0;
      var more := true;
      while more
        invariant Consistent()
        invariant old(sys.popped) <= sys.popped && old(arrivals) <= arrivals && |old(sys.log)| <= |sys.log|
        invariant !more ==> sys.popped >= |old(sys.log)|
        invariant events == |calls| - before
        invariant !any ==> eventq.numFree == 0
        invariant eventq.numFree <= QSIZE
        decreases more, QSIZE - eventq.numFree
      {
        DeviceActs();
        var n := |calls|;
        more := PopOne();
        if more { any := true; }
        events := events + (|calls| - n);
      }
      if any {
        RefillEventq();
      }
      BuffersLength(sys, evtBuf[..], arrivals);
    }
  }

  lemma OneMoreArrival(w: seq<Arrival>, n: nat)
    requires n < |w|
    ensures KeyChanges(w[..n + 1]) == KeyChanges(w[..n]) +
      if IsKeyChange(w[n]) then [KeyChange(Usage(w[n].event.code), w[n].event.value == 1)] else []
  {
    assert w[..n + 1][..n] == w[..n];
  }

  lemma NothingPostedYet(size: u16, base: u64, buf: seq<Event>)
    requires RingSize(size) && BaseOk(base) && |buf| == size
    ensures var s := InitialSys(size);
      && SingleChains(s, base) && BuffersOk(s, buf, []) && OnlyHeld(s, {})
      && s.popped == 0 && s.q == InitialQueue(size)
  {
    hide FreeListOk, ChainsOk, AvailOk, UsedOk;
    forall d: u16 ensures !Held(InitialSys(size), d) {}
  }

  lemma BuffersLength(s: Sys, buf: seq<Event>, w: seq<Arrival>)
    requires Inv(s) && BuffersOk(s, buf, w)
    ensures s.popped <= |w| == |s.log|
  {}

  lemma FreeFits(s: Sys)
    requires Inv(s)
    ensures s.q.numFree <= s.q.size
  {
    forall i, j | 0 <= i < j < |s.free| ensures s.free[i] != s.free[j] {
      assert s.owner[s.free[i]] == Free(i);
    }
    Pigeonhole(seq(|s.free|, i requires 0 <= i < |s.free| => s.free[i] as nat), s.q.size);
  }
}
