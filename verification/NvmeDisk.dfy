/** The I/O path of src/nvme.c end to end: driver and controller share one
    memory, where the queues, the PRP list and the caller's buffers live. */
module NvmeDisk {
  import opened Words
  import opened Bytes
  import opened NvmePrp
  import opened NvmeCommand
  import opened NvmeRing

  const DEPTH: nat := 64
  const IOSQ: nat := 2 * PAGE          // offsets in nvme_t
  const IOCQ: nat := 3 * PAGE
  const LIST: nat := 4 * PAGE
  const STRUCT_SIZE: nat := 21 * PAGE
  const SPINS: nat := 16 * 1000 * 1000
  const TIMED_OUT: nat := 0xFFFF
  const MAX_LBAS: nat := MAX_SINGLE_TRANSFER / LBA_SIZE

  const INVALID_OPCODE: nat := 0x01
  const PRP_INVALID: nat := 0x13
  const LBA_OUT_OF_RANGE: nat := 0x80

  /** The completion ring's last dwords, in memory at `cq`. */
  function Slots(m: Mem, cq: nat): (r: seq<u32>)
    requires cq + 16 * DEPTH <= |m|
    ensures |r| == DEPTH
  {
    seq(DEPTH, j requires 0 <= j < DEPTH => Dword(m, cq + 16 * j + 12))
  }

  function Dword(m: Mem, a: nat): u32
    requires a + 4 <= |m|
  {
    FromLeBound(m[a..a + 4]);
    Pow256Values();
    WordAt(m, a, 4)
  }

  lemma SlotsSame(m: Mem, m': Mem, cq: nat)
    requires cq + 16 * DEPTH <= |m| == |m'|
    requires forall a :: cq <= a < cq + 16 * DEPTH ==> m'[a] == m[a]
    ensures Slots(m', cq) == Slots(m, cq)
  {
    forall j | 0 <= j < DEPTH ensures Slots(m', cq)[j] == Slots(m, cq)[j] {
      var a := cq + 16 * j + 12;
      assert m'[a..a + 4] == m[a..a + 4];
    }
  }

  lemma SlotStored(m: Mem, m': Mem, cq: nat, t: nat, w: u32)
    requires cq + 16 * DEPTH <= |m| && t < DEPTH
    requires SameOutside(m, m', cq + 16 * t, cq + 16 * t + 16)
    requires WordAt(m', cq + 16 * t + 12, 4) == w
    ensures Slots(m', cq) == Slots(m, cq)[t := w]
  {
    hide WordAt;
    forall j | 0 <= j < DEPTH ensures Slots(m', cq)[j] == Slots(m, cq)[t := w][j] {
      if j != t {
        SameWord(m, m', cq + 16 * t, cq + 16 * t + 16, cq + 16 * j + 12, 4);
      }
    }
  }

  /** What a command (0x02 a read, 0x01 a write, 0x00 a flush, on blocks of 512
      bytes) does to memory and medium when its data is the buffer
      [buf, buf+size): on success it moves there, on failure nothing else
      changes. The driver's own memory, [lo, hi), is left open. */
  ghost predicate Effect(opcode: nat, slba: nat, buf: nat, size: nat, status: nat,
                         lo: nat, hi: nat, m: Mem, m': Mem, d: Mem, d': Mem)
  {
    && (opcode == 2 ==>
          d' == d && SameOutsideTwo(m, m', buf, buf + size, lo, hi)
          && (status == 0 ==> Holds(d, slba * 512, m', buf, size)))
    && (opcode == 1 ==>
          SameOutside(m, m', lo, hi)
          && SameOutside(d, d', slba * 512, slba * 512 + size)
          && (status == 0 ==> Holds(m, buf, d', slba * 512, size)))
    && (opcode == 0 ==> SameOutside(m, m', lo, hi) && d' == d)
  }

  predicate Transfers(c: Command) { c.opcode in {IO_READ as nat, IO_WRITE as nat} }

  /** A transfer the medium is large enough for. */
  predicate Feasible(c: Command, capacity: nat) {
    Transfers(c) && (c.slba + c.blocks) * LBA_SIZE <= capacity
  }

  /** How the controller answers a command: the number of polls it takes, and
      the status it reports if something goes wrong. */
  datatype Reply = Reply(delay: nat, fault: nat)

  predicate Prompt(r: Reply) { r.delay < SPINS && r.fault == 0 }

  /** Stores to the driver's own memory before and after change nothing else. */
  lemma EffectWidens(opcode: nat, slba: nat, buf: nat, size: nat, status: nat, lo: nat, hi: nat,
                     m0: Mem, m1: Mem, m2: Mem, m3: Mem, d: Mem, d': Mem)
    requires SameOutside(m0, m1, lo, hi) && SameOutside(m2, m3, lo, hi)
    requires Effect(opcode, slba, buf, size, status, 0, 0, m1, m2, d, d')
    requires Clear(buf, size, lo, hi) && buf + size <= |m0|
    ensures Effect(opcode, slba, buf, size, status, lo, hi, m0, m3, d, d')
  {
    if opcode == IO_READ as nat && status == 0 {
      assert m3[buf..buf + size] == m2[buf..buf + size];
    }
    if opcode == IO_WRITE as nat {
      assert m1[buf..buf + size] == m0[buf..buf + size];
      assert m1 == m2;
    }
  }

  /** The n bytes at a in x are those at b in y. */
  ghost predicate Holds(x: Mem, a: nat, y: Mem, b: nat, n: nat) {
    a + n <= |x| && b + n <= |y| && y[b..b + n] == x[a..a + n]
  }

  /** `done` blocks of a read have arrived, and nothing else has changed. */
  ghost predicate ReadSoFar(m0: Mem, m: Mem, d: Mem, lba: nat, buf: nat, nlb: nat, done: nat, lo: nat, hi: nat) {
    && SameOutsideTwo(m0, m, buf, buf + nlb * LBA_SIZE, lo, hi)
    && (done > 0 ==> Holds(d, lba * LBA_SIZE, m, buf, done * LBA_SIZE))
  }

  /** `done` blocks of a write are on the medium, and nothing else has changed. */
  ghost predicate WrittenSoFar(m0: Mem, m: Mem, d0: Mem, d: Mem, lba: nat, buf: nat, nlb: nat, done: nat, lo: nat, hi: nat) {
    && SameOutside(m0, m, lo, hi)
    && SameOutside(d0, d, lba * LBA_SIZE, (lba + nlb) * LBA_SIZE)
    && (done > 0 ==> Holds(m, buf, d, lba * LBA_SIZE, done * LBA_SIZE))
  }

  class NvmeDisk {
    const base: nat                  // address of nvme_t
    const ram: array<u8>
    const medium: array<u8>
    // the driver's fields of nvme_t
    var iosqTail: u16
    var iocqHead: u16
    var iocqPhase: bool
    var cmdId: u16
    // the controller's positions in the two queues
    var sqHead: nat
    var cqTail: nat
    var cqPhase: bool
    ghost var log: seq<u32>          // completions the controller posted

    ghost predicate LayoutOk()
      reads this
    {
      && ram != medium && base % PAGE == 0
      && base + STRUCT_SIZE <= ram.Length <= 0x1_0000_0000_0000_0000 - 0x10_0000
      && medium.Length <= 0x1_0000_0000_0000_0000
    }

    ghost function QueuePair(): Ring
      requires LayoutOk()
      reads this, ram
    {
      Ring(Slots(ram[..], base + IOCQ), iocqHead, iocqPhase, cqTail, cqPhase)
    }

    /** No command is outstanding and the two sides agree on the queues. */
    ghost predicate Valid()
      reads this, ram
    {
      && LayoutOk() && iosqTail < DEPTH && sqHead == iosqTail as nat
      && Synced(QueuePair(), log, |log|)
    }

    /** The queue pair as nvme_init_nth leaves it: the whole of nvme_t zeroed,
        phase 1 expected first. */
    constructor (ram: array<u8>, medium: array<u8>, base: nat)
      requires ram != medium && base % PAGE == 0
      requires base + STRUCT_SIZE <= ram.Length <= 0x1_0000_0000_0000_0000 - 0x10_0000
      requires medium.Length <= 0x1_0000_0000_0000_0000
      modifies ram
      ensures this.ram == ram && this.medium == medium && this.base == base
      ensures Valid() && log == []
      ensures SameOutside(old(ram[..]), ram[..], base, base + STRUCT_SIZE)
    {
      this.ram, this.medium, this.base := ram, medium, base;
      iosqTail, iocqHead, iocqPhase, cmdId := 0, 0, true, 1;
      sqHead, cqTail, cqPhase, log := 0, 0, true, [];
      new;
      for a := base to base + STRUCT_SIZE
        invariant SameOutside(old(ram[..]), ram[..], base, base + STRUCT_SIZE)
        invariant forall b :: base <= b < a ==> ram[b] == 0
        modifies ram
      {
        ram[a] := 0;
      }
      ZeroSlots(ram[..], base + IOCQ);
      NewRingSynced(DEPTH);
      assert QueuePair() == NewRing(DEPTH);
    }

    /** Executing the entry at `sqe`; `fault` is what else may go wrong. If the
        PRPs name some buffer [buf, buf+size), that is where the data moves. */
    method Execute(sqe: nat, fault: nat, ghost buf: nat) returns (status: nat)
      requires LayoutOk() && fault < 0x8000
      modifies ram, medium
      ensures status < 0x8000
      ensures var c := Decode(old(ram[..]), sqe); var size := c.blocks * LBA_SIZE;
        PrpWalk(old(ram[..]), c.prp1, c.prp2, size) == Described(buf, size) ==>
          && Effect(c.opcode, c.slba, buf, size, status, 0, 0, old(ram[..]), ram[..], old(medium[..]), medium[..])
          && (fault == 0 && OnDword(buf) && buf + size <= ram.Length && Feasible(c, medium.Length) ==> status == 0)
          && (!OnDword(buf) && Transfers(c) ==> status != 0)
    {
      hide PrpWalk, Decode;
      if fault != 0 { return fault; }
      var c := Decode(ram[..], sqe);
      var size := c.blocks * LBA_SIZE;
      if c.opcode == IO_FLUSH as nat { return 0; }
      if c.opcode != IO_READ as nat && c.opcode != IO_WRITE as nat { return INVALID_OPCODE; }
      if c.slba * LBA_SIZE + size > medium.Length { return LBA_OUT_OF_RANGE; }
      match PrpWalk(ram[..], c.prp1, c.prp2, size) {
        case None => return PRP_INVALID;
        case Some(addrs) =>
          if |addrs| != size || exists i | 0 <= i < |addrs| :: addrs[i] >= ram.Length { return PRP_INVALID; }
          assert addrs[size - 1] < ram.Length;
          if c.opcode == IO_READ as nat {
            Scatter(addrs, c.slba * LBA_SIZE, buf);
          } else {
            Gather(addrs, c.slba * LBA_SIZE, buf);
          }
          return 0;
      }
    }

    /** DMA from the medium into memory. */
    method Scatter(addrs: seq<nat>, from: nat, ghost buf: nat)
      requires LayoutOk() && from + |addrs| <= medium.Length
      requires forall i :: 0 <= i < |addrs| ==> addrs[i] < ram.Length
      modifies ram
      ensures addrs == Range(buf, |addrs|) && buf + |addrs| <= ram.Length ==>
        SameOutside(old(ram[..]), ram[..], buf, buf + |addrs|)
        && Holds(medium[..], from, ram[..], buf, |addrs|)
    {
      for i := 0 to |addrs|
        invariant addrs == Range(buf, |addrs|) && buf + |addrs| <= ram.Length ==>
          SameOutside(old(ram[..]), ram[..], buf, buf + i)
          && ram[buf..buf + i] == medium[from..from + i]
      {
        ram[addrs[i]] := medium[from + i];
        if addrs == Range(buf, |addrs|) && buf + |addrs| <= ram.Length {
          assert ram[buf..buf + (i + 1)] == ram[buf..buf + i] + [medium[from + i]];
        }
      }
    }

    /** DMA from memory onto the medium. */
    method Gather(addrs: seq<nat>, to: nat, ghost buf: nat)
      requires LayoutOk() && to + |addrs| <= medium.Length
      requires forall i :: 0 <= i < |addrs| ==> addrs[i] < ram.Length
      modifies medium
      ensures SameOutside(old(medium[..]), medium[..], to, to + |addrs|)
      ensures addrs == Range(buf, |addrs|) && buf + |addrs| <= ram.Length ==>
        Holds(ram[..], buf, medium[..], to, |addrs|)
    {
      for i := 0 to |addrs|
        invariant SameOutside(old(medium[..]), medium[..], to, to + i)
        invariant addrs == Range(buf, |addrs|) && buf + |addrs| <= ram.Length ==>
          medium[to..to + i] == ram[buf..buf + i]
      {
        medium[to + i] := ram[addrs[i]];
        if addrs == Range(buf, |addrs|) && buf + |addrs| <= ram.Length {
          assert medium[to..to + (i + 1)] == medium[to..to + i] + [ram[buf + i]];
        }
      }
    }

    /** The controller takes the entry at its queue head, executes it and posts
        the completion. */
    method ControllerStep(fault: nat, ghost buf: nat) returns (status: nat)
      requires LayoutOk() && fault < 0x8000 && sqHead < DEPTH
      requires Synced(QueuePair(), log, |log|)
      requires var c := Decode(ram[..], base + IOSQ + sqHead * 64); var size := c.blocks * LBA_SIZE;
        && PrpWalk(ram[..], c.prp1, c.prp2, size) == Described(buf, size)
        && c.opcode in {IO_FLUSH as nat, IO_READ as nat, IO_WRITE as nat}
        && buf + size <= ram.Length && Clear(buf, size, base, base + STRUCT_SIZE)
      modifies ram, medium, this`sqHead, this`cqTail, this`cqPhase, this`log
      ensures LayoutOk() && status < 0x8000
      ensures sqHead == (old(sqHead) + 1) % DEPTH
      ensures |log| == |old(log)| + 1 && Synced(QueuePair(), log, |old(log)|)
      ensures Status(log[|old(log)|]) == status
      ensures var c := Decode(old(ram[..]), base + IOSQ + old(sqHead) * 64);
        && (fault == 0 && OnDword(buf) && Feasible(c, medium.Length) ==> status == 0)
        && (!OnDword(buf) && Transfers(c) ==> status != 0)
        && Effect(c.opcode, c.slba, buf, c.blocks * LBA_SIZE, status, base, base + STRUCT_SIZE,
               old(ram[..]), ram[..], old(medium[..]), medium[..])
    {
      hide PrpWalk, Decode, Synced, CqeWord, Status, Phase, WordAt, Effect, Slots;
      ghost var m0, c := ram[..], Decode(ram[..], base + IOSQ + sqHead * 64);
      var cid := Decode(ram[..], base + IOSQ + sqHead * 64).cid;
      status := Execute(base + IOSQ + sqHead * 64, fault, buf);
      ghost var m1 := ram[..];
      EffectKeepsStruct(c.opcode, c.slba, buf, c.blocks * LBA_SIZE, status, base, m0, m1, old(medium[..]), medium[..]);
      SlotsSame(m0, m1, base + IOCQ);
      PostCompletion(cid, status);
      EffectWidens(c.opcode, c.slba, buf, c.blocks * LBA_SIZE, status, base, base + STRUCT_SIZE,
                   m0, m0, m1, ram[..], old(medium[..]), medium[..]);
    }

    method PostCompletion(cid: u16, status: nat)
      requires LayoutOk() && status < 0x8000
      requires Synced(QueuePair(), log, |log|)
      modifies ram, this`sqHead, this`cqTail, this`cqPhase, this`log
      ensures LayoutOk() && sqHead == (old(sqHead) + 1) % DEPTH
      ensures |log| == |old(log)| + 1 && Synced(QueuePair(), log, |old(log)|)
      ensures Status(log[|old(log)|]) == status
      ensures old(cqTail) < 64
      ensures WordAt(ram[..], base + 0x3000 + 16 * old(cqTail) + 12, 4)
           == cid + 0x2_0000 * status + if old(cqPhase) then 0x1_0000 else 0
      ensures SameOutside(old(ram[..]), ram[..], base, base + STRUCT_SIZE)
    {
      hide Synced, Phase, Status, CqeWord, WordAt, Slots;
      SyncedBounds(QueuePair(), log, |log|);
      ghost var r, m0 := QueuePair(), ram[..];
      Pow256Values();
      var word := CqeWord(cid, cqPhase, status);
      CqeWordReads(cid, cqPhase, status);
      CqeLayout(cid, cqPhase, status);
      var cqe := base + IOCQ + 16 * cqTail;
      StoreLe(ram, cqe, 0, 8);
      ghost var m1 := ram[..];
      StoreLe(ram, cqe + 8, 0, 4);
      ghost var m2 := ram[..];
      StoreLe(ram, cqe + 12, word, 4);
      OutsideJoins(m0, m1, m2, cqe, cqe + 8, cqe + 12);
      OutsideJoins(m0, m2, ram[..], cqe, cqe + 12, cqe + 16);
      SlotStored(m0, ram[..], base + IOCQ, cqTail, word);
      PostSynced(r, log, |log|, cid, status);
      log := log + [word];
      sqHead := (sqHead + 1) % DEPTH;
      cqTail := (cqTail + 1) % DEPTH;
      if cqTail == 0 { cqPhase := !cqPhase; }
      assert QueuePair() == Post(r, cid, status);
    }

    /** submit_and_wait on the I/O queue pair. The controller answers after
        `reply.delay` polls, if it does so in time. */
    method SubmitAndWait(reply: Reply, ghost buf: nat) returns (st: nat)
      requires Valid() && reply.fault < 0x8000
      requires var c := Decode(ram[..], base + IOSQ + sqHead * 64); var size := c.blocks * LBA_SIZE;
        && PrpWalk(ram[..], c.prp1, c.prp2, size) == Described(buf, size)
        && c.opcode in {IO_FLUSH as nat, IO_READ as nat, IO_WRITE as nat}
        && buf + size <= ram.Length && Clear(buf, size, base, base + STRUCT_SIZE)
      modifies ram, medium, this
      ensures reply.delay >= SPINS ==> st == TIMED_OUT && ram[..] == old(ram[..]) && medium[..] == old(medium[..])
      ensures reply.delay < SPINS ==>
        Valid() && st < 0x8000 && |log| == |old(log)| + 1 && st == Status(log[|old(log)|])
      ensures reply.delay < SPINS ==> st == WordAt(ram[..], base + 0x3000 + 16 * old(iocqHead) + 12, 4) / 0x2_0000
      ensures reply.delay < SPINS ==>
        var c := Decode(old(ram[..]), base + IOSQ + old(sqHead) * 64);
        && (reply.fault == 0 && OnDword(buf) && Feasible(c, medium.Length) ==> st == 0)
        && (!OnDword(buf) && Transfers(c) ==> st != 0)
        && Effect(c.opcode, c.slba, buf, c.blocks * LBA_SIZE, st, base, base + STRUCT_SIZE,
                  old(ram[..]), ram[..], old(medium[..]), medium[..])
      ensures cmdId == old(cmdId)
    {
      hide PrpWalk, Decode, Synced, Status, Phase, WordAt, Effect, Slots, Feasible;
      SyncedBounds(QueuePair(), log, |log|);
      iosqTail := (iosqTail + 1) % DEPTH;
      var spin := 0;
      while spin < SPINS
        invariant spin <= SPINS && spin <= reply.delay
        invariant ram[..] == old(ram[..]) && medium[..] == old(medium[..])
        invariant iosqTail == (old(iosqTail) + 1) % DEPTH && cmdId == old(cmdId)
        invariant sqHead == old(sqHead) && log == old(log) && QueuePair() == old(QueuePair())
      {
        if spin == reply.delay {
          var status := ControllerStep(reply.fault, buf);
        }
        SyncedBounds(QueuePair(), log, |old(log)|);
        MatchesIffPosted(QueuePair(), log, |old(log)|);
        var cidPbSf := Dword(ram[..], base + IOCQ + iocqHead * 16 + 12);
        assert cidPbSf == QueuePair().slots[iocqHead] by { SlotIs(ram[..], base + IOCQ, iocqHead); }
        if Phase(cidPbSf) == iocqPhase {
          st := Status(cidPbSf);
          CqeLayout(0, false, 0);
          ghost var r := QueuePair();
          iocqHead := (iocqHead + 1) % DEPTH;
          if iocqHead == 0 { iocqPhase := !iocqPhase; }
          assert QueuePair() == Take(r);
          TakeSynced(r, log, |old(log)|);
          return;
        }
        spin := spin + 1;
      }
      st := TIMED_OUT;
    }

    /** io_cmd with data: fill the entry at the tail, submit it and wait. */
    method IoCmd(opcode: u8, lba: u64, buf: u64, size: u32, nlb: u32, reply: Reply) returns (st: nat)
      requires Valid() && opcode in {IO_READ, IO_WRITE} && reply.fault < 0x8000
      requires 0 < nlb <= MAX_LBAS && size == nlb * LBA_SIZE
      requires buf + size <= ram.Length && Clear(buf, size, base, base + STRUCT_SIZE)
      requires 8 * ListWords(buf, size) <= LIST_PAGES * PAGE
      modifies ram, medium, this
      ensures st == 0 ==> Valid() && |log| == |old(log)| + 1 && Status(log[|old(log)|]) == 0
      ensures reply.delay < SPINS ==> Valid() && st < 0x8000
      ensures reply.delay >= SPINS ==> st == TIMED_OUT
      ensures cmdId == (old(cmdId) + 1) % 0x1_0000
      ensures Prompt(reply) && (lba + nlb) * LBA_SIZE <= medium.Length ==> (st == 0 <==> OnDword(buf))
      ensures !OnDword(buf) ==> st != 0
      ensures Effect(opcode, lba, buf, size, st, base, base + STRUCT_SIZE,
                     old(ram[..]), ram[..], old(medium[..]), medium[..])
    {
      hide PrpWalk, Decode, Synced, Status, Phase, WordAt, Slots, ListWords, SameOutsideTwo;
      ghost var m0, sqe := ram[..], base + IOSQ + iosqTail * 64;
      FillEntry(ram, base + LIST, base + IOSQ + iosqTail * 64, opcode, cmdId, lba, buf, size, nlb);
      cmdId := (cmdId + 1) % 0x1_0000;
      ghost var m1 := ram[..];
      EntryStaysInStruct(m0, m1, base, sqe);
      SlotsSame(m0, m1, base + IOCQ);
      st := SubmitAndWait(reply, buf);
      if reply.delay < SPINS {
        EffectAfterEntry(opcode, lba, buf, size, st, base, base + STRUCT_SIZE, m0, m1, ram[..], old(medium[..]), medium[..]);
      } else {
        NoEffect(opcode, lba, buf, size, st, base, base + STRUCT_SIZE, m0, m1, medium[..]);
      }
    }

    lemma Layout()
      requires Valid()
      ensures LayoutOk()
    {}

    /** One command of nvme_read. `m0` is memory before the call. */
    method ReadBatch(lba: u64, buf: u64, nlb: u32, done: u32, batch: u32, reply: Reply, ghost m0: Mem) returns (st: nat)
      requires Valid() && reply.fault < 0x8000 && |m0| == ram.Length
      requires buf + nlb * LBA_SIZE <= ram.Length && Clear(buf, nlb * LBA_SIZE, base, base + STRUCT_SIZE)
      requires 0 < batch <= MAX_LBAS && done + batch <= nlb
      requires 8 * ListWords(buf + done * LBA_SIZE, batch * LBA_SIZE) <= LIST_PAGES * PAGE
      requires ReadSoFar(m0, ram[..], medium[..], lba, buf, nlb, done, base, base + STRUCT_SIZE)
      modifies ram, medium, this
      ensures (st == 0 || reply.delay < SPINS) ==> Valid()
      ensures Prompt(reply) && (lba + nlb) * LBA_SIZE <= medium.Length && OnDword(buf) ==> st == 0
      ensures !OnDword(buf) ==> st != 0
      ensures medium[..] == old(medium[..])
      ensures ReadSoFar(m0, ram[..], medium[..], lba, buf, nlb, if st == 0 then done + batch else done, base, base + STRUCT_SIZE)
    {
      hide Effect, Synced, Slots, ListWords, Holds, SameOutsideTwo, OnDword, Clear, NvmeDisk.Valid;
      Layout();
      BlocksKeepDword(buf, done);
      BatchClear(buf, nlb, done, batch, base, base + STRUCT_SIZE);
      NoLbaWrap(medium[..], lba, ram[..], buf, done);
      ghost var m1 := ram[..];
      st := IoCmd(IO_READ, (lba + done) % 0x1_0000_0000_0000_0000, buf + done * LBA_SIZE, batch * LBA_SIZE, batch, reply);
      ReadGrows(m0, m1, ram[..], old(medium[..]), medium[..], lba, buf, nlb, done, batch, st, base, base + STRUCT_SIZE);
    }

    /** One command of nvme_write. */
    method WriteBatch(lba: u64, buf: u64, nlb: u32, done: u32, batch: u32, reply: Reply, ghost m0: Mem, ghost d0: Mem) returns (st: nat)
      requires Valid() && reply.fault < 0x8000 && |m0| == ram.Length
      requires buf + nlb * LBA_SIZE <= ram.Length && Clear(buf, nlb * LBA_SIZE, base, base + STRUCT_SIZE)
      requires 0 < batch <= MAX_LBAS && done + batch <= nlb
      requires 8 * ListWords(buf + done * LBA_SIZE, batch * LBA_SIZE) <= LIST_PAGES * PAGE
      requires WrittenSoFar(m0, ram[..], d0, medium[..], lba, buf, nlb, done, base, base + STRUCT_SIZE)
      modifies ram, medium, this
      ensures (st == 0 || reply.delay < SPINS) ==> Valid()
      ensures Prompt(reply) && (lba + nlb) * LBA_SIZE <= medium.Length && OnDword(buf) ==> st == 0
      ensures !OnDword(buf) ==> st != 0
      ensures WrittenSoFar(m0, ram[..], d0, medium[..], lba, buf, nlb, if st == 0 then done + batch else done, base, base + STRUCT_SIZE)
    {
      hide Effect, Synced, Slots, ListWords, Holds, SameOutside, OnDword, Clear, NvmeDisk.Valid;
      Layout();
      BlocksKeepDword(buf, done);
      BatchClear(buf, nlb, done, batch, base, base + STRUCT_SIZE);
      NoLbaWrap(ram[..], lba, medium[..], buf, done);
      ghost var m1, d1 := ram[..], medium[..];
      st := IoCmd(IO_WRITE, (lba + done) % 0x1_0000_0000_0000_0000, buf + done * LBA_SIZE, batch * LBA_SIZE, batch, reply);
      WriteGrows(m0, m1, ram[..], d0, d1, medium[..], lba, buf, nlb, done, batch, st, base, base + STRUCT_SIZE);
    }

    /** nvme_read. Command i of the call is answered by replies(i). */
    method Read(lba: u64, buf: u64, nlb: u32, replies: nat -> Reply) returns (done: u32)
      requires Valid() && forall i :: replies(i).fault < 0x8000
      requires buf + nlb * LBA_SIZE <= ram.Length && Clear(buf, nlb * LBA_SIZE, base, base + STRUCT_SIZE)
      requires CallFits(buf, nlb)
      modifies ram, medium, this
      ensures done <= nlb && (done == nlb || (forall i :: replies(i).delay < SPINS) ==> Valid())
      ensures (forall i :: Prompt(replies(i))) && (lba + nlb) * 512 <= medium.Length && OnDword(buf) ==> done == nlb
      ensures !OnDword(buf) ==> done == 0
      ensures medium[..] == old(medium[..])
      ensures SameOutsideTwo(old(ram[..]), ram[..], buf, buf + nlb * 512, base, base + STRUCT_SIZE)
      ensures done > 0 ==> (lba + done) * 512 <= medium.Length && buf + done * 512 <= ram.Length
      ensures done > 0 ==> ram[buf..buf + done * 512] == medium[lba * 512..(lba + done) * 512]
    {
      hide ListWords, Holds, SameOutsideTwo, CallFits, OnDword, Clear, NvmeDisk.Valid;
      NothingChanged(ram[..], buf, buf + nlb * LBA_SIZE, base, base + STRUCT_SIZE);
      ghost var m0 := ram[..];
      done := 0;
      var i := 0;
      while done < nlb
        invariant done <= nlb && Valid() && (done == nlb || done == i * MAX_LBAS)
        invariant !OnDword(buf) ==> done == 0
        invariant medium[..] == old(medium[..])
        invariant ReadSoFar(m0, ram[..], medium[..], lba, buf, nlb, done, base, base + STRUCT_SIZE)
      {
        var batch := nlb - done;
        if batch > MAX_LBAS { batch := MAX_LBAS; }
        BatchFits(buf, nlb, i, batch);
        var st := ReadBatch(lba, buf, nlb, done, batch, replies(i), m0);
        if st != 0 { break; }
        done := done + batch;
        i := i + 1;
      }
      if done > 0 { HoldsSlices(medium[..], lba * LBA_SIZE, ram[..], buf, done * LBA_SIZE); }
    }

    /** nvme_write. */
    method Write(lba: u64, buf: u64, nlb: u32, replies: nat -> Reply) returns (done: u32)
      requires Valid() && forall i :: replies(i).fault < 0x8000
      requires buf + nlb * LBA_SIZE <= ram.Length && Clear(buf, nlb * LBA_SIZE, base, base + STRUCT_SIZE)
      requires CallFits(buf, nlb)
      modifies ram, medium, this
      ensures done <= nlb && (done == nlb || (forall i :: replies(i).delay < SPINS) ==> Valid())
      ensures (forall i :: Prompt(replies(i))) && (lba + nlb) * 512 <= medium.Length && OnDword(buf) ==> done == nlb
      ensures !OnDword(buf) ==> done == 0
      ensures SameOutside(old(ram[..]), ram[..], base, base + STRUCT_SIZE)
      ensures SameOutside(old(medium[..]), medium[..], lba * 512, (lba + nlb) * 512)
      ensures done > 0 ==> (lba + done) * 512 <= medium.Length && buf + done * 512 <= ram.Length
      ensures done > 0 ==> medium[lba * 512..(lba + done) * 512] == ram[buf..buf + done * 512]
    {
      hide ListWords, Holds, SameOutside, CallFits, OnDword, Clear, NvmeDisk.Valid;
      NothingStored(ram[..], base, base + STRUCT_SIZE);
      NothingStored(medium[..], lba * LBA_SIZE, (lba + nlb) * LBA_SIZE);
      ghost var m0, d0 := ram[..], medium[..];
      done := 0;
      var i := 0;
      while done < nlb
        invariant done <= nlb && Valid() && (done == nlb || done == i * MAX_LBAS)
        invariant !OnDword(buf) ==> done == 0
        invariant WrittenSoFar(m0, ram[..], d0, medium[..], lba, buf, nlb, done, base, base + STRUCT_SIZE)
      {
        var batch := nlb - done;
        if batch > MAX_LBAS { batch := MAX_LBAS; }
        BatchFits(buf, nlb, i, batch);
        var st := WriteBatch(lba, buf, nlb, done, batch, replies(i), m0, d0);
        if st != 0 { break; }
        done := done + batch;
        i := i + 1;
      }
      if done > 0 { HoldsSlices(ram[..], buf, medium[..], lba * LBA_SIZE, done * LBA_SIZE); }
    }

    /** What is written is what a later read of the same blocks returns, into
        any buffer, for any length and across any number of commands. */
    method WriteThenRead(lba: u64, src: u64, dst: u64, nlb: u32, replies: nat -> Reply, replies': nat -> Reply)
      returns (written: u32, read: u32)
      requires Valid() && (forall i :: replies(i).fault < 0x8000) && (forall i :: replies'(i).fault < 0x8000)
      requires src + nlb * LBA_SIZE <= ram.Length && Clear(src, nlb * LBA_SIZE, base, base + STRUCT_SIZE)
      requires dst + nlb * LBA_SIZE <= ram.Length && Clear(dst, nlb * LBA_SIZE, base, base + STRUCT_SIZE)
      requires CallFits(src, nlb) && CallFits(dst, nlb)
      modifies ram, medium, this
      ensures written <= nlb && read <= nlb
      ensures (forall i :: Prompt(replies(i)) && Prompt(replies'(i))) ==>
        (lba + nlb) * 512 <= medium.Length && OnDword(src) && OnDword(dst) ==> written == nlb && read == nlb
      ensures written == nlb && read > 0 ==>
        ram[dst..dst + read * 512] == old(ram[src..src + read * 512])
    {
      hide Synced, Slots, ListWords, Holds, SameOutside, SameOutsideTwo, CallFits;
      ghost var m0 := ram[..];
      written := Write(lba, src, nlb, replies);
      if written < nlb { return written, 0; }
      ghost var m1, d1 := ram[..], medium[..];
      read := Read(lba, dst, nlb, replies');
      if read > 0 {
        RoundTrip(m0, m1, ram[..], d1, lba, src, dst, nlb, read, base, base + STRUCT_SIZE);
      }
    }
  }

  /** FillEntry writes only inside nvme_t, and not to the completion ring. */
  lemma EntryStaysInStruct(m: Mem, m': Mem, base: nat, sqe: nat)
    requires SameOutsideTwo(m, m', sqe, sqe + 64, base + LIST, base + LIST + LIST_PAGES * PAGE)
    requires base + IOSQ <= sqe && sqe + 64 <= base + IOCQ && base + STRUCT_SIZE <= |m|
    ensures SameOutside(m, m', base, base + STRUCT_SIZE)
    ensures |m'| == |m| && forall a :: base + IOCQ <= a < base + IOCQ + 16 * DEPTH ==> m'[a] == m[a]
  {}

  lemma EffectAfterEntry(opcode: nat, slba: nat, buf: nat, size: nat, status: nat, lo: nat, hi: nat,
                         m0: Mem, m1: Mem, m2: Mem, d: Mem, d': Mem)
    requires SameOutside(m0, m1, lo, hi) && Effect(opcode, slba, buf, size, status, lo, hi, m1, m2, d, d')
    requires Clear(buf, size, lo, hi) && buf + size <= |m0|
    ensures Effect(opcode, slba, buf, size, status, lo, hi, m0, m2, d, d')
  {
    if opcode == IO_WRITE as nat {
      assert m1[buf..buf + size] == m0[buf..buf + size];
    }
  }

  lemma NoEffect(opcode: nat, slba: nat, buf: nat, size: nat, status: nat, lo: nat, hi: nat, m0: Mem, m1: Mem, d: Mem)
    requires SameOutside(m0, m1, lo, hi) && status != 0
    ensures Effect(opcode, slba, buf, size, status, lo, hi, m0, m1, d, d)
  {}

  /** All list writes of a transfer call stay inside the 16 list pages: the
      buffer is page-aligned, or the whole call fits one command with its
      offset added. */
  predicate CallFits(buf: nat, nlb: nat) {
    buf % 4096 == 0 || nlb * 512 + buf % 4096 <= 8178 * 4096
  }

  lemma OneFits(buf: nat, size: nat)
    requires size <= MAX_SINGLE_TRANSFER
    ensures 8 * ListWords(buf, size) <= LIST_PAGES * PAGE <==> size + buf % PAGE <= MAX_SINGLE_TRANSFER
  {
    if size > FirstChunk(buf) + PAGE {
      ListFitsIff(Entries(size - FirstChunk(buf)));
    }
  }

  lemma BatchFits(buf: nat, nlb: nat, i: nat, batch: nat)
    requires CallFits(buf, nlb) && 0 < batch <= MAX_LBAS && i * MAX_LBAS + batch <= nlb
    ensures 8 * ListWords(buf + i * MAX_LBAS * LBA_SIZE, batch * LBA_SIZE) <= LIST_PAGES * PAGE
  {
    ModShift(buf, i * 8178, PAGE);
    assert i * MAX_LBAS * LBA_SIZE == i * 8178 * PAGE;
    OneFits(buf + i * MAX_LBAS * LBA_SIZE, batch * LBA_SIZE);
  }

  lemma BatchClear(buf: nat, nlb: nat, done: nat, batch: nat, lo: nat, hi: nat)
    requires Clear(buf, nlb * LBA_SIZE, lo, hi) && done + batch <= nlb
    ensures Clear(buf + done * LBA_SIZE, batch * LBA_SIZE, lo, hi)
  {}

  lemma BlocksKeepDword(buf: nat, done: nat)
    ensures OnDword(buf + done * LBA_SIZE) <==> OnDword(buf)
  {
    ModShift(buf, done * 128, 4);
  }

  /** Blocks in command i of a call. */
  function BatchSize(nlb: nat, i: nat): nat
    requires i * MAX_LBAS < nlb
  {
    Min(MAX_LBAS, nlb - i * MAX_LBAS)
  }

  /** The documented limit of 8178 pages per command is right for page-aligned
      buffers only. The list of every command of a call stays inside the 16
      list pages exactly when CallFits holds, which a caller can check. */
  lemma EveryCommandFitsIff(buf: nat, nlb: nat)
    requires nlb > 0
    ensures CallFits(buf, nlb) <==>
      forall i: nat :: i * 65424 < nlb ==>
        8 * ListWords(buf + i * 65424 * 512, BatchSize(nlb, i) * 512) <= 16 * 4096
  {
    if CallFits(buf, nlb) {
      forall i: nat | i * MAX_LBAS < nlb
        ensures 8 * ListWords(buf + i * MAX_LBAS * LBA_SIZE, BatchSize(nlb, i) * LBA_SIZE) <= LIST_PAGES * PAGE
      {
        BatchFits(buf, nlb, i, BatchSize(nlb, i));
      }
    } else {
      OneFits(buf, BatchSize(nlb, 0) * LBA_SIZE);
      assert buf + 0 * MAX_LBAS * LBA_SIZE == buf;
    }
  }

  /** A full command into a buffer one block off page alignment: its list runs
      16 bytes past the 16 pages. */
  lemma MisalignedOverrun()
    ensures 8 * ListWords(512, 65424 * 512) == 16 * 4096 + 16
  {
    assert Entries(MAX_LBAS * LBA_SIZE - FirstChunk(LBA_SIZE)) == 8178;
    WordsFrom(16, 2);
  }

  lemma {:induction false} WordsFrom(k: nat, rest: nat)
    requires rest > 1
    ensures WordsNeeded(511 * k + rest) == ENTRIES_PER_PAGE * k + WordsNeeded(rest)
  {
    if k > 0 {
      WordsFrom(k - 1, rest);
    }
  }

  lemma NothingChanged(m: Mem, lo1: int, hi1: int, lo2: int, hi2: int)
    ensures SameOutsideTwo(m, m, lo1, hi1, lo2, hi2)
  {}

  lemma NothingStored(m: Mem, lo: int, hi: int)
    ensures SameOutside(m, m, lo, hi)
  {}

  /** Blocks already moved lie on the medium, so the next LBA fits 64 bits. */
  lemma NoLbaWrap(x: Mem, lba: u64, y: Mem, buf: nat, done: nat)
    requires |x| <= 0x1_0000_0000_0000_0000 && |y| <= 0x1_0000_0000_0000_0000
    requires done == 0 || Holds(x, lba * LBA_SIZE, y, buf, done * LBA_SIZE)
          || Holds(x, buf, y, lba * LBA_SIZE, done * LBA_SIZE)
    ensures lba + done < 0x1_0000_0000_0000_0000
  {}

  lemma ReadGrows(m0: Mem, m1: Mem, m2: Mem, d: Mem, d': Mem, lba: nat, buf: nat, nlb: nat, done: nat, batch: nat,
                  st: nat, lo: nat, hi: nat)
    requires done + batch <= nlb && Clear(buf, nlb * LBA_SIZE, lo, hi) && buf + nlb * LBA_SIZE <= |m0|
    requires SameOutsideTwo(m0, m1, buf, buf + nlb * LBA_SIZE, lo, hi)
    requires done > 0 ==> Holds(d, lba * LBA_SIZE, m1, buf, done * LBA_SIZE)
    requires Effect(IO_READ, lba + done, buf + done * LBA_SIZE, batch * LBA_SIZE, st, lo, hi, m1, m2, d, d')
    ensures d' == d && SameOutsideTwo(m0, m2, buf, buf + nlb * LBA_SIZE, lo, hi)
    ensures done > 0 ==> Holds(d, lba * LBA_SIZE, m2, buf, done * LBA_SIZE)
    ensures st == 0 ==> Holds(d, lba * LBA_SIZE, m2, buf, (done + batch) * LBA_SIZE)
  {
    var b, n, k := buf, done * LBA_SIZE, batch * LBA_SIZE;
    if done > 0 {
      assert m2[b..b + n] == m1[b..b + n];
    }
    if st == 0 {
      HoldsJoin(d, lba * LBA_SIZE, m2, b, n, k);
    }
  }

  lemma WriteGrows(m0: Mem, m1: Mem, m2: Mem, d0: Mem, d1: Mem, d2: Mem, lba: nat, buf: nat, nlb: nat, done: nat, batch: nat,
                   st: nat, lo: nat, hi: nat)
    requires done + batch <= nlb && Clear(buf, nlb * LBA_SIZE, lo, hi) && buf + nlb * LBA_SIZE <= |m0|
    requires SameOutside(m0, m1, lo, hi) && SameOutside(d0, d1, lba * LBA_SIZE, (lba + nlb) * LBA_SIZE)
    requires done > 0 ==> Holds(m1, buf, d1, lba * LBA_SIZE, done * LBA_SIZE)
    requires Effect(IO_WRITE, lba + done, buf + done * LBA_SIZE, batch * LBA_SIZE, st, lo, hi, m1, m2, d1, d2)
    ensures SameOutside(m0, m2, lo, hi) && SameOutside(d0, d2, lba * LBA_SIZE, (lba + nlb) * LBA_SIZE)
    ensures done > 0 ==> Holds(m2, buf, d2, lba * LBA_SIZE, done * LBA_SIZE)
    ensures st == 0 ==> Holds(m2, buf, d2, lba * LBA_SIZE, (done + batch) * LBA_SIZE)
  {
    var l, n, k := lba * LBA_SIZE, done * LBA_SIZE, batch * LBA_SIZE;
    assert m2[buf..buf + n] == m1[buf..buf + n];
    if done > 0 {
      assert d2[l..l + n] == d1[l..l + n];
    }
    if st == 0 {
      assert m2[buf + n..buf + n + k] == m1[buf + n..buf + n + k];
      HoldsJoin(m2, buf, d2, l, n, k);
    }
  }

  lemma HoldsJoin(x: Mem, a: nat, y: Mem, b: nat, n: nat, k: nat)
    requires n > 0 ==> Holds(x, a, y, b, n)
    requires Holds(x, a + n, y, b + n, k)
    ensures Holds(x, a, y, b, n + k)
  {
    assert y[b..b + n + k] == y[b..b + n] + y[b + n..b + n + k];
    assert x[a..a + n + k] == x[a..a + n] + x[a + n..a + n + k];
  }

  lemma HoldsSlices(x: Mem, a: nat, y: Mem, b: nat, n: nat)
    requires Holds(x, a, y, b, n)
    ensures a + n <= |x| && b + n <= |y| && y[b..b + n] == x[a..a + n]
  {}

  lemma SubSlice(x: Mem, a: nat, n: nat, k: nat)
    requires k <= n && a + n <= |x|
    ensures x[a..a + k] == x[a..a + n][..k]
  {}

  lemma RoundTrip(m0: Mem, m1: Mem, m2: Mem, d: Mem, lba: nat, src: nat, dst: nat, nlb: nat, n: nat, lo: nat, hi: nat)
    requires SameOutside(m0, m1, lo, hi) && Clear(src, nlb * LBA_SIZE, lo, hi)
    requires src + nlb * LBA_SIZE <= |m0| && n <= nlb
    requires Holds(m1, src, d, lba * LBA_SIZE, nlb * LBA_SIZE)
    requires Holds(d, lba * LBA_SIZE, m2, dst, n * LBA_SIZE)
    ensures dst + n * LBA_SIZE <= |m2|
    ensures m2[dst..dst + n * LBA_SIZE] == m0[src..src + n * LBA_SIZE]
  {
    var l, k := lba * LBA_SIZE, n * LBA_SIZE;
    SubSlice(d, l, nlb * LBA_SIZE, k);
    SubSlice(m1, src, nlb * LBA_SIZE, k);
    assert m1[src..src + k] == m0[src..src + k];
  }

  lemma ZeroSlots(m: Mem, cq: nat)
    requires cq + 16 * DEPTH <= |m| && forall a :: cq <= a < cq + 16 * DEPTH ==> m[a] == 0
    ensures Slots(m, cq) == seq(DEPTH, _ => 0 as u32)
  {
    forall j | 0 <= j < DEPTH ensures Slots(m, cq)[j] == 0 {
      ZeroWord(m[cq + 16 * j + 12..cq + 16 * j + 16]);
    }
  }

  lemma {:induction false} ZeroWord(s: seq<u8>)
    requires forall i :: 0 <= i < |s| ==> s[i] == 0
    ensures FromLe(s) == 0
  {
    if s != [] { ZeroWord(s[1..]); }
  }

  lemma SlotIs(m: Mem, cq: nat, j: nat)
    requires cq + 16 * DEPTH <= |m| && j < DEPTH
    ensures Slots(m, cq)[j] == Dword(m, cq + 16 * j + 12)
  {}

  lemma EffectKeepsStruct(opcode: nat, slba: nat, buf: nat, size: nat, status: nat, base: nat,
                          m: Mem, m': Mem, d: Mem, d': Mem)
    requires Effect(opcode, slba, buf, size, status, 0, 0, m, m', d, d')
    requires opcode in {IO_FLUSH as nat, IO_READ as nat, IO_WRITE as nat}
    requires base + STRUCT_SIZE <= |m| && Clear(buf, size, base, base + STRUCT_SIZE)
    ensures |m'| == |m| && forall a :: base <= a < base + STRUCT_SIZE ==> m'[a] == m[a]
  {}
}
