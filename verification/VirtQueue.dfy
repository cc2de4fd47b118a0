/** The split virtqueue of src/virtio.c: the descriptor table with its free
    list threaded through `next`, and the avail and used rings with their
    wrapping 16-bit indices.

    `Queue` is the memory driver and device share.  The functions over it say
    what each driver call does; class `Virtq` runs the same calls in place.
    Module VirtProtocol puts the device next to it. */
module VirtQueue {
  import opened Words

  const F_NEXT: u16 := 1
  const F_WRITE: u16 := 2
  const NO_DESC: u16 := 0xFFFF

  datatype Desc = Desc(addr: u64, len: u32, flags: u16, next: u16)
  datatype UsedElem = UsedElem(id: u32, len: u32)

  datatype Queue = Queue(size: u16, lastUsedIdx: u16, freeHead: u16, numFree: u16,
                         desc: seq<Desc>,
                         availIdx: u16, availRing: seq<u16>,
                         usedIdx: u16, usedRing: seq<UsedElem>)

  /** Three arrays of `size` entries. */
  ghost predicate Sized(q: Queue) {
    0 < q.size == |q.desc| == |q.availRing| == |q.usedRing|
  }

  /** The shape of a queue as the standard asks: the size of a split virtqueue
      is a power of two. */
  ghost predicate Shaped(q: Queue) {
    RingSize(q.size) && Sized(q)
  }

  predicate HasNext(x: Desc) { x.flags % 2 == 1 }

  function Wrap16(x: int): u16
    requires x >= 0
  {
    x % 0x1_0000
  }

  /** Truncation of a 32-bit used id to the driver's 16-bit index. */
  function Id16(x: u32): u16 { x % 0x1_0000 }

  function FreeListTable(desc: seq<Desc>): (r: seq<Desc>)
    ensures |r| == |desc|
  {
    seq(|desc|, i requires 0 <= i < |desc| =>
      desc[i].(next := if i + 1 < |desc| then Wrap16(i + 1) else 0))
  }

  function FreeInit(q: Queue): Queue {
    q.(desc := FreeListTable(q.desc), freeHead := 0, numFree := q.size)
  }

  function AllocDesc(q: Queue): (r: (Queue, u16))
    requires q.freeHead < |q.desc| || q.numFree == 0
  {
    if q.numFree == 0 then (q, NO_DESC)
    else (q.(freeHead := q.desc[q.freeHead].next, numFree := q.numFree - 1), q.freeHead)
  }

  function FreeDesc(q: Queue, d: u16): Queue
    requires d < |q.desc|
  {
    q.(desc := q.desc[d := q.desc[d].(next := q.freeHead)],
       freeHead := d, numFree := Wrap16(q.numFree + 1))
  }

  function FillDesc(q: Queue, d: u16, x: Desc): Queue
    requires d < |q.desc|
  {
    q.(desc := q.desc[d := x])
  }

  function AvailPush(q: Queue, head: u16): Queue
    requires 0 < q.size == |q.availRing|
  {
    q.(availRing := q.availRing[Slot(q.availIdx, q.size) := head], availIdx := Wrap16(q.availIdx + 1))
  }

  predicate CanPop(q: Queue) { q.usedIdx != q.lastUsedIdx }

  function PopElem(q: Queue): UsedElem
    requires 0 < q.size == |q.usedRing|
  {
    q.usedRing[Slot(q.lastUsedIdx, q.size)]
  }

  function UsedPop(q: Queue): Queue {
    if CanPop(q) then q.(lastUsedIdx := Wrap16(q.lastUsedIdx + 1)) else q
  }

  /** virtq_t and the three rings it points at. */
  class Virtq {
    const size: u16
    var lastUsedIdx: u16
    var freeHead: u16
    var numFree: u16
    const desc: array<Desc>
    var availIdx: u16
    const availRing: array<u16>
    var usedIdx: u16
    const usedRing: array<UsedElem>

    ghost function State(): Queue
      reads this, desc, availRing, usedRing
    {
      Queue(size, lastUsedIdx, freeHead, numFree, desc[..], availIdx, availRing[..], usedIdx, usedRing[..])
    }

    ghost predicate Valid()
      reads this, desc, availRing, usedRing
    {
      Sized(State())
    }

    ghost function Repr(): set<object> { {this, desc, availRing, usedRing} }

    /** virtio_queue_setup on rings the device has accepted, of any size, then
        virtq_free_init. */
    constructor (size: u16)
      requires size > 0
      ensures Valid() && fresh(Repr())
      ensures State() == InitialQueue(size)
    {
      this.size := size;
      lastUsedIdx, freeHead, numFree := 0, 0, 0;
      availIdx, usedIdx := 0, 0;
      desc := new Desc[size](_ => Desc(0, 0, 0, 0));
      availRing := new u16[size](_ => 0);
      usedRing := new UsedElem[size](_ => UsedElem(0, 0));
      new;
      InitFreeList();
    }

    method InitFreeList()
      requires Valid()
      modifies this, desc
      ensures State() == FreeInit(old(State()))
    {
      var i := 0;
      while i < size - 1
        invariant 0 <= i <= size - 1
        invariant forall j :: 0 <= j < i ==> desc[j] == old(desc[j]).(next := j + 1)
        invariant forall j :: i <= j < size ==> desc[j] == old(desc[j])
        invariant numFree == old(numFree) && freeHead == old(freeHead)
        invariant lastUsedIdx == old(lastUsedIdx) && availIdx == old(availIdx) && usedIdx == old(usedIdx)
      {
        desc[i] := desc[i].(next := i + 1);
        i := i + 1;
      }
      desc[size - 1] := desc[size - 1].(next := 0);
      freeHead := 0;
      numFree := size;
      assert desc[..] == FreeListTable(old(desc[..]));
    }

    method Alloc() returns (d: u16)
      requires Valid() && (numFree > 0 ==> freeHead < size)
      modifies this
      ensures Valid() && (State(), d) == AllocDesc(old(State()))
    {
      if numFree == 0 { return NO_DESC; }
      d := freeHead;
      freeHead := desc[d].next;
      numFree := numFree - 1;
    }

    method Free(d: u16)
      requires Valid() && d < size
      modifies this, desc
      ensures Valid() && State() == FreeDesc(old(State()), d)
    {
      desc[d] := desc[d].(next := freeHead);
      freeHead := d;
      numFree := (numFree + 1) % 0x1_0000;
    }

    method Fill(d: u16, x: Desc)
      requires Valid() && d < size
      modifies desc
      ensures Valid() && State() == FillDesc(old(State()), d, x)
    {
      desc[d] := x;
    }

    method Push(head: u16)
      requires Valid()
      modifies this, availRing
      ensures Valid() && State() == AvailPush(old(State()), head)
    {
      SlotIsMod(availIdx, size);
      var slot := availIdx % size;
      availRing[slot] := head;
      availIdx := (availIdx + 1) % 0x1_0000;
    }

    method Pop() returns (ok: bool, id: u16, len: u32)
      requires Valid()
      modifies this
      ensures Valid() && State() == UsedPop(old(State()))
      ensures ok == CanPop(old(State()))
      ensures ok ==> id == Id16(PopElem(old(State())).id) && len == PopElem(old(State())).len
    {
      var cur := usedIdx;
      if cur == lastUsedIdx { return false, 0, 0; }
      SlotIsMod(lastUsedIdx, size);
      var slot := lastUsedIdx % size;
      id := usedRing[slot].id % 0x1_0000;
      len := usedRing[slot].len;
      lastUsedIdx := (lastUsedIdx + 1) % 0x1_0000;
      ok := true;
    }
  }

  function InitialQueue(size: u16): Queue
    requires size > 0
  {
    FreeInit(Queue(size, 0, 0, 0, seq(size, _ => Desc(0, 0, 0, 0)),
                   0, seq(size, _ => 0 as u16), 0, seq(size, _ => UsedElem(0, 0))))
  }
}
