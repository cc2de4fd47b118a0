# Verified model of rvvm-hal

A Dafny model of the parts of rvvm-hal, a hardware abstraction layer for
bare-metal RISC-V programs on the RVVM machine, in which something can go wrong
between two parties or in the arithmetic: the descriptor rings drivers share
with devices, the edge-driven audio stream, calendar conversion, the device-tree
walkers, multi-hart dispatch and the spinlock, the memory copies, and the PCI
capability walk.

`dafny verify dfyconfig.toml` checks everything.

## How it is built

* Drivers that change state are classes with methods over arrays and fields.
  Each method is proved against a function of the old state or against the
  property itself.
* A device is a second party with its own fields and steps. It reads only what
  the hardware interface lets it read (a ring, a descriptor, a flags word), and
  ghost histories say what was sent and what was received.
* Protocols between harts are state machines in which every memory access is a
  step of its own; the theorems hold in every state any interleaving reaches.
* Fixed-width arithmetic is written out wherever it can wrap: the 16-bit ring
  indices, the 64-bit product in `cycle_to_sample`, the 32-bit fields of a
  timestamp.

| file | what it models |
|---|---|
| `Words`, `Bits`, `Bytes` | integer widths, ring slots, bitwise or, little-endian memory |
| `VirtQueue`, `VirtProtocol`, `VirtRuns` | the split virtqueue in place; driver and device steps with their invariants; whole runs |
| `VirtInput`, `VirtGpu` | the keyboard and display drivers as clients of the queue |
| `NvmePrp`, `NvmeRing`, `NvmeCommand`, `NvmeDisk` | PRP lists, the completion ring, submission entries, and reads and writes end to end |
| `AudioPcm`, `AudioEdge` | the PCM ring; the resampler over it |
| `Calendar`, `FatTime` | civil-from-days against the Gregorian calendar; FAT timestamps |
| `FdtTree`, `FdtWalk`, `FdtFind` | a device tree and its flattening; reading a block; the searches |
| `Mutex`, `Smp` | the spinlock on LR/SC; dispatch to parked harts |
| `MemMove`, `MemAsm` | memset, memcpy and memmove in C and unrolled in assembly |
| `EthRing`, `Eth` | OWN-bit descriptor rings; the RTL8169 driver |
| `Pci` | the capability walk |

## Where the code and its documentation differ

The model follows the code.

* `include/nvme.h:38-44` gives 8178 pages as the most one command can
  transfer. That holds for page-aligned buffers only: a buffer that starts
  inside a page needs one list entry more than there is room for.
  `NvmeDisk.EveryCommandFitsIff` is the exact condition,
  `NvmeDisk.MisalignedOverrun` the concrete overrun.
* `src/audio_edge.c:83-84` says a dropped edge still sets the final level. The
  next frame ends on the level of the 256th pending edge instead; the dropped
  edge's level survives only if the two are equal, or the host stalls and the
  frame is dropped: `AudioEdge.Speaker.FullArrayForgetsLevel`.
* `src/audio_edge.c:94-97` puts the overflow of the 64-bit product at about 1.2
  years for a 3.5 MHz clock; cycles times 48000 passes 2^64 after about 3.5
  years. The model reduces the product modulo 2^64, and the theorems on
  punctual edges ask for no overflow.
* `include/eth.h` says `eth_recv` returns 0 if no frame is ready. It also
  returns 0 for a frame with nothing but an FCS, which it consumes, and the
  interrupt handler then stops early: `Eth.Receiver.Drain`.
* `include/mutex.h` has `mutex_trylock` fail when the lock is held. It may also
  fail on a free lock, after 32 spurious failures: `Mutex.AloneSucceedsIff`.
* `src/pci.c:137` has its 48 hops as a defence against cyclic lists. They lose
  nothing, whatever the ids, if and only if the list has ended or gone round by
  then (`Pci.BudgetSufficesIff`). Lists behind the header always have
  (`Pci.PlacedIsClosed`); one through the header may not
  (`Pci.BudgetFallsShort`).
* `src/nvme.c:140-163` takes any buffer address for PRP1. Section 4.3 of NVMe
  1.4 wants it on a dword: `NvmePrp.SetupPrp`.

## Model

| member | source | states |
|---|---|---|
| `VirtQueue.Virtq.constructor` | src/virtio.c:113-154 | Setup of an accepted queue of any size gives the initial state: both rings empty, every descriptor free |
| `VirtQueue.Virtq.InitFreeList` | src/virtio.c:192-198 | The list built in place is the value FreeInit: descriptor i points at i+1, the last at the end marker 0, all of them counted free |
| `VirtQueue.Virtq.Alloc` | src/virtio.c:200-206 | Whole new state: the head of the free list is taken, or 0xFFFF returned and nothing changed when num_free is 0 |
| `VirtQueue.Virtq.Free` | src/virtio.c:208-212 | Whole new state: the descriptor becomes the head of the free list, pointing at the old head |
| `VirtQueue.Virtq.Push` | src/virtio.c:162-171 | Whole new state: the head goes into slot avail.idx mod size and only then the 16-bit index moves on |
| `VirtQueue.Virtq.Pop` | src/virtio.c:173-186 | Succeeds exactly when the 16-bit indices differ; returns the entry at last_used_idx mod size, its id cut to 16 bits |
| `VirtProtocol.AvailFits` | src/virtio.c:162-171 | In every reachable state at most `size` chains wait in the avail ring, fewer while the driver holds a descriptor: a push never overwrites an unread slot |
| `VirtProtocol.UsedFits` | src/virtio.c:173-186 | In every reachable state at most `size` unpopped entries are in the used ring, so none is overwritten |
| `VirtRuns.ApplyKeepsInv` | src/virtio.c:162-213 | Every step of the driver (alloc, fill, push, pop, free) and of the device (take, post), in any order, keeps the free-list, chain and ring invariants |
| `VirtRuns.OwnershipPartition` | src/virtio.c:192-213 | Following desc.next from free_head for num_free nodes meets no descriptor twice, although the end marker 0 is a real index; every descriptor is in exactly one of free list, driver's hands, posted or at the device, used and unpopped |
| `VirtRuns.ChainsStayIntact` | src/virtio_gpu.c:31-42 | From posting until popping, a device reading the table from a chain's head finds exactly the chain the driver linked |
| `VirtRuns.TakeIsOldestPush` | src/virtio.c:162-171 | The device's 16-bit position tells emptiness exactly, and selects the oldest chain not yet taken |
| `VirtRuns.PopIsOldestPost` | src/virtio.c:173-186 | virtq_used_pop succeeds exactly when an entry is unpopped, and returns the oldest |
| `VirtRuns.PopsArePrefixOfPosts` | src/virtio.c:173-186 | Over any run, however often the indices wrap: what waited followed by what was posted is what was popped followed by what still waits |
| `VirtRuns.WrapExact` | src/virtio.c:167-183 | The wrapped 16-bit index selects the slots of the unbounded count for all counts if and only if the ring size divides 2^16 |
| `VirtRuns.EveryRun` | src/virtio.c:162-213 | From setup on, every legal run keeps all invariants and its pops are a prefix of the device's used entries |
| `VirtInput.DeviceRunMoves` | src/virtio_input.c:122-142 | Any number of device steps between two driver steps (reading the ring, filling the buffers the descriptors of its chains point at, in any order) is a move the driver is proved against |
| `VirtInput.TargetOfBuffer` | src/virtio_input.c:82-85 | The descriptor of buffer d is eight writable bytes at base + 8 * d: a device that goes by address, length and flags writes buffer d and no other |
| `VirtInput.VirtInput.constructor` | src/virtio_input.c:90-111 | After start-up every descriptor is posted and no callback has been made |
| `VirtInput.VirtInput.RefillEventq` | src/virtio_input.c:78-88 | Whatever the device does meanwhile, num_free ends at 0 with every descriptor posted as the buffer of its own index |
| `VirtInput.VirtInput.RefillOne` | src/virtio_input.c:80-86 | One free descriptor becomes one posted empty event buffer |
| `VirtInput.VirtInput.Dispatch` | src/virtio_input.c:124-141 | One event makes at most one callback: a press or release of a mapped key and nothing else |
| `VirtInput.KeyChangesLaws` | src/virtio_input.c:124-136 | In numbers: what makes an event a callback, and that a history's callbacks are those of its parts in order |
| `VirtInput.TableIsUsb` | src/virtio_input.c:9-68 | Letter, digit and function keys, row by row of the keyboard, have the usages of the USB HID tables |
| `VirtInput.VirtInput.PopOne` | src/virtio_input.c:122-142 | Pops the oldest completion if there is one, reports its event and frees its descriptor |
| `VirtInput.VirtInput.Poll` | src/virtio_input.c:113-148 | Over the whole history the callbacks are the in-order filter and map of the events the device wrote and that were popped; every event posted before the poll is popped; afterwards num_free is 0; the result counts the callbacks |
| `VirtGpu.Serves` | src/virtio_gpu.c:31-41 | The device finds the command's head in the avail ring and exactly the chain [head, rid] in the table |
| `VirtGpu.GivesBack` | src/virtio_gpu.c:63-64 | Given back in reverse order, the two descriptors restore the free list, its order and every descriptor's owner |
| `VirtGpu.RefusedUnchanged` | src/virtio_gpu.c:16-22 | With one descriptor free, allocating and giving it back leaves the queue exactly as it was |
| `VirtGpu.Gpu.TakeTwo` | src/virtio_gpu.c:16-22 | Takes the two topmost free descriptors, or none and changes nothing when fewer than two are free |
| `VirtGpu.Gpu.PostCommand` | src/virtio_gpu.c:24-41 | The request is in its buffer, the two descriptors describe the two buffers, and the chain is posted |
| `VirtGpu.Gpu.Finish` | src/virtio_gpu.c:44-64 | The completion popped is this command's; the response is copied up to the smaller length, if one is wanted; the chain is given back |
| `VirtGpu.Gpu.CmdSync` | src/virtio_gpu.c:13-76 | With two free descriptors the caller, if it gives a response area, gets the device's answer to the request byte by byte as far as both reach, its own bytes beyond, after any number of empty polls, and success exactly for the two accepted types; without one it gets success; with fewer descriptors it gets false and the queue is unchanged; the free list is afterwards what it was |
| `VirtGpu.AcceptedBytes` | src/virtio_gpu.c:66-74 | Success is decided by the first four bytes of a whole header: 0 or 1, 0x11, 0, 0 |
| `NvmePrp.WriteList` | src/nvme.c:183-207 | The list loop writes exactly the words of the specified list, data entries and chain pointers, and nothing else |
| `NvmePrp.ListWalkReads` | src/nvme.c:189-207 | A controller walking the list by section 4.3 of NVMe 1.4, following chain pointers, finds the pages in order |
| `NvmePrp.ReadyWalks` | src/nvme.c:160-210 | One page, two pages or a list: the walk of PRP1 and PRP2 yields the bytes [buf, buf+size) in order, or refuses a PRP1 that is not on a dword |
| `NvmePrp.SetupPrp` | src/nvme.c:160-210 | Round trip: after the call the PRP fields in memory decode by section 4.3 of NVMe 1.4 to exactly [buf, buf+size) if and only if buf is on a dword, and to a refused offset otherwise; only the fields and the list are written, the list within the words its length needs |
| `NvmePrp.ListFitsIff` | include/nvme.h:30-44 | A list stays inside its 16 pages if and only if it has at most 8177 data entries |
| `NvmeRing.LapsApart` | src/nvme.c:231-236 | At most a lap apart, two positions with equal phase differ by their slots' distance, with different phase by its complement |
| `NvmeRing.CqeLayout` | src/nvme.c:232-236 | The phase is bit 16 of the completion's last dword, the status what is above it |
| `NvmeRing.MatchesIffPosted` | src/nvme.c:231-236 | The slot at the head has the expected phase if and only if a completion waits there, and it is the oldest one not taken |
| `NvmeRing.TakeSynced` | src/nvme.c:238-239 | Taking a completion keeps head = k mod depth and expected phase = parity of k div depth |
| `NvmeRing.TakenInOrder` | src/nvme.c:214-244 | In any interleaving of posts and polls over any number of laps the statuses taken are those posted, in order, each once |
| `NvmeRing.EveryRingRun` | src/nvme.c:286-310 | From a zeroed completion queue on, what the driver takes is a prefix of what the controller posts |
| `NvmeCommand.FillEntry` | src/nvme.c:268-281 | At their places in the entry stand the opcode, the command id, namespace 1, the buffer, the two halves of the start block and the block count less one; decoding them gives the command asked for, and the PRPs the buffer if it is on a dword; all stores stay in the entry and the list pages |
| `NvmeCommand.DecodeLayout` | src/nvme.c:268-281 | The fields a controller reads, by their byte positions |
| `Bytes.WordBytes` | src/nvme.c:101-130 | Words of one, two, four and eight bytes are their bytes, lowest first |
| `NvmeDisk.NvmeDisk.constructor` | src/nvme.c:286-310 | Zeroed queues with phase 1 expected are in step with a controller that has posted nothing |
| `NvmeDisk.NvmeDisk.SubmitAndWait` | src/nvme.c:214-244 | Without a timeout the status returned is that of the command just submitted, whose effect has happened, and the queues are in step again; a timeout returns 0xFFFF |
| `NvmeDisk.NvmeDisk.IoCmd` | src/nvme.c:268-284 | The command moves exactly the requested bytes between buffer and medium, or reports an error, as it must for a buffer not on a dword; all else but the driver's own memory is unchanged |
| `NvmeDisk.NvmeDisk.Read` | src/nvme.c:383-402 | The batches tile the request: `done` blocks are in the buffer as they are on the medium; nothing outside the buffer changes; all blocks when every command succeeds and the buffer is on a dword, none when it is not |
| `NvmeDisk.NvmeDisk.Write` | src/nvme.c:404-417 | Likewise for writing: `done` blocks are on the medium, and nothing of it outside the range has changed |
| `NvmeDisk.NvmeDisk.WriteThenRead` | src/nvme.c:383-417 | What a complete write stored a later read returns, into any buffer, across any number of commands; both are complete when every command succeeds and the buffers are on dwords |
| `NvmeDisk.EveryCommandFitsIff` | include/nvme.h:38-44 | Every command of a call keeps its list inside the 16 pages if and only if the buffer is page-aligned, or the call with its page offset fits one command |
| `NvmeDisk.MisalignedOverrun` | include/nvme.h:38-44 | The documented maximum at an address one block off page alignment writes 16 bytes past the list |
| `AudioEdge.Speaker.constructor` | src/audio_edge.c:44-77 | The ring starts full of silence, no edge pending, stream faithful so far |
| `AudioEdge.Speaker.Set` | src/audio_edge.c:79-92 | Appends the edge; with 256 pending it is dropped and only the level kept |
| `AudioEdge.ToSampleIsFloor` | src/audio_edge.c:98-101 | Short of 2^64 the sample of a cycle is floor(cycle * 48000 / hz) |
| `AudioEdge.PunctualEdge` | src/audio_edge.c:157-164 | An edge between two advances takes effect at floor(cycle * rate / hz), wherever the frame was cut |
| `AudioEdge.LaterEdgesUnheard` | src/audio_edge.c:156-174 | Edges drained later never change a sample already put out |
| `AudioEdge.Speaker.AwaitRoom` | src/audio_edge.c:135-148 | Waits at most 50 polls; succeeds exactly when the room there was and the frames the host takes in 50 polls are enough |
| `AudioEdge.Speaker.RenderEdge` | src/audio_edge.c:156-171 | The level before an edge is held up to the edge's sample, no further, and the ring stays in step with the edges so far |
| `AudioEdge.Speaker.Render` | src/audio_edge.c:153-174 | The ring's next samples are the zero-order hold of all edges drained so far; the last level is carried on |
| `AudioEdge.Speaker.AdvanceIdle` | src/audio_edge.c:107-116 | With no sample elapsed, edges change only the level |
| `AudioEdge.Speaker.Advance` | src/audio_edge.c:103-180 | The stream stays the initial silence followed by the zero-order hold of the edge history if and only if it was, the frame is not over 4799 samples and the host makes room for it in 50 polls; the level kept, the samples put out and the edges drained are stated for every case |
| `AudioEdge.Play` | src/audio_edge.c:79-180 | A whole run of calls from opening on, in order of time, at most 256 edges to a frame, frames of at most 4799 samples and a host that takes as many in 50 polls: after 4799 samples of silence there are floor(last cycle * 48000 / hz) samples, and sample s has the level of the last edge with cycle * 48000 < (s + 1) * hz, whatever the frames were |
| `AudioEdge.PlayOne` | src/audio_edge.c:79-180 | One such call keeps the stream that of the edges as submitted |
| `AudioEdge.CutsDoNotMatter` | src/audio_edge.c:103-180 | Two such runs with the same edges and the same last cycle put out the same stream, however frames were cut |
| `AudioEdge.Speaker.FullArrayForgetsLevel` | src/audio_edge.c:81-87 | With 256 edges pending, the level of a further edge is kept through the next advance if and only if the 256th edge has it too, or that advance drops its frame |
| `AudioPcm.InFlight` | src/audio_pcm.c:164-175 | The modular difference of the two slots is the number of frames written and not consumed |
| `AudioPcm.Pcm.Position` | src/audio_pcm.c:157-162 | The slot of the next unconsumed frame, for any number of channels and whatever part of the frame has been taken; 0 when the stream does not run |
| `AudioPcm.Pcm.Writable` | src/audio_pcm.c:164-175 | Equals N - 1 - (W - R) in every reachable state, for any number of channels; 0 when the stream does not run |
| `AudioPcm.Pcm.Advance` | src/audio_pcm.c:177-181 | Committing at most that many frames extends the stream by them and harms no unconsumed frame |
| `Calendar.SplitYear` | src/fatfs_disk.c:239-241 | The year-of-era formula undoes the split into centuries, four-year cycles, years and days for all 146097 days of an era |
| `Calendar.CivilIsValid` | src/fatfs_disk.c:231-246 | For every day number the result is a date of the Gregorian calendar |
| `Calendar.CivilSteps` | src/fatfs_disk.c:231-246 | Day n+1 is the calendar's day after day n, for every n |
| `Calendar.CivilIsDayByDay` | src/fatfs_disk.c:231-246 | The closed form equals stepping day by day from 1970-01-01, in either direction |
| `Calendar.DayNumberOfCivil` | src/fatfs_disk.c:231-246 | Counting days through years and months undoes the closed form |
| `Calendar.CivilOfDayNumber` | src/fatfs_disk.c:231-246 | Every calendar date is the date of its day number: the two are inverse |
| `Calendar.DayNumberOrders` | src/fatfs_disk.c:231-246 | Day numbers order dates as year, month, day do |
| `FatTime.WallclockIsValid` | src/fatfs_disk.c:226-246 | Date and time are in range and together count the clock's seconds |
| `FatTime.PackIsSum` | src/fatfs_disk.c:251-256 | The six fields do not overlap: or-ing them adds them |
| `FatTime.UnpackPack` | src/fatfs_disk.c:251-256 | Reading the fields back gives the time packed, its second made even |
| `FatTime.FatTimeTellsTime` | src/fatfs_disk.c:227-257 | From 1980 to 2107 the timestamp, unpacked, is the clock's second rounded down to an even one |
| `FatTime.EarlyClock` | src/fatfs_disk.c:248-256 | Before 1980 the timestamp is that of 1980-01-01 at midnight |
| `FatTime.LateClock` | src/fatfs_disk.c:248-256 | From 2108 on the timestamp has the year 2107 and the clock's month, day and time |
| `FatTime.MonotoneIff` | src/fatfs_disk.c:248-257 | Timestamps never go back up to a given clock value if and only if that value is before 2108 |
| `FatTime.ClockEnds` | src/fatfs_disk.c:227-246 | The clock's 64 bits end in 2554, so no 32-bit quantity of the conversion overflows |
| `FdtTree.PreorderOffsets` | src/fdt.c:116-149 | The preorder listing names for each node the place where its own flattening stands |
| `FdtTree.RestStep` | src/fdt.c:124-146 | The bytes left of a block are the next token followed by the bytes left after it |
| `FdtTree.AheadStep` | src/fdt.c:124-146 | A token opens at most one node: the nodes still to come are those after it, preceded by that one |
| `FdtWalk.Be32Back` | src/fdt.c:19-23 | Every 32-bit word written big-endian reads back |
| `FdtWalk.TokensOnWire` | include/fdt.h:15-19 | The five tokens are the words 1, 2, 3, 4 and 9, highest byte first |
| `FdtWalk.Spelled` | src/fdt.c:129-129 | The names compared with are the ASCII texts they are meant to be |
| `FdtWalk.TokenAt` | src/fdt.c:124-126 | At every offset a walk reaches, the word read is the token that stands there |
| `FdtWalk.StrEq` | src/fdt.c:30-33 | True exactly when the NUL-terminated string equals the other |
| `FdtWalk.CStringUpTo` | src/fdt.c:30-33 | The string at a place is what stands before the first NUL |
| `FdtWalk.ListHas` | src/fdt.c:130-137 | True exactly when some string of the property's value equals the target, whether or not the value ends in a NUL |
| `FdtWalk.SkipName` | src/fdt.c:55-61 | Leads to the token after the node's name and its padding |
| `FdtFind.PropSkipped` | src/fdt.c:65-69 | Leads to the token after the property's value and its padding |
| `FdtFind.NodeProp` | src/fdt.c:91-114 | Finds the node's own first property of that name with its value and length, and none exactly when the node has none: never a descendant's |
| `FdtWalk.FindPropIsFirst` | src/fdt.c:91-114 | The property found is one of the node's own with that name and none of that name before it; none is found if and only if there is none |
| `FdtFind.FindCompatible` | src/fdt.c:116-149 | Offset of the first node in preorder whose compatible list has the string, UINT32_MAX when there is none |
| `FdtFind.NameIs` | src/fdt.c:159-163 | True exactly when the node's name is the given one, or continues with '@' |
| `FdtFind.FindNodeNamed` | src/fdt.c:151-175 | Offset of the first node in preorder of that name, UINT32_MAX when there is none |
| `FdtFind.FirstNode` | src/fdt.c:116-175 | What both searches return, said on the tree: UINT32_MAX if and only if no node meets the query, else the place of the first in preorder that does |
| `FdtFind.CountCpuNodes` | src/smp.c:47-73 | The number of nodes in the whole tree whose device_type is cpu |
| `FdtWalk.CountOfIsNumber` | src/smp.c:47-73 | The count is that of the nodes that meet the query, each once |
| `FdtFind.NodeReg` | src/fdt.c:193-208 | Address and size are the big-endian values of bytes [16 idx, 16 idx + 8) and [16 idx + 8, 16 idx + 16) of the node's reg; none when there is no reg or it ends before the entry |
| `FdtFind.Be64IsBigEndian` | src/fdt.c:25-28 | A doubleword is the value of its eight bytes, highest first |
| `FdtFind.BeyondRegIff` | src/fdt.c:199-201 | The 32-bit test for the entry's being there is right for all lengths if and only if its product does not wrap around |
| `FdtFind.ListHasNeedle` | src/virtio.c:35-46 | The comparison loop of virtio_find_fdt finds its string among those of the property exactly when it is one of them |
| `FdtFind.SkipNameBounded` | src/virtio.c:56-59 | The bounded variant of the name skip leads to the same token |
| `FdtFind.VirtioFind` | src/virtio.c:19-70 | Address of the first virtio,mmio node in preorder with a register range whose device is accepted, 0 when there is none |
| `FdtFind.FirstWantedIsFirst` | src/virtio.c:19-70 | The address returned is that of a wanted node with none before it in preorder; 0 when there is none |
| `Mutex.AcquireKeepsInv` | include/atomic.h:98-111 | A store-conditional that succeeds found the word zero; succeeding or failing keeps the invariant |
| `Mutex.DoKeepsInv` | include/mutex.h:48-71 | Every step of every hart keeps: the lock word names the one hart in its critical section; a surviving reservation means the word is still zero; the counter is right |
| `Mutex.MutualExclusion` | include/mutex.h:48-71 | In every state of every run, with spurious failures, at most one hart is in its critical section and the word is 0 or its id plus one |
| `Mutex.NoLostIncrement` | examples/smp/main.c:60-62 | Whenever the lock is free the plain counter equals the number of completed critical sections, modulo 2^32 |
| `Mutex.AloneSucceedsIff` | include/atomic.h:98-111 | Alone on a free lock, the compare-and-swap succeeds if and only if one of its store-conditionals does: it may return false though nobody holds the lock |
| `Mutex.TryLockAlone` | include/mutex.h:47-51 | Alone on a free lock mutex_trylock makes 32 attempts and takes the lock if and only if one store-conditional is not spoiled |
| `Mutex.LockAlone` | include/mutex.h:57-66 | Alone on a free lock mutex_lock has it as soon as one store-conditional is not spoiled, after however many |
| `Mutex.LockLeavesHolding` | include/mutex.h:57-66 | No step of any hart takes a hart out of mutex_lock except its own that finds the lock free and takes it |
| `Mutex.UnlockFrees` | include/mutex.h:68-71 | mutex_unlock, by the hart the lock word names, makes it 0 |
| `Smp.DoKeepsInv` | src/smp.c:116-163 | Every memory access of primary and secondaries, in any interleaving, keeps each hart in one of the five phases of a job's life |
| `Smp.ExactlyOnce` | src/smp.c:116-163 | In every reachable state a hart has called exactly the jobs accepted for it, in order, but perhaps the last |
| `Smp.NoLostWake` | src/start.S:145-152 | A job accepted and not yet called has its interrupt pending, or the hart has cleared it and is on its way to the call |
| `Smp.WaitMeansDone` | src/smp.c:132-147 | smp_wait returns as soon as it finds the hart not running, and then every accepted job has been called and has returned |
| `Smp.StartAcceptsIff` | src/smp.c:116-130 | A job is taken if and only if the hart is a present secondary, the function is not NULL, and the hart is through with all it was given and back in its loop |
| `Smp.StartDelivers` | src/smp.c:122-129 | Four steps after accepting a job the command slot holds it, the running flag is set and the interrupt pending, and nothing else of the hart has changed |
| `Smp.Progress` | src/start.S:145-152 | Every own step brings an accepted job nearer its return and no other hart's step takes it further away |
| `Smp.DoneInEight` | src/start.S:145-152 | At most eight own steps after the interrupt the job has returned |
| `Smp.StrayInterruptRepeatsIff` | src/smp.c:153-163 | An interrupt from any other sender makes an idle hart, wherever in its loop, call the job in its command slot again if and only if that has a function: smp_start must be the only sender |
| `MemMove.ForwardStep` | src/string.c:48-56 | A forward copy may move k bytes at once, read before any is written, when the destination is not inside the source above its start |
| `MemMove.BackwardStep` | src/string.c:69-78 | Likewise downwards when the destination is not below the source |
| `MemMove.ForwardIsMoveIff` | src/string.c:64-69 | A forward copy equals a move for every memory content if and only if the destination is not inside the source above its start |
| `MemMove.Memcpy` | src/string.c:42-58 | dst holds the old src, all other bytes unchanged, by bytes and aligned words |
| `MemMove.Memmove` | src/string.c:61-80 | For all dst, src and n in one memory: dst holds the old src, all other bytes unchanged; no word access is misaligned |
| `MemAsm.CopyBlock` | src/string_asm.S:121-131 | Four loads before four stores move 32 bytes in one step of a forward copy, overlapping or not |
| `MemAsm.CopyBlockDown` | src/string_asm.S:194-205 | Likewise for a backward copy |
| `MemAsm.Memcpy` | src/string_asm.S:95-152 | The unrolled memcpy meets the contract of the C one |
| `MemAsm.Memmove` | src/string_asm.S:167-226 | The unrolled memmove meets the contract of the C one, for all overlaps |
| `MemAsm.SplatByProduct` | src/string.c:33-36 | The product with 0x0101010101010101 stores as eight copies of the byte |
| `MemAsm.SplatIsProduct` | src/string_asm.S:44-51 | The shifts and ors give the same word as the product |
| `MemAsm.Memset` | src/string.c:29-40 | n bytes at dst hold the low byte of c, all others unchanged |
| `MemAsm.MemsetUnrolled` | src/string_asm.S:42-85 | The unrolled memset meets the same contract |
| `EthRing.Decodes` | src/eth_rtl8169.c:105-109 | The OWN, EOR and segment bits and the length are read back as they were put into the flags word |
| `EthRing.FlagsLayout` | src/eth_rtl8169.c:105-109 | OWN is bit 31, EOR bit 30, the segment bits 29 and 28, the length the low fourteen bits |
| `EthRing.WordsWritten` | src/eth_rtl8169.c:181-197 | The words written to receive, to send and at the start, as numbers |
| `EthRing.Produced` | src/eth_rtl8169.c:335-350 | Handing the descriptor at the producer's position over keeps the OWN bits and the frames between the two positions, taken circularly |
| `EthRing.Consumed` | src/eth_rtl8169.c:385-392 | Likewise for giving back the descriptor at the consumer's position |
| `Eth.Receiver.constructor` | src/eth_rtl8169.c:177-188 | All receive descriptors are the device's, each offering a whole buffer, EOR on the last only |
| `Eth.Receiver.DeviceWrites` | src/eth_rtl8169.c:354-360 | The device, following OWN and EOR only, keeps the ring in order and drops a frame exactly when all sixteen descriptors are full or it exceeds 2048 bytes |
| `Eth.Receiver.Recv` | src/eth_rtl8169.c:362-394 | The frames come out in the order the device wrote them, none lost or repeated: min(max(length - 4, 0), maxlen) bytes from the front; the descriptor goes back as 0x80000800, the last as 0xC0000800 |
| `Eth.Receiver.Drain` | src/eth_rtl8169.c:285-290 | With frames coming in between receives, the handler delivers the pending frames in order, each whole without its last four bytes, up to the first with nothing but an FCS: it leaves frames behind exactly when one comes before them |
| `Eth.Sender.constructor` | src/eth_rtl8169.c:190-197 | All transmit descriptors are the driver's, EOR on the last only |
| `Eth.Sender.Send` | src/eth_rtl8169.c:323-352 | Accepts exactly the frames of 1 to 2048 bytes while fewer than sixteen wait, and hands them over as 0xB0000000 plus the length, the last descriptor's as 0xF0000000; a refusal changes nothing |
| `Eth.Sender.DeviceSends` | src/eth_rtl8169.c:343-350 | What goes out on the wire is what eth_send took, in that order |
| `Pci.FindCapability` | src/pci.c:130-146 | Returns the first capability with the id within 48 hops; on a list that has ended or gone round by then, 0 if and only if no reachable capability has it |
| `Pci.HopLaws` | src/pci.c:132-140 | The places the walk visits: from byte 0x34 along second bytes, pointers rounded down to dwords; there is a list when bit 4 of byte 6 says so |
| `Pci.BudgetSuffices` | src/pci.c:137-144 | On a list that has ended or gone round by then, whatever a walk of any length finds is found within 48 hops |
| `Pci.BudgetSufficesIff` | src/pci.c:137-144 | 48 hops find, whatever the ids on a list are, all that any walk finds if and only if the list has ended or gone round by then |
| `Pci.PlacedIsClosed` | src/pci.c:137-144 | That is so wherever the pointers followed are 0 or in [0x40, 0xFC], by pigeonhole on the 48 places there, cyclic lists included |
| `Pci.BudgetFallsShort` | src/pci.c:137-144 | On a list that steps through the header 48 hops miss the last capability |

## Left out

- VirtInput.VirtInput.DeviceActs: stands for the device between two driver steps; its body does nothing and the driver is proved against its contract alone, which `VirtInput.DeviceRunMoves` shows to cover every run of the device.
- VirtQueue.Virtq.constructor: the register writes of the setup and the refusal of a size the device does not take are not modelled. The protocol theorems take a size that is a power of two, as the virtio standard asks; `VirtRuns.WrapExact` says what it is needed for.
- VirtGpu.Gpu.CmdSync: the caller's obligations to keep requests within 256 bytes and responses within 1024 are preconditions, since the code does not check them.
- NvmeDisk.NvmeDisk.SubmitAndWait: a controller that answers after the timeout is not modelled; the code does not match command ids, so a later call would take the late completion for its own.
- NvmeDisk.NvmeDisk.IoCmd: the controller refuses a PRP1 that is not on a dword; one that clears the two low address bits instead, as the standard also allows, is not modelled, and would move other bytes.
- NvmeDisk.NvmeDisk.Read: the buffer lies outside the driver's own structure, and the call fits the list pages by the condition of `EveryCommandFitsIff`; otherwise the code writes past its list into the rest of that structure.
- NvmeDisk.NvmeDisk.Write: the same two conditions on the buffer.
- NvmeDisk.NvmeDisk.WriteThenRead: the same two conditions on both buffers.
- NvmePrp.SetupPrp: asks for sizes up to the documented maximum, so 32-bit overflow near 4 GiB does not arise.
- AudioEdge.Speaker.Advance: a frame over 4799 samples and a host that does not drain within 50 polls lose samples by design; what is put out after that is not compared with the edges.
- AudioEdge.Play: asks the host to take a whole frame in 50 polls; `Advance` has the exact condition, which also counts room left from before.
- AudioPcm.Pcm.HostTakes: the host does not overtake the writer. A real stream runs on when the ring is empty and plays old frames.
- FdtFind.FindCompatible: the block is a well-formed flattening, of any forest; malformed blocks, `fdt_next_node` and the header checks of `fdt_init` are not modelled.
- FdtFind.NodeReg: asks for an entry number whose end fits 32 bits; `BeyondRegIff` shows that beyond it the code's test goes wrong for some lengths.
- FdtFind.VirtioFind: probing a device and the caller's verdict on it are one function of the address.
- Smp.ExactlyOnce: the primary is the only caller of `smp_start` and the only sender of interrupts; `Smp.StrayInterruptRepeatsIff` shows why.
- Memory ordering: fences and the aqrl forms are taken to give sequential consistency. Bytes of one completion entry are stored before the driver looks at them.
- NVMe admin queue, identify and flush; the reset handshakes of all devices; the `up` and `present` flags, which make calls return at once before initialisation.
- The polling loops of `smp_wait` and `mutex_lock` are not shown to end; `Smp.Progress` and `Smp.DoneInEight` are about the hart waited for, and the lock is not fair.
- Descriptor buffers of the Ethernet rings are values of 2048 bytes, each written in one step.
- Registers of UART, I2C, RTC, HDA and frame buffer, lwIP, FatFs, the graphics and user-interface code: no protocol or arithmetic of interest, or not part of this repository.
