# A model of the Onix kernel

Onix is a 32-bit x86 teaching kernel.  This project models its stateful cores in Dafny and
proves what they are for.  Kernel code runs with interrupts off, so what happens between two
points where code may block is one step; that makes the concurrent parts state machines over
such steps.

Each component has a snapshot datatype with specification functions, lemmas about them over
all inputs and all runs, and a class that holds the fields the C code holds and updates them
in the same order with the same loops.  Every method of such a class says in its contract
that the new state is a specification function of the old one, so the lemmas speak about it.

## Components

**Paging** (`Memory`, `CopyOnWrite`, `PageMapping`, `ForkExit`, `PageTables`,
`DirectoryLoops`, `MemoryManager`, `EagerCopy`).  Physical memory is an array of frames of
1024 words, and a word is read as data or as a page table entry, as on the machine.  Page
tables are reached through the recursive map.  `memory_map[f]` equals the number of paths
(process, directory slot, table slot) that end in frame f, where a table shared by two
processes counts once for each; a frame is reached at one place only; a write bit is set only
on what a single path reaches; every user page that is mapped is open to user code.  From this follows that fork with copy-on-write cannot be told
from a fork that copies every page, over any sequence of forks, stores, links, unlinks and
exits.

**TCP** (`Tcp`, `TcpSender`, `TcpSegments`, `TcpWire`, `TcpConnection`, `TcpProgress`,
`TcpDelivery`, `TcpPcb`).  Two hosts in the established state, and a network that may deliver
any packet ever sent any number of times, or not at all.  What arrives is always a prefix of
what was written, and after any run everything but the Nagle buffer can still arrive.  Sequence numbers stay below 2^31 within a run, because the lists compare them as C
ints; two lemmas say when that agrees with the order of RFC 9293, section 3.4, and show a pair
for which it does not.

**Minix file system** (`Minix`, `MinixZones`, `MinixMap`, `MinixFile`, `MinixTruncate`,
`MinixSpace`, `MinixDisk`, `MinixRun`; `MinixDir`, `MinixLinks`, `MinixRmdir`, `MinixNames`,
`MinixOutcomes`, `MinixNamespace`; `Bitmap`).  Zones are bytes, read as file contents or as zone numbers.  One
block of each bit map (`zones` <= 8192).

**Buffer cache** (`Buffer`, `BufferRun`, `BufferAge`, `BufferCache`), **kernel heap** (`Heap`,
`HeapRun`, `HeapPages`, `KernelHeap`), **elevator** (`Elevator`, `ElevatorRun`), **lock** (`Lock`), **pipe**
(`Fifo`, `Pipe`), **timers** (`Timers`, `TimerEffects`,
`TimerClock`, `TimerList`), **checksum** (`Checksum`),
**lists** (`Lists`, `LinkedList`).

## Where the code does not do what it is meant to

Each of these is a statement in the project, with the exact condition.

- A zone handed out by `minix_balloc` is not cleared.  A new indirect zone that still holds old
  data gives the file zones it does not own: `minix_bmap` keeps ownership if and only if every
  zone it makes indirect reads as no zones (`MinixMap.EnsureExact`, `MinixZones.StaleZone`).
  Truncation does not clear zones either (`MinixTruncate.TruncateDirties`).  A write that makes
  no indirect zone is right on any disk (`MinixFile.MappedWrite`), and bytes of a new block
  that were not written read as what the zone held (`MinixFile.WriteWrites`).
- A write beyond the end of a file leaves a hole, on which `minix_read` stops at its assertion
  (`MinixFile.HoleStops`, `MinixFile.HoleOnDisk`).  Writing nothing beyond the end does not grow a file.
- `minix_mknod` does not look at the type it is given; a directory made by it breaks the
  directory invariants (`MinixLinks.CreateKeeps`, `MinixLinks.MknodBreaks`).
- The link count of an inode is a byte, which `minix_mkdir` and `minix_link` raise without a look
  at it: the counts stay exact if and only if it is below 255 (`MinixLinks.MkdirKeeps`,
  `MinixLinks.LinkKeeps`, `MinixLinks.LinksWrap`).
- A task that waited in `get_free_buffer` takes the next idle buffer for its block without looking
  the block up again.  At most one buffer for a block, and the refinement of a plain disk, survive
  this if and only if no other buffer was made for the block meanwhile
  (`BufferRun.ResumeRefines`, `BufferRun.TwoBuffers`).
- An acknowledgement ahead of everything enqueued is believed (`TcpSender.UpdateAckKeeps`,
  `TcpSender.AckAhead`);
  section 3.10.7.4 of RFC 9293 has it answered and dropped.
- On an idle connection a short write is held back for good: Nagle's buffer is released only by
  a new acknowledgement or another write, and nothing is in flight that could be acknowledged
  (`TcpProgress.FirstSmallWriteStalls`, `TcpProgress.StallLasts`).
- The comment in `mutex_unlock` says the yield makes sure that the one woken gets the mutex and
  does not starve.  It is the next holder if and only if its own look at the mutex is the next
  operation on it (`Lock.WokenIsNext`), and it may be woken any number of times in vain
  (`Lock.Starves`).
- `kmalloc` computes size plus header, and `div_round_up` what it adds to round up, in 32 bits.
  For the last 15 sizes below 2^32 it returns too little (`HeapRun.KmallocKeeps`,
  `HeapRun.TooLittle`); for the 4096 sizes before them it asks for no pages, where the kernel
  stops (`Heap.NoPages`).
- `put_page` asserts that a frame is free after it has lowered a count.  In `unlink_page` this
  holds if and only if a frame is left once the table was made private, or nobody else reaches
  the page (`PageTables.UnlinkAsserts`); in `free_pde` if and only if a frame is free, or nobody
  else reaches the first frame put back (`DirectoryLoops.ExitAsserts`).  After a fork that left
  no frame free neither process can exit (`DirectoryLoops.ForkedIsStuck`, `EagerCopy.ExitFails`).
- `snd_max` is not set by the handshake: it is the number of the SYN until the first data byte is
  sent.  `rcv_nxt <= snd_max` and `snd_una <= snd_max` hold if and only if `snd_max` has reached
  the number of the first byte (`TcpConnection.Safety`); at first it has not
  (`TcpConnection.MaxBehind`).
- A packet that begins before what is waited for is cut at its front but keeps its sequence number,
  and the queue is sorted by that: its bytes come after those queued if and only if nothing queued
  begins later than it (`TcpDelivery.CutPacketQueues`, `TcpDelivery.CutPacketInFront`).  Between two
  hosts that run this code no such packet arrives (`TcpConnection.NeverInside`).
- `tcp_recvmsg` cuts a segment that was copied in part by what is left of the buffer, which is 0
  by then, so its bytes are returned again.  A call returns exactly what it takes if and only if
  its buffer ends where a segment does (`TcpConnection.ReadsOnce`, `TcpConnection.ReadTwice`).
- `minix_ialloc` gives the length of the bit map in bits where bytes are meant.  It stays in its
  block if and only if a bit of the block is clear (`MinixDir.IallocInBlock`, `Bitmap.FullMap`).
- The timer list compares u32 expiries as C ints.  It is in the order of expiry if and only if no
  two timers expire on opposite sides of 2^31 (`Timers.ListIsInOrder`); if they do, a timer may be
  late (`Timers.LateTimer`, `Timers.CrossedIsLate`).  A timer whose time passes 2^32 is due at
  once (`Timers.DueAtOnce`).
- `list_insert_sort` reads the sector of a request as a C int too: the queue of a block device is in
  the order of the sectors if and only if no two requests lie on opposite sides of sector 2^31
  (`Elevator.QueueIsBySector`).
- `task_fork` copies the PCB with its pointer to a pending alarm.  Parent and child then both free
  it: what the timers keep survives a fork if and only if the parent has no alarm set
  (`Timers.ForkKeeps`); one timer freed twice is `Timers.FreedTwice`.
- `task_exit` frees all timers of the task, among them the one that is to stop the motor of the
  floppy drive, to which the drive keeps pointing: all is well if and only if there is none
  (`Timers.ExitKeeps`, `Timers.MotorRuns`).
- `timer_wakeup` takes an empty list for a timer that expires at 2^32 - 1: at that tick, and at no
  other, it goes on behind the list (`Timers.LoopEnds`).

## Model

| member | source | states |
|---|---|---|
| MemoryManager.MemoryManager.GetPage | src/kernel/memory.c:169-186 | takes the lowest frame nobody uses and counts it once |
| MemoryManager.MemoryManager.PutPage | src/kernel/memory.c:188-211 | one reference less, and one free frame more exactly when it was the last; the closing assertion is the precondition |
| MemoryManager.MemoryManager.GetPte | src/kernel/memory.c:305-324 | returns the window of the table; an absent table becomes a fresh zeroed frame, writable and open to user code |
| MemoryManager.MemoryManager.GetEntry | src/kernel/memory.c:326-331 | returns the address of the entry of the page |
| MemoryManager.MemoryManager.CopyPage | src/kernel/memory.c:403-418 | a fresh frame with the contents of the page; the scratch mapping is left non-present |
| MemoryManager.MemoryManager.CopyOnWrite | src/kernel/memory.c:423-464 | directory entry, table and page are made private in this order, through the recursive map |
| MemoryManager.MemoryManager.LinkPage | src/kernel/memory.c:467-488 | a mapped page is left alone; otherwise one fresh page with arbitrary contents, in a private table; afterwards user code can read the page, and a fresh one it can write |
| MemoryManager.MemoryManager.UnlinkPage | src/kernel/memory.c:491-516 | the page leaves this one process, after its table was made private |
| MemoryManager.MemoryManager.PageFault | src/kernel/memory.c:760-811 | which fault does what: kill, copy-on-write, link, panic |
| MemoryManager.MemoryManager.UserStore | src/kernel/memory.c:760-811 | a store with all the faults it causes is one word written to one page of one process |
| MemoryManager.MemoryManager.CopyPde | src/kernel/memory.c:551-604 | tables and pages shared, write bits cleared, counts raised, directory copied |
| MemoryManager.MemoryManager.FreePde | src/kernel/memory.c:607-643 | every path of the process gives back one reference, tables after their pages |
| PageTables.RecursiveMap | src/kernel/memory.c:299-331 | each application of the self map climbs one level: page, table, directory |
| CopyOnWrite.CowKeeps | src/kernel/memory.c:423-464 | one level of copy_on_write keeps the invariant and what every process reads, leaves a write bit only one path goes through, and takes a frame exactly if another path goes there too |
| PageTables.CowLevelsKeep | src/kernel/memory.c:423-464 | all levels together, for any fault address |
| PageTables.MappedIsReadable | src/kernel/memory.c:245-253 | in every state the invariant admits, user code can read exactly the user pages its process has mapped: both entries on the way are present and open to it |
| PageTables.LinkKeeps | src/kernel/memory.c:467-488 | the invariant, exactly one page of one process added, which user code can read and if it is fresh write, and how many frames that takes |
| PageTables.UnlinkKeeps | src/kernel/memory.c:491-516 | the invariant, and exactly one page of one process gone |
| PageTables.UnlinkAsserts | src/kernel/memory.c:188-211 | in unlink_page the closing assertion of put_page holds exactly when a frame is left after the table was made private, or the page is reached by nobody else |
| DirectoryLoops.ExitAsserts | src/kernel/memory.c:188-211 | in free_pde it holds exactly when a frame is free or the first frame put back is reached by nobody else |
| DirectoryLoops.ForkedUnlink | src/kernel/memory.c:491-516 | after a fork unlink_page needs two free frames |
| DirectoryLoops.ForkedIsStuck | src/kernel/memory.c:607-643 | after a fork with no frame free neither process can exit |
| EagerCopy.ExitFails | src/kernel/memory.c:188-211 | a machine with two free frames, one page and one fork on which that happens |
| PageTables.StoreMemKeeps | src/kernel/memory.c:760-811 | after the faults it causes user code can write the page; the store changes one word of one page of one process and nothing any other process reads |
| ForkExit.ForkKeeps | src/kernel/memory.c:551-604 | the invariant, and the child reads what the parent reads, as if every page had been copied |
| ForkExit.ExitKeeps | src/kernel/memory.c:607-643 | the invariant, and what the other processes read is unchanged |
| ForkExit.CountBound | src/kernel/memory.c:576-593 | no count exceeds the number of processes, so the assertions below 255 never fire |
| ForkExit.AllGone | src/kernel/memory.c:169-211 | with no process left every frame above the kernel is free again |
| EagerCopy.Perform | src/kernel/memory.c:403-643 | each operation of the memory manager is a step of the machine that copies every page at fork |
| EagerCopy.Run | src/kernel/memory.c:403-643 | any sequence of operations refines a run of the eagerly copying machine, for as long as the frames each step takes are there; what a process reads is unchanged by all others; after the last exit the free count is back |
| EagerCopy.ForkThenRun | src/kernel/memory.c:551-604 | a child keeps reading what its parent read at the fork, whatever parent and others do then |
| EagerCopy.BootIsConsistent | src/kernel/memory.c:256-297 | memory as mapping_init leaves it, identity map included, satisfies the invariant |
| Tcp.ListOrderIsSequenceOrder | src/lib/list.c:115-135 | for numbers less than half the circle apart, list order is sequence order exactly when the pair does not step over 2^31 |
| Tcp.ListOrderFailsAcrossTheSign | src/lib/list.c:119-122 | a pair that is listed in the wrong order |
| TcpPcb.ControlBlock.EnqueueOnce | src/net/tcp_output.c:55-107 | one turn of the loop of tcp_enqueue |
| TcpPcb.ControlBlock.Enqueue | src/net/tcp_output.c:44-113 | tcp_enqueue with Nagle buffering |
| TcpPcb.ControlBlock.SendFirst | src/net/tcp_output.c:132-157 | one segment sent: sequence fields, lists, acknowledgement stamped |
| TcpPcb.ControlBlock.Output | src/net/tcp_output.c:115-163 | tcp_output up to the right edge of the window |
| TcpPcb.ControlBlock.Rexmit | src/net/tcp_output.c:165-185 | what the driver no longer holds goes back and is sent again |
| TcpPcb.ControlBlock.DropAcknowledged | src/net/tcp_input.c:119-135 | the loop over one list |
| TcpPcb.ControlBlock.UpdateAck | src/net/tcp_input.c:76-143 | duplicate acknowledgements, fast retransmission, release of acknowledged segments, flush of the Nagle buffer |
| TcpPcb.ControlBlock.UpdateBuf | src/net/tcp_input.c:153-206 | old, out of order, trimmed and in-order data |
| TcpPcb.ControlBlock.Input | src/net/tcp_input.c:413-428 | validity check, then acknowledgement, then data |
| TcpSender.EnqueueKeeps | src/net/tcp_output.c:44-113 | the bytes given are appended to the stream, whatever segment boundaries are drawn |
| TcpSender.SendHeadKeeps | src/net/tcp_output.c:132-157 | conservation through sending; the assertion that the count is 1 holds |
| TcpSender.RexmitKeeps | src/net/tcp_output.c:165-185 | conservation through retransmission |
| TcpDelivery.OutputIs | src/net/tcp_output.c:115-163 | tcp_output sends the first segments of the line, in order and each once, up to the first that ends behind the window, and none for a window below 536; the others stay in line, those sent are unacknowledged, and nothing else changes |
| TcpDelivery.RexmitIs | src/net/tcp_output.c:165-185 | tcp_rexmit lines up everything unsent and everything unacknowledged that the driver does not hold, in sequence order, and sends from that line in the same way |
| TcpDelivery.LostIsResent | src/net/tcp_output.c:165-185 | so a segment that is not acknowledged and that the driver does not hold goes out again, or it waits behind or at the first segment that ends behind the window |
| TcpDelivery.DuplicateResends | src/net/tcp_input.c:47-89 | a lost segment within the window goes out again exactly on the third duplicate acknowledgement without data and on those after it |
| TcpDelivery.NewAckIs | src/net/tcp_input.c:91-143 | a new acknowledgement becomes snd_una; the segments left are exactly those it does not cover, and the Nagle buffer joins them exactly if it is not empty and all that was sent is covered |
| TcpSegments.EnqueueLeavesOver | src/net/tcp_output.c:44-113 | what is left in the buffer: nothing without the algorithm of Nagle or for an empty write, else what does not fill a segment |
| TcpSegments.EnqueueCuts | src/net/tcp_output.c:78-113 | every new segment is full, or the last one of a call that leaves nothing in the buffer |
| TcpSender.RequeueLeavesTheDriversOnly | src/net/tcp_output.c:165-181 | after the loop only segments the driver holds are left unacknowledged |
| TcpSender.UpdateAckKeeps | src/net/tcp_input.c:76-143 | conservation holds after an acknowledgement if and only if a new one does not run ahead of the bytes enqueued |
| TcpSender.AckAhead | src/net/tcp_input.c:109-135 | a host with nothing to send and an acknowledgement one past that: it is believed, and snd_una passes what was enqueued |
| TcpSender.Conservation | src/net/tcp_output.c:44-185 | after any run every byte written and not acknowledged is in exactly one segment, and every segment carries the bytes of its place |
| TcpWire.SentHeadIsClear | src/net/tcp_output.c:115-163 | a sent packet never cuts across another packet or segment |
| TcpWire.UpdateAckSide | src/net/tcp_input.c:76-143 | the same through acknowledgements and the retransmissions they cause |
| TcpConnection.NeverInside | src/net/tcp_input.c:173-179 | what the receiver waits for is never inside a packet: the trim is not exercised |
| TcpConnection.UpdateBufIs | src/net/tcp_input.c:153-206 | a segment is queued exactly when it starts where the receiver waits |
| TcpDelivery.InputIs | src/net/tcp_input.c:413-428 | a packet that ends outside the window changes nothing; of one within it the acknowledgement counts, and exactly if it brings bytes that are waited for these join the queue and the number waited for becomes its end |
| TcpDelivery.CutPacketQueues | src/net/tcp_input.c:173-206 | a packet cut at its front keeps its number: its bytes come after those queued exactly when nothing queued begins later than it |
| TcpDelivery.CutPacketInFront | src/net/tcp_input.c:173-206 | a queue and a packet of which the last byte is queued in front of older ones |
| TcpConnection.StepKeeps | src/net/tcp_input.c:413-428 | every event of either host and the network keeps the connection invariant |
| TcpConnection.Safety | src/net/tcp_input.c:76-206 | over a network that loses, duplicates and reorders, with applications that read and write: bytes taken and queued are together a prefix of bytes written; snd_una <= rcv_nxt, snd_max <= snd_nbb, and both are at most snd_max exactly once snd_max has passed the first number; never more than the window is queued |
| TcpConnection.MaxBehind | src/net/tcp_output.c:145-146 | when the handshake is over snd_max is behind snd_una and rcv_nxt |
| TcpDelivery.CanArrive | src/net/tcp_input.c:76-206 | from every state of the invariant there is a continuation in which all that was written and is not in the Nagle buffer arrives, whatever was lost before |
| TcpDelivery.EverythingCanArrive | src/net/tcp_output.c:115-185 | so there is one after any run since the handshake |
| TcpConnection.ReceivedIs | src/net/tcp.c:317-354 | tcp_recvmsg copies the first bytes of the queue, as many as fit, and takes off the segments copied whole |
| TcpConnection.ReadsOnce | src/net/tcp.c:333-343 | what is copied is what leaves the queue exactly when the buffer ends where a segment does |
| TcpConnection.ReadTwice | src/net/tcp.c:333-343 | two bytes queued and a buffer for one: the queue stays, and the first byte is returned by the next call too |
| TcpConnection.ApplicationReadsPrefix | src/net/tcp.c:288-355 | if all reads end so, the application reads a prefix of what the other wrote |
| TcpPcb.ControlBlock.RecvMsg | src/net/tcp.c:317-354 | the loop of tcp_recvmsg |
| TcpProgress.OutputSends | src/net/tcp_output.c:115-163 | the segments within the window are sent in order, each once, and the first beyond it stays first |
| TcpProgress.SmallWriteStalls | src/net/tcp_output.c:98-107 | a write on an idle connection is held back exactly when it is short and Nagle is on |
| TcpProgress.StallLasts | src/net/tcp_output.c:98-107 | bytes held back on an idle connection are never delivered, in any run, until the next write |
| TcpProgress.FirstSmallWriteStalls | src/net/tcp_output.c:98-107 | the first short write after the handshake is such a case |
| Bitmap.ChangedBits | src/lib/bitmap.c:42-67 | setting or clearing a bit changes that bit of the map and no other |
| Bitmap.Map.Test | src/lib/bitmap.c:22-39 | the bit of an index |
| Bitmap.Map.Set | src/lib/bitmap.c:42-67 | exactly one bit changes |
| Bitmap.Map.Find | src/lib/bitmap.c:70-104 | the counting loop finds the least run |
| Bitmap.Map.Scan | src/lib/bitmap.c:70-117 | the least run of clear bits is set and returned, or nothing changes and -1 is returned |
| Bitmap.FirstRunIsFirst | src/lib/bitmap.c:70-104 | the run is clear, and none begins earlier |
| MinixMap.SlotsDiffer | src/fs/minix/minix.c:146-191 | distinct blocks have distinct slots, none of which holds an indirect zone |
| MinixMap.SlotsCovered | src/fs/minix/minix.c:146-191 | every slot that holds no indirect zone belongs to a block |
| MinixMap.BallocIsFree | src/fs/minix/minix.c:21-50 | the zone handed out was free |
| MinixMap.BallocFinds | src/fs/minix/minix.c:21-50 | a free zone is found if there is one |
| MinixMap.EnsureKeeps | src/fs/minix/minix.c:146-218 | create keeps ownership, gives the block a zone, leaves every other mapping and all data alone, hands out at most one zone a level, and clears nothing: a new file block holds what its zone held |
| MinixMap.EnsureExact | src/fs/minix/minix.c:146-218 | create keeps ownership if and only if each zone it makes indirect reads as no zones |
| MinixSpace.EnsureWhen | src/fs/minix/minix.c:146-218 | create succeeds exactly when there are as many free zones as the slots on the way lack, and takes as many |
| MinixSpace.WriteWhen | src/fs/minix/minix.c:408-484 | a write succeeds exactly when there are as many free zones as its blocks lack before it, each indirect zone counted once, and takes as many |
| MinixZones.FillKeeps | src/fs/minix/minix.c:21-50 | handing out a zone keeps ownership if and only if a new indirect zone reads as no zones |
| MinixZones.StaleZone | src/fs/minix/minix.c:21-50 | a disk on which a reused zone breaks ownership |
| MinixFile.WriteWrites | src/fs/minix/minix.c:408-484 | after a write each byte is the one written, or what it was, or, in a new block, what was in the zone; only this inode grows; asked for is only that the zones made indirect read as no zones |
| MinixFile.MappedWrite | src/fs/minix/minix.c:146-218 | a write that makes no indirect zone needs nothing of the free zones |
| MinixFile.DirectWrite | src/fs/minix/minix.c:146-218 | nor does a write to the seven direct blocks |
| MinixFile.NewBytesZero | src/fs/minix/minix.c:21-50 | on a disk whose free zones read as zeros new bytes read as 0, and it stays such a disk |
| MinixFile.ReadIs | src/fs/minix/minix.c:338-405 | for all owners, offsets and lengths: the end of the file exactly from the size on; the assertion exactly if a byte of the clipped range has no zone; else min(len, size - offset) bytes, each the one at its place |
| MinixFile.ReadBack | src/fs/minix/minix.c:338-405 | what was written is read |
| MinixFile.ReadElsewhere | src/fs/minix/minix.c:338-405 | every read of another file has the same outcome as before, end and hole included, and so has every read of the same file that gave all it was asked for and does not touch the bytes written |
| MinixFile.HoleStops | src/fs/minix/minix.c:368-372 | reading stops at its assertion exactly where a block was never written to |
| MinixFile.HoleOnDisk | src/fs/minix/minix.c:368-372 | a disk and a write of one byte after which it does |
| MinixTruncate.SlotTreeOk | src/fs/minix/minix.c:486-506 | the zones below a slot are in use and occur once |
| MinixTruncate.TruncateKeeps | src/fs/minix/minix.c:525-553 | ownership is exact after truncation, and other inodes keep their zones |
| MinixTruncate.TruncateDirties | src/fs/minix/minix.c:525-553 | free zones read as zeros afterwards exactly when the zones given back did |
| MinixRun.RunRefines | src/fs/minix/minix.c:338-553 | any run of writes and truncations refines plain byte arrays with sizes, as long as the zones made indirect read as no zones |
| MinixRun.SmallRunRefines | src/fs/minix/minix.c:338-553 | any run of truncations and of writes to the direct blocks does, whatever free zones hold |
| MinixRun.ReadRefines | src/fs/minix/minix.c:338-405 | a read has the outcome it has on the plain file: end, hole or the bytes |
| MinixRun.RunReads | src/fs/minix/minix.c:338-553 | so after any run of writes and truncations every read returns what the plain files hold |
| MinixDisk.Disk.Balloc | src/fs/minix/minix.c:21-50 | the first clear bit of the zone map is set |
| MinixDisk.Disk.Bfree | src/fs/minix/minix.c:53-86 | the bit of the zone is cleared; its assertion is the precondition |
| MinixDisk.Disk.Bmap | src/fs/minix/minix.c:146-218 | the loop with level and divider reaches the slot of the block; without create nothing changes |
| MinixDisk.Disk.Write | src/fs/minix/minix.c:408-484 | minix_write, block by block |
| MinixDisk.Disk.Read | src/fs/minix/minix.c:338-405 | minix_read, block by block |
| MinixDisk.Disk.InodeBfree | src/fs/minix/minix.c:486-506 | the zones of the tree are freed, each once: no bit test fails |
| MinixDisk.Disk.Truncate | src/fs/minix/minix.c:525-553 | exactly the zones of the inode are freed |
| MinixDir.IallocInBlock | src/fs/minix/minix.c:89-113 | with the length given in bits the search stays in its block, and finds what it should, exactly when a bit of the block is clear |
| Bitmap.FullMap | src/fs/minix/minix.c:99-103 | a full block and a clear bit behind it: that one is handed out |
| MinixLinks.IallocIsFree | src/fs/minix/minix.c:89-113 | the inode handed out is named by no entry |
| MinixLinks.CreateKeeps | src/fs/minix/minix.c:1115-1162 | creating an inode keeps the link counts exact if and only if it is not made a directory |
| MinixLinks.RootOnlyOk | src/fs/minix/minix.c:776-850 | a root directory alone satisfies the invariant |
| MinixLinks.MknodBreaks | src/fs/minix/minix.c:1115-1162 | there a directory made by mknod breaks it |
| MinixLinks.MkdirKeeps | src/fs/minix/minix.c:776-850 | mkdir keeps the link counts exact if and only if the count of the parent is below 255 |
| MinixLinks.LinkKeeps | src/fs/minix/minix.c:982-1048 | link keeps them exact if and only if the count of the file is below 255 |
| MinixLinks.LinksWrap | src/fs/minix/minix.c:1039-1039 | a file system on which the 256th name of a file makes its count 0 |
| MinixLinks.UnlinkKeeps | src/fs/minix/minix.c:1051-1113 | unlink keeps them exact and never decrements a zero count |
| MinixRmdir.RmdirKeeps | src/fs/minix/minix.c:899-979 | rmdir keeps them exact; its two assertions hold |
| MinixRmdir.RmdirRemoves | src/fs/minix/minix.c:899-979 | when rmdir succeeds |
| MinixRmdir.NothingInside | src/fs/minix/minix.c:853-896 | an empty directory is the parent of none |
| MinixRmdir.DirectoryLinks | src/fs/minix/minix.c:816-821 | the link count of a directory is 2 plus its subdirectories |
| MinixRmdir.NextKeeps | src/fs/minix/minix.c:686-1162 | a call keeps all of this if and only if it is not mknod of a directory and raises no count of 255 |
| MinixRmdir.RunKeeps | src/fs/minix/minix.c:686-1162 | in every run of such calls: counts exact, names distinct, an inode bit clear exactly when nothing names the inode |
| MinixNames.CreateNames | src/fs/minix/minix.c:686-758 | exactly the new name changes its meaning |
| MinixNames.MkdirNames | src/fs/minix/minix.c:776-850 | likewise, and the new directory has "." and ".." |
| MinixNames.LinkNames | src/fs/minix/minix.c:982-1048 | the new name stands for the inode of the old one |
| MinixNames.UnlinkNames | src/fs/minix/minix.c:1051-1113 | exactly that name is gone |
| MinixNames.RmdirNames | src/fs/minix/minix.c:899-979 | exactly that name is gone, and the directory |
| MinixOutcomes.AllocWhen | src/fs/minix/minix.c:89-113 | an inode can be had exactly when one is free |
| MinixOutcomes.CreateOutcome | src/fs/minix/minix.c:686-758 | with room for it a name is created exactly if it is not there; EEXIST otherwise; the new inode is of the kind asked for |
| MinixOutcomes.MkdirOutcome | src/fs/minix/minix.c:776-850 | the same for a directory |
| MinixOutcomes.UnlinkOutcome | src/fs/minix/minix.c:1051-1113 | a name is removed exactly if it is there and is no directory; ENOENT and EPERM exactly in the other two cases |
| MinixOutcomes.LinkOutcome | src/fs/minix/minix.c:982-1048 | a link is made exactly if the old name is there and is no directory and the new one is not there; which of ENOENT, EPERM and EEXIST otherwise |
| MinixOutcomes.RmdirOutcome | src/fs/minix/minix.c:899-979 | a directory is removed exactly if it is there, empty, not in use and not the one it is looked up in; which of four errors otherwise |
| MinixNamespace.Directories.FindEntry | src/fs/minix/minix.c:596-632 | the first live entry with the name |
| MinixNamespace.Directories.AddEntry | src/fs/minix/minix.c:635-684 | the first free entry, or one more at the end |
| MinixNamespace.Directories.IallocBit | src/fs/minix/minix.c:89-113 | the first clear bit of the inode map is set |
| MinixNamespace.Directories.IfreeBit | src/fs/minix/minix.c:116-142 | the bit is cleared; its assertion is the precondition |
| MinixNamespace.Directories.CreateNode | src/fs/minix/minix.c:686-758 | minix_open with O_CREAT and minix_mknod |
| MinixNamespace.Directories.MakeDir | src/fs/minix/minix.c:776-850 | minix_mkdir |
| MinixNamespace.Directories.Empty | src/fs/minix/minix.c:853-896 | the counting loop of is_empty |
| MinixNamespace.Directories.RemoveDir | src/fs/minix/minix.c:899-979 | minix_rmdir with all its refusals |
| MinixNamespace.Directories.HardLink | src/fs/minix/minix.c:982-1048 | minix_link with all its refusals |
| MinixNamespace.Directories.Remove | src/fs/minix/minix.c:1051-1113 | minix_unlink with all its refusals |
| BufferRun.LocateFinds | src/kernel/buffer.c:37-65 | the hash table finds the buffer of a block exactly when there is one |
| BufferRun.AllocKeeps | src/kernel/buffer.c:88-113 | a page of buffers keeps the invariant and the limit of 4096 |
| BufferRun.AvailableWhen | src/kernel/buffer.c:116-144 | a buffer can be had without waiting exactly when not all 4096 are held |
| BufferRun.MissKeeps | src/kernel/buffer.c:116-165 | a new block takes a free or an idle buffer; at most one buffer for a block |
| BufferAge.RunKeepsOrder | src/kernel/buffer.c:240-264 | in every run the idle list is in the order in which the buffers were given back |
| BufferAge.OldestIsTaken | src/kernel/buffer.c:116-144 | in every run a miss takes a free buffer while there is one or fewer than 4096 were made, and else the idle one given back longest ago |
| BufferRun.BreadRefines | src/kernel/buffer.c:168-212 | bread returns the block asked for with what its users see, or else what was last given back; a failed read leaves no trace |
| BufferRun.ModifyRefines | src/kernel/buffer.c:266-269 | a change by one holder is what all holders see |
| BufferRun.FlushRefines | src/kernel/buffer.c:215-237 | bwrite makes the device agree |
| BufferRun.ReleaseRefines | src/kernel/buffer.c:240-264 | brelse writes what is dirty and gives up one hold |
| BufferRun.ResumeRefines | src/kernel/buffer.c:132-165 | what a task does after a wait for a buffer is a read of the plain disk if and only if its block got no other buffer meanwhile; if it did, the block now has two |
| BufferRun.RunRefines | src/kernel/buffer.c:116-264 | every run, waiting tasks included, in which no task goes on after a wait while its block has another buffer refines a plain disk; free, idle and held exclude each other, idle is clean, counts are holders |
| BufferRun.DoRefines | src/kernel/buffer.c:116-264 | a step refines one of the plain disk if and only if it is not such a one |
| BufferRun.TwoBuffers | src/kernel/buffer.c:132-144 | a run from the empty cache in which two tasks wait for one block, and each gets a buffer of its own for it |
| BufferRun.EmptyRefines | src/kernel/buffer.c:271-297 | the empty cache refines the disk |
| BufferCache.Descriptor.GetFromHashTable | src/kernel/buffer.c:37-65 | the search of one chain, and the removal from the idle list |
| BufferCache.Descriptor.BufferAlloc | src/kernel/buffer.c:88-113 | the loop that cuts up a page |
| BufferCache.Descriptor.GetFreeBuffer | src/kernel/buffer.c:116-144 | free before idle, oldest first |
| BufferCache.Descriptor.GetBlock | src/kernel/buffer.c:147-165 | getblk, hit and miss |
| BufferCache.Descriptor.GetBlockWoken | src/kernel/buffer.c:139-165 | getblk from where a task that waited goes on |
| BufferCache.Descriptor.ReadBlock | src/kernel/buffer.c:168-212 | bread with its rollback |
| BufferCache.Descriptor.WriteBuffer | src/kernel/buffer.c:215-237 | bwrite |
| BufferCache.Descriptor.Release_ | src/kernel/buffer.c:240-264 | brelse |
| Heap.BlockInPage | src/kernel/arena.c:28-39 | a block lies behind the header, within its page, and masking its address finds the header |
| Heap.BlocksApart | src/kernel/arena.c:28-34 | blocks of a page do not overlap |
| Heap.LiveApart | src/kernel/arena.c:41-104 | live allocations are disjoint and clear of all headers |
| Heap.NoPages | src/lib/stdlib.c:44-47 | for which sizes both sums in 32 bits come to no pages at all |
| HeapRun.KmallocKeeps | src/kernel/arena.c:41-104 | a kmalloc that returns gives room enough and disturbs nothing if and only if the size with the header fits 32 bits |
| HeapRun.TooLittle | src/kernel/arena.c:50-51 | an empty heap that gives one page for 2^32 - 1 bytes |
| HeapRun.FullCount | src/kernel/arena.c:122-125 | the count of a page is full exactly when nothing in it is live |
| HeapRun.KfreeKeeps | src/kernel/arena.c:106-139 | kfree takes back one allocation; a page leaves only when wholly free; no class shrinks below its reserve |
| HeapRun.RunKeeps | src/kernel/arena.c:41-139 | any run of kmalloc and kfree; free lists are exactly the blocks not live |
| HeapRun.EmptyHeap | src/kernel/arena.c:13-25 | the initial descriptors |
| HeapPages.FindPagesIs | src/kernel/memory.c:355-391 | a run of unmarked pages is found exactly if there is one, and it is the lowest |
| HeapPages.KmallocWhen | src/kernel/arena.c:41-104 | kmalloc succeeds exactly when a block of the smallest class that fits is free or a page is; above 1024 bytes, when there are pages enough in a row |
| HeapPages.KmallocSmall | src/kernel/arena.c:64-103 | the block is one of the smallest that fit; a page is taken exactly if no such block was free, and the block is in it |
| HeapPages.KmallocLarge | src/kernel/arena.c:48-62 | whole pages, the lowest that will do, and no more than the size and the header need |
| HeapPages.KfreePages | src/kernel/arena.c:106-139 | pages leave the heap and are unmarked exactly if the allocation was a large one, or the last live one of its page and its class has more than 4 pages; all pages of a large one; no others |
| KernelHeap.Arenas.AllocPages | src/kernel/memory.c:355-391 | the least run of free kernel pages is marked |
| KernelHeap.Arenas.FreePages | src/kernel/memory.c:371-400 | the pages are unmarked; the assertion on each bit is the precondition |
| KernelHeap.Arenas.AddPage | src/kernel/arena.c:73-92 | a page cut into blocks that are pushed one by one |
| KernelHeap.Arenas.MallocPages | src/kernel/arena.c:48-62 | the large branch of kmalloc |
| KernelHeap.Arenas.Take | src/kernel/arena.c:94-103 | the head of the free list, and the count in the header |
| KernelHeap.Arenas.Malloc | src/kernel/arena.c:41-104 | kmalloc |
| KernelHeap.Arenas.ReleasePage | src/kernel/arena.c:125-138 | all blocks leave the free list, the page the heap |
| KernelHeap.Arenas.Free | src/kernel/arena.c:106-139 | kfree |
| Elevator.NextExists | src/kernel/device.c:138-167 | there is a next request exactly when another remains |
| Elevator.ServedIs | src/kernel/device.c:138-167 | the closed form of the service order |
| Elevator.TwoSweeps | src/kernel/device.c:138-221 | n requests in n completions: one sweep in the current direction, one back, in the order of the C int keys |
| Elevator.QueueIsBySector | src/lib/list.c:115-135 | that is the order of the sectors exactly when no two requests lie on opposite sides of sector 2^31 |
| Elevator.CompleteKeeps | src/kernel/device.c:210-221 | a completion wakes another exactly when one remains; it was blocked and its task recorded |
| Elevator.RunKeeps | src/kernel/device.c:170-224 | for any number of requesters and any schedule exactly one is granted while there are requests |
| Elevator.SomeoneCanMove | src/kernel/device.c:170-224 | while there are requests somebody can go on |
| Elevator.ArriveIs | src/kernel/device.c:181-208 | a request joins the others for the sector asked for, and its task waits exactly if it is not the only one |
| ElevatorRun.RunServes | src/kernel/device.c:138-224 | in every run in which nobody else comes, under any schedule, the requests are finished in the order of the two sweeps, each in at most two steps, until none is left |
| Elevator.BlockDevice.Submit | src/kernel/device.c:181-208 | sorted insertion; blocks unless the queue was empty |
| Elevator.BlockDevice.Finish | src/kernel/device.c:138-167 | direction, next request, removal |
| Lock.ReleaseKeeps | src/kernel/mutex.c:91-106 | the assertions of lock_release and mutex_unlock hold; the one woken was waiting |
| Lock.MutualExclusion | src/kernel/mutex.c:14-106 | at most one inside; repeat is its unmatched acquires; a free mutex with waiters has one woken |
| Lock.SomeoneCanMove | src/kernel/mutex.c:14-106 | while somebody waits somebody can release or take |
| Lock.LongestIsWoken | src/kernel/mutex.c:39-63 | in every run the task woken is the one that waits longest |
| Lock.WokenIsNext | src/kernel/mutex.c:50-59 | the task woken is the next holder exactly when its own look at the mutex is the next operation on it |
| Lock.Starves | src/kernel/mutex.c:52-59 | a task can be woken any number of times and never get the mutex |
| Lock.ReentrantLock.TryLock | src/kernel/mutex.c:14-36 | one turn of the loop of mutex_lock |
| Lock.ReentrantLock.AcquireLock | src/kernel/mutex.c:74-88 | lock_acquire |
| Lock.ReentrantLock.ReleaseLock | src/kernel/mutex.c:91-106 | lock_release |
| Fifo.WindowPut | src/lib/fifo.c:36-44 | putting a byte in front of the head appends to the contents, round the end too |
| Fifo.WindowGet | src/lib/fifo.c:28-34 | getting takes the first of the contents |
| Fifo.PutIs | src/lib/fifo.c:36-44 | the oldest byte is dropped exactly if the buffer is full, and the new one comes last |
| Fifo.Ring.constructor | src/lib/fifo.c:9-15 | empty |
| Fifo.Ring.Full | src/lib/fifo.c:17-21 | one place stays empty |
| Fifo.Ring.Empty | src/lib/fifo.c:23-26 | no contents |
| Fifo.Ring.GetByte | src/lib/fifo.c:28-34 | the oldest byte |
| Fifo.Ring.PutByte | src/lib/fifo.c:36-44 | appended; the oldest dropped if full |
| Pipe.NextKeeps | src/fs/pipe/pipe.c:50-92 | no turn drops a byte or takes one that is not there |
| Pipe.PrefixAndProgress | src/fs/pipe/pipe.c:50-92 | in every run what was read is a prefix of what was written; reader and writer are never both blocked |
| Pipe.PartnerCanMove | src/fs/pipe/pipe.c:50-92 | a blocked side has a partner that can go on |
| Pipe.ReadTurnIs | src/fs/pipe/pipe.c:58-69 | a turn of pipe_read takes the oldest byte exactly if one is wanted and there is one, and a blocked writer can go on |
| Pipe.WriteTurnIs | src/fs/pipe/pipe.c:80-91 | a turn of pipe_write adds the next byte exactly if there is room, and a blocked reader can go on |
| Pipe.CallsAreServed | src/fs/pipe/pipe.c:50-92 | in every run the bytes given to pipe_write are those written and those it still has, and pipe_read has read what it was asked for less what it still wants; each returns only when nothing is left |
| Pipe.AtRest | src/fs/pipe/pipe.c:50-92 | when neither side can go on the reader has all that was given, or all it wants, whichever is less |
| Pipe.TurnsEnd | src/fs/pipe/pipe.c:50-92 | under any schedule the turns come to an end, after at most three for each byte and one for each side |
| Pipe.PipeInode.ReadByte | src/fs/pipe/pipe.c:62-67 | one byte out, the writer woken |
| Pipe.PipeInode.WriteByte | src/fs/pipe/pipe.c:84-89 | one byte in, the reader woken |
| Pipe.PipeInode.Drain | src/fs/pipe/pipe.c:50-70 | the loop of pipe_read up to where it blocks |
| Pipe.PipeInode.Fill | src/fs/pipe/pipe.c:72-92 | the loop of pipe_write up to where it blocks |
| Timers.BlockKeeps | src/kernel/task.c:120-149 | blocking with a timeout; the assertion that there is none yet holds |
| TimerEffects.BlockIs | src/kernel/task.c:120-149 | the task waits, and exactly one timer more is pending if it has a timeout, for that time from now modulo 2^32 |
| Timers.UnblockKeeps | src/kernel/task.c:152-176 | a pending timeout is released once, and no other timer goes |
| TimerEffects.KillIs | src/kernel/signal.c:77-96 | a signal wakes the task exactly if it sleeps and lets it through, and cancels exactly its timeout |
| Timers.PutKeeps | src/kernel/timer.c:24-28 | a timer leaves the list, is released once and is no longer pending; the others stay in order |
| Timers.UpdateKeeps | src/kernel/timer.c:50-55 | the list stays sorted by its C int key, the timer stays the same one |
| Timers.RemoveIs | src/kernel/timer.c:86-97 | exactly the timers of one task go |
| Timers.SetAlarmKeeps | src/kernel/alarm.c:12-20 | the alarm the task points to is cancelled: the invariant, and exactly the new one is pending |
| Timers.MotorOffKeeps | src/kernel/floppy.c:254-269 | the motor has one timer, made or moved; the invariant |
| Timers.ForkKeeps | src/kernel/task.c:387-405 | the copied task keeps the invariant if and only if its parent has no alarm |
| Timers.ExitKeeps | src/kernel/task.c:498-514 | the timers of the task go; the invariant if and only if the timer of the motor is not among them |
| TimerEffects.ExitIs | src/kernel/task.c:498-514 | the task is dead, its timers are released, each once, and no other task changes |
| TimerEffects.ForkIs | src/kernel/task.c:387-405 | the child is a copy of the parent, and nothing else changes |
| Timers.ListIsInOrder | src/lib/list.c:115-135 | the list is in the order of expiry exactly when no two timers expire on opposite sides of 2^31 |
| Timers.WakeupFires | src/kernel/timer.c:99-117 | ends; timers are fired from the front of the list until the first is not due; only a timeout cancelled by an alarm goes unfired |
| Timers.WakeupFiresAllDue | src/kernel/timer.c:99-117 | unless a timer of the upper half stands before a due one of the lower half, all that is due fires, in order of expiry, and none due remains |
| Timers.CrossedIsLate | src/kernel/timer.c:99-117 | with no alarm due that is exactly the condition |
| Timers.LateTimer | src/lib/list.c:119-122 | two timers of which the one that is due is not fired |
| Timers.DueAtOnce | src/kernel/timer.c:68-71 | a timer is due when it is made exactly if it is for no time or passes 2^32 |
| Timers.LoopEnds | src/kernel/timer.c:57-65 | the condition of the loop is false when the list is done, except exactly at tick 2^32 - 1 |
| Timers.RunOnTime | src/kernel/timer.c:99-117 | in every run in which nothing ends at 2^31 or later every tick fires what is due, in order |
| TimerEffects.WakeupWakes | src/kernel/timer.c:99-117 | a tick wakes exactly the tasks whose timeout fired, and the sleeping ones whose alarm fired and whom signals reach |
| TimerEffects.TimeoutEnds | src/kernel/timer.c:99-117 | a timeout that comes due ends the wait |
| TimerClock.WakesOnTime | src/kernel/timer.c:99-117 | in every such run a task blocked with a timeout and not unblocked by another waits until as many ticks have passed, or one if it asked for none, and the last of them wakes it |
| Timers.NextKeeps | src/kernel/timer.c:24-117 | each event keeps the invariant if and only if it is no fork with an alarm set and no exit of the task whose timer is to stop the motor |
| Timers.RunKeeps | src/kernel/timer.c:24-117 | in every run of such events that does not come to tick 2^32 - 1, with alarms, signals, forks, exits and the motor of the drive: sorted by key; a timeout only while blocked with it; each pointer to a timer leads to a pending one of its owner, and each pending timer has one pointer; every timer pending or released once |
| Timers.FirstUnsafe | src/kernel/timer.c:24-117 | and the first other event of a run breaks this |
| Timers.FreedTwice | src/kernel/task.c:395-404 | alarm, fork, alarm of the child, alarm of the parent: one timer is freed twice |
| Timers.MotorRuns | src/kernel/task.c:498-514 | a task exits before the motor of the drive stops: the timer is gone and the drive points to it |
| Timers.StartOk | src/kernel/timer.c:79-83 | the initial state |
| TimerList.Kernel.TimerAdd | src/kernel/timer.c:36-47 | timer_add |
| TimerList.Kernel.TimerUpdate | src/kernel/timer.c:50-55 | timer_update |
| TimerList.Kernel.TimerRemove | src/kernel/timer.c:86-97 | the loop of timer_remove |
| TimerList.Kernel.SysAlarm | src/kernel/alarm.c:12-20 | sys_alarm, which follows task->alarm |
| TimerList.Kernel.FdMotorOff | src/kernel/floppy.c:254-269 | fd_motor_off, which follows fd->timer |
| TimerList.Kernel.SysKill | src/kernel/signal.c:77-96 | sys_kill as far as timers go |
| TimerList.Kernel.TimerExpires | src/kernel/timer.c:57-65 | the first expiry, or 2^32 - 1 for an empty list |
| TimerList.Kernel.TaskFork | src/kernel/task.c:395-404 | the copy of the PCB |
| TimerList.Kernel.TaskExit | src/kernel/task.c:498-514 | task_exit as far as timers go |
| TimerList.Kernel.TaskBlock | src/kernel/task.c:120-149 | task_block of the running task |
| TimerList.Kernel.TaskUnblock | src/kernel/task.c:152-176 | task_unblock, which leaves an active timer to timer_wakeup |
| TimerList.Kernel.FireOne | src/kernel/timer.c:103-115 | one expired timer |
| TimerList.Kernel.TimerWakeup | src/kernel/timer.c:99-117 | the loop of timer_wakeup |
| Checksum.OnesSumIs | src/net/chksum.c:24-42 | the one's-complement sum is the number congruent modulo 65535 that is 0 only for 0 |
| Checksum.CarrySumIs | src/net/chksum.c:24-42 | it is what adding the words one by one with end-around carry gives |
| Checksum.Chksum | src/net/chksum.c:24-42 | the loops compute it, for odd lengths too, and the 32-bit accumulator never overflows |
| Checksum.IpChksum | src/net/chksum.c:44-48 | its complement |
| Checksum.InetChksum | src/net/chksum.c:50-69 | over the pseudo-header too |
| Checksum.VerifiesAfterInsert | src/net/tcp_output.c:37-39 | the value put into the empty field makes recomputation give 0 |
| Checksum.SeesOneWord | src/net/tcp_input.c:449-451 | a change of one word goes unseen exactly when it turns 0 into 65535 or back and not all else is zero |
| LinkedList.List.constructor | src/lib/list.c:6-12 | two sentinels linked to each other |
| LinkedList.List.InsertBefore | src/lib/list.c:15-22 | relinks four fields; the chain is whole again with the node in front of the anchor |
| LinkedList.List.InsertAfter | src/lib/list.c:25-32 | behind the anchor |
| LinkedList.List.Push | src/lib/list.c:35-39 | at the front |
| LinkedList.List.Pushback | src/lib/list.c:53-57 | at the end |
| LinkedList.List.Remove | src/lib/list.c:84-93 | the neighbours are linked, the node is loose |
| LinkedList.List.Pop | src/lib/list.c:42-50 | the first element |
| LinkedList.List.Popback | src/lib/list.c:60-68 | the last element |
| LinkedList.List.Empty | src/lib/list.c:96-99 | no elements |
| LinkedList.List.Search | src/lib/list.c:71-81 | whether the node is an element |
| LinkedList.List.Size | src/lib/list.c:102-112 | the number of elements |
| LinkedList.List.InsertSort | src/lib/list.c:115-135 | in front of the first element with a greater key |
| Lists.InsertBySorts | src/lib/list.c:115-135 | a sorted list stays sorted |
| Lists.InsertByAt | src/lib/list.c:115-135 | where the element goes: after all with keys not greater; the others keep their order |

## Left out

- TcpConnection.Safety: segments that carry SYN, FIN or RST, options, congestion and round-trip estimation are not modelled; the windows used for sending are arbitrary parameters, and a read that has to wait is no event.
- TcpDelivery.EverythingCanArrive: segments of at most 8192 bytes (the window) and 536 numbers left below 2^31 are preconditions; that the windows for sending are large enough and that the timers of the code fire is a choice of the continuation, so it is not liveness under the code's own congestion window.
- TcpPcb.ControlBlock.Enqueue: the segment size is fixed within a run; a size that shrinks while a buffer is being filled makes the code count backwards.
- MinixDisk.Disk.Bmap: with create, a zone that becomes indirect reads as no zones, as a precondition; what happens on another disk is MinixMap.EnsureExact and MinixZones.StaleZone.
- MinixDisk.Disk.Write: the same, and the disk has zones enough, as a precondition; what the code does on a full disk (zone number 65535) is not modelled.
- MinixNamespace.Directories.FindEntry: the entries of a directory are a sequence, not bytes in its zones; names are compared whole, which is what match_name does for names of at most 13 characters without separators.
- MinixNamespace.Directories.AddEntry: for the same reason a new entry takes no zone.
- MinixNamespace.Directories.CreateNode: opening a file that exists, O_TRUNC and permissions are left out.
- MinixNamespace.Directories.MakeDir: the zone for the two dot entries, permissions, timestamps and the inode cache are left out.
- MinixNamespace.Directories.RemoveDir: truncation only empties the entries; permissions and the sticky bit are left out; that the directory is in use elsewhere is a parameter.
- MinixNamespace.Directories.Remove: the truncation of the zones of the file and the sticky bit are left out.
- BufferRun.RunRefines: device writes succeed, and what a task does between two waits for a buffer is one step; that a read of the device may block with the buffer locked is left out.
- KernelHeap.Arenas.Malloc: pages enough are a precondition, where the kernel panics.
- HeapRun.RunKeeps: the contents of blocks are not modelled, so neither is the use of freed blocks as list nodes.
- Elevator.RunKeeps: nobody but a completing request wakes a waiting one.
- Lock.MutualExclusion: the count of acquires is unbounded.
- Timers.RunKeeps: whom sys_kill lets a signal through to is a fixed property of the task; task_block is called by the running task for itself; there is one floppy drive; a dead task is not reaped and its slot not used again.
- TimerList.Kernel.TimerWakeup: tick 2^32 - 1 is a precondition, because the loop then goes on behind the list, as Timers.LoopEnds says.
- TimerList.Kernel.FdMotorOff: that the drive does not point to a freed timer is a precondition; when it does is Timers.ExitKeeps.
- Shared and read-only mappings, mmap and munmap flags, the TLB, and kernel writes to user pages: the claim is about private pages.
- The path walk, abspath, mounts, minix_mkfs, ISO 9660, devices as files.
- Drivers, port I/O, assembly, boot code, ARP, DHCP, DNS, UDP, sockets, and the builtin programs.
- task_search and its priorities, signals beyond waking a sleeping task, lazy FPU switching, calendar code: there is no intended specification to compare them with.
- The Ethernet frame check sequence in chksum.c.
