# A verified model of the allocators, the thread library and the file system

The repository holds three programs that keep their own data structures in raw memory: a first-fit
allocator (`MallocStuff/mymalloc.c`), a user-level thread library with a five-level scheduler, its
own heap and a pager (`my_pthread/my_pthread.c`), and a FUSE file system on a block device
(`assignment3/src/sfs.c`). This project models each of them twice. A pure module states what the
state means and what every operation does to it, and proves what holds over whole runs. A class works
on the program's own representation (header bytes, packed words, `next` links, bitmap bits, a one-block
write buffer) step by step, and each of its methods is proved to do to the meaning what the pure
module says.

| component | meaning and run theorems | representation and operations |
|---|---|---|
| `mymalloc.c` | `BlockList` | `LinkedBlocks`, `MyMalloc` (class `Arena`, 16-byte headers in a byte array) |
| library heap of `my_pthread.c` | `BlockList` | `Bits`, `LibraryHeap` (class `Library`, 4-byte packed words) |
| pager of `my_pthread.c` | `PageTable` | `Bits`, `Pager` (class `Pager`, packed page-table words, frames, swap) |
| scheduler of `my_pthread.c` | `RunQueues`, `Dispatch`, `Calls`, `Reversal` | `NodeLinks`, `Scheduler` (class `Scheduler`, intrusive queues) |
| `sfs.c` | `Files`, `Writes`, `Beyond`, `FileRuns` | `SfsLayout`, `Sfs` (class `Disk`, blocks of bytes) |

`Bytes` holds little-endian integers in byte sequences. `dafny verify dfyconfig.toml` checks everything.

## What holds, and what does not

The main results, each over every input or every run:

- A heap with no two adjacent free blocks is determined by its live blocks (`Canonical`). So releasing
  everything in any order gives back the single free block, and releasing what was just allocated gives
  back the very same block list.
- Whatever the other threads do and wherever its pages are moved, the bytes a thread reaches through a
  page change only by its own writes (`RunIsolated`); a frame open to access is free or the running
  thread's.
- Over every run of create, yield, timer expiry, join, exit and return, each living thread is in exactly
  one place, with the priority of its queue (`ExactlyOnePlace`, `QuantumInRange`); a waiter leaves the
  join list only by the death of the thread it waits for (`ReleasedByDeath`).
- Over every run of creates that succeed, writes that succeed and start within their file, and removals
  of removable files, the disk stands for what the same calls make of a directory of names and bytes
  (`RunRefines`); `Sfs.Disk.Replay` carries such a run out on the disk's bytes. A write that starts within
  its file fails for lack of room if and only if fewer blocks are free than it needs (`PourRoom`).
- After every run, the next call of `schedule` redistributes the queues if and only if it is the 101st since
  the start or since the last time (`EveryHundredAndFirst`).
- A formatted disk that is mounted again, after any such run of calls, is not formatted anew and stands for
  the same directory (`Sfs.Disk.Remount`).

Where the code does not do what its comments or a reader would expect, the code is modelled as it is,
with the exact condition under which the expectation holds and, where it is about a reachable state, a
run that violates it:

- `mymalloc(0)` can return the address one past the arena, which `myfree` rejects: the round trip holds
  if and only if the request is not zero bytes served by an empty last block (`MallocThenFree`,
  `ZeroBytesPastTheEnd`).
- The thread id is shifted into a page-table word unmasked: the word reads back right if and only if the
  id is below 256 (`PageWordRoundTrip`).
- A thread that returns from a join keeps the status JOINING. It is put back on the join list, waiting for
  a dead thread, exactly when its quantum runs out before it yields, joins or exits (`StrandedIff`,
  `JoinerCanBeStranded`).
- `maintenance` deals the longest-running threads to the lowest of the target levels, the reverse of the
  comment above it (`my_pthread/my_pthread.c:498-503`): of two threads of a level, the one that has run
  longer never ends on a better level (`OldestLast`). The comment's order, no thread worse placed than a
  younger one, holds if and only if the level holds too few threads to be parted or they are all equally
  old (`OldestBestIff`); in a run of 103 calls maintenance promotes the youngest of three threads and leaves
  the oldest on level 1 (`YoungerPromoted`).
- The first-allocation branch adds a page with the thread's next page number in frame 0. Frame 0 then
  holds the thread's page 0 if and only if it did before, or the thread had no page; a thread whose page 0
  was moved out gets page 1 there (`FirstPageIff`, `FirstPageMisplaced`).
- A thread's exit frees its RAM frames only: its swap slots stay in use over every later run (`ExitFrees`,
  `AbandonedForever`).
- `sfs_unlink` frees one slot more than the file owns: it stays within the record and the bitmap's block
  and leaves the file system sound if and only if that slot is in the record, names a bit of that block,
  and does not name another file's block (`UnlinkedIff`; `UnlinkCanBreak`, `UnlinkCanLeave`).
- `sfs_write` beyond the end of a file lengthens it by the bytes written only, so it never has the right
  size, because the loop that should fill the hole is off by one and leaves the size (`WriteBeyond`). It
  follows slots the file does not own as it finds them. When it succeeds is stated exactly (`BeyondIff`).
  Another file's bytes are as they were, whatever the bytes written, if and only if no such slot leads to
  one of them (`SparesIff`); the file system is sound afterwards if and only if each such slot that becomes
  the file's own names a used block that is nobody's (`SoundIff`), which is so where the size fills no
  block. On a blank disk such a write can overwrite another file (`WriteCanClobber`) and can take its
  block over (`WriteCanTakeOver`).
- `sfs_read` returns as many bytes as were asked for, also past the end of the file, where they are those
  the next slots lead to; those within the file are right (`Sfs.Disk.Read`).
- `sfs_create` with no free block leaves the inode marked used (`Sfs.Disk.Create`, result `NoBlock`), and
  reports success when no inode is free.

## Model

| member | source | states |
|---|---|---|
| `BlockList.FirstFitIs` | MallocStuff/mymalloc.c:115-160 | a scan that stops at the first block of size n, or of at least n plus a header, has found the abstract first fit |
| `BlockList.TakeKeepsHeap` | MallocStuff/mymalloc.c:119-148 | allocation keeps the blocks tiling the arena, in order, with no two adjacent free blocks |
| `BlockList.FreeKeepsHeap` | MallocStuff/mymalloc.c:59-95 | release with merging on both sides keeps the tiling and leaves no two adjacent free blocks |
| `BlockList.Layout` | MallocStuff/mymalloc.c:8-17 | headers and payloads of different blocks never overlap and all lie in the arena |
| `BlockList.TakeLive` | MallocStuff/mymalloc.c:119-148 | allocation adds exactly the returned block to the live ones |
| `BlockList.FreeLive` | MallocStuff/mymalloc.c:59-95 | release removes exactly the released block from the live ones |
| `BlockList.Canonical` | MallocStuff/mymalloc.c:59-95 | two well-formed heaps with the same live blocks are equal |
| `BlockList.TakeThenFree` | MallocStuff/mymalloc.c:59-95 | releasing the block just taken restores the block list, on the exact-fit and on the split path |
| `BlockList.AllocateThenRelease` | MallocStuff/mymalloc.c:108-185 | for every heap, a served request followed by release of the returned address restores the heap, which the request did change |
| `BlockList.RunKeepsHeap` | MallocStuff/mymalloc.c:108-185 | every run of requests and releases, valid or not, keeps the heap well formed |
| `BlockList.DrainedIsFresh` | MallocStuff/mymalloc.c:59-95 | after any run, a heap with nothing live is the initial heap |
| `BlockList.ReleasesLive` | MallocStuff/mymalloc.c:59-95 | releasing some live blocks in some order removes exactly those |
| `BlockList.ReleaseAllInAnyOrder` | MallocStuff/mymalloc.c:59-95 | releasing every live block, in any order, restores the single free block |
| `MyMalloc.FreeAllIff` | MallocStuff/mymalloc.c:167-185 | calling myfree on every live payload, in any order, restores the single free block if and only if no live empty block sits at the end of the arena |
| `LinkedBlocks.LinkTakeSplit` | MallocStuff/mymalloc.c:135-149 | two headers written in sequence, the second inside the block being split, link the split block list |
| `LinkedBlocks.LinkFree` | MallocStuff/mymalloc.c:66-88 | rewriting the header of the fused run, and none of those it absorbs, links the merged block list |
| `MyMalloc.Arena.InitializeRoot` | MallocStuff/mymalloc.c:28-34 | the first request finds one free block of 4984 bytes |
| `MyMalloc.Arena.MyMalloc` | MallocStuff/mymalloc.c:108-161 | for every size_t request, also where adding the header size wraps: returns the payload of the first fit and splits or takes that block, or returns NULL and leaves the heap, exactly when nothing fits; all live payloads keep their bytes |
| `MyMalloc.Arena.FreeAndMerge` | MallocStuff/mymalloc.c:59-95 | finds the block if and only if it is live there, and performs the abstract release; every other live payload keeps its bytes |
| `MyMalloc.Arena.MyFree` | MallocStuff/mymalloc.c:167-185 | for every pointer: frees if and only if it is inside the arena and the payload of a live block, and otherwise changes no byte |
| `MyMalloc.Arena.ClientWrite` | MallocStuff/mymalloc.c:20-20 | bytes written inside a live payload change no header and no block |
| `MyMalloc.MallocThenFree` | MallocStuff/mymalloc.c:45-47 | the round trip restores the heap if and only if the request is not zero bytes served by an empty block at the end |
| `MyMalloc.ZeroBytesPastTheEnd` | MallocStuff/mymalloc.c:45-47 | a run that returns the address one past the end, which is then not freed |
| `Bits.BlockWordRoundTrip` | my_pthread/my_pthread.c:110-138 | setting the three fields of a block word over any garbage gives a word with exactly those fields |
| `Bits.PageWordRoundTrip` | my_pthread/my_pthread.c:149-189 | a page-table word set up over any garbage reads back if and only if the thread id is below 256 |
| `Bits.SetPageIsFFields` | my_pthread/my_pthread.c:177-189 | marking a page-table word free or used changes neither page number nor thread id |
| `LibraryHeap.Marked` | my_pthread/my_pthread.c:130-138 | changing the free mark of a header word changes size and isNext not at all |
| `LibraryHeap.Resized` | my_pthread/my_pthread.c:110-147 | changing size and isNext keeps the mark and moves the next block with the size |
| `LibraryHeap.Library.constructor` | my_pthread/my_pthread.c:1040-1047 | over any memory contents, the decoded heap is one free block covering the region |
| `LibraryHeap.Library.Allocate` | my_pthread/my_pthread.c:1477-1537 | on the decoded list, for every size_t request: the abstract first-fit request, NULL exactly when nothing fits, and all live payloads keep their bytes |
| `LibraryHeap.Library.FreeAndMerge` | my_pthread/my_pthread.c:1293-1347 | on the decoded list: the abstract release, found if and only if the block is live there |
| `LibraryHeap.Library.Deallocate` | my_pthread/my_pthread.c:1697-1738 | for every pointer: frees if and only if it is the payload of a live block, and otherwise changes no byte |
| `LibraryHeap.Library.ClientWrite` | my_pthread/my_pthread.c:1477-1537 | bytes written inside a live payload change no header and no block |
| `LibraryHeap.AllocateThenDeallocate` | my_pthread/my_pthread.c:1697-1738 | the round trip restores the heap for every request that is served |
| `PageTable.SwapKeeps` | my_pthread/my_pthread.c:915-985 | exchanging two slots keeps the page invariant and every page's contents |
| `PageTable.AddKeepsPages` | my_pthread/my_pthread.c:1050-1180 | moving a page out of a frame and setting the frame up as a new page, as one step, keeps the invariant and every existing page's contents |
| `PageTable.PagesFit` | my_pthread/my_pthread.c:149-161 | no thread ever has more pages than there are slots, so page numbers fit their 16 bits |
| `PageTable.FaultFound` | my_pthread/my_pthread.c:1219-1262 | the fault handler finds a slot if and only if the running thread owns the page, and then the page's slot |
| `PageTable.FaultServed` | my_pthread/my_pthread.c:1219-1262 | for a page the running thread owns: afterwards the page is in the frame of its own number, open, with its old contents, and all other pages keep theirs |
| `PageTable.FaultIs` | my_pthread/my_pthread.c:1219-1262 | a served fault exchanges two slots, or none, opens the page's frame and closes the one the other page went to, and nothing else |
| `PageTable.InitPageIs` | my_pthread/my_pthread.c:1050-1078 | page 0 of a thread gets the header of one free block covering the rest of the page, whose other bytes stay; any other page is left as it is |
| `PageTable.AddPageIs` | my_pthread/my_pthread.c:1050-1180 | which slot moves where, which frames are open and which closed when a page is added, and page 0's header |
| `PageTable.SwitchOpen` | my_pthread/my_pthread.c:559-566 | exactly the open frames that carry the outgoing thread are closed |
| `PageTable.ExitIs` | my_pthread/my_pthread.c:569-579 | exactly the frames that carry the exiting thread become free and are closed in the end |
| `PageTable.SwitchKeeps` | my_pthread/my_pthread.c:559-566 | closing the outgoing thread's frames keeps the invariant for the incoming thread |
| `PageTable.ExitKeeps` | my_pthread/my_pthread.c:569-579 | a thread's exit frees its frames and leaves every other thread's pages and contents |
| `PageTable.WriteIsolated` | my_pthread/my_pthread.c:559-566 | a write through an open frame changes at most a page of the running thread |
| `PageTable.StepKeeps` | my_pthread/my_pthread.c:915-1262 | every page step keeps uniqueness, completeness and protection, loses no page but the exiting thread's, and alters none but by its owner's write |
| `PageTable.RunIsolated` | my_pthread/my_pthread.c:915-1262 | over every run, a page of a thread that neither writes nor exits stays and keeps its contents |
| `PageTable.InitialInv` | my_pthread/my_pthread.c:1392-1406 | the tables as set up by the first allocation satisfy the invariant |
| `PageTable.FirstPageIff` | my_pthread/my_pthread.c:1551-1563 | wherever frame 0 is the running thread's already or some slot is free: after the first-allocation branch, frame 0 holds the running thread's page 0 if and only if it did before, or it held another thread's entry and the thread had no page |
| `PageTable.FirstPageMisplaced` | my_pthread/my_pthread.c:1551-1563 | with any number of frames from three on and any swap, a run from the initial tables in which frame 0 gets page 1 of the running thread while its page 0 is elsewhere |
| `PageTable.ExitFrees` | my_pthread/my_pthread.c:569-579 | an exit raises the number of free slots by exactly the RAM frames the thread had, and abandons its swap slots |
| `PageTable.AbandonedForever` | my_pthread/my_pthread.c:569-579 | over every run, a swap slot in use for a dead thread stays so |
| `PageTable.GatherKeeps` | my_pthread/my_pthread.c:1182-1199 | with enough free slots, gathering k pages uses exactly k of them, adds exactly the next k page numbers, each in the frame of its number, and alters no page |
| `PageTable.AddNextPlaced` | my_pthread/my_pthread.c:1182-1199 | a gathered page lands in its own frame and pages already in theirs stay there |
| `Pager.Pager.constructor` | my_pthread/my_pthread.c:1392-1406 | all words set to 1 decode to all slots free |
| `Pager.Pager.PageSwap` | my_pthread/my_pthread.c:915-943 | on words and frames: the abstract exchange of two RAM slots |
| `Pager.Pager.SwapToMemFromDisk` | my_pthread/my_pthread.c:945-985 | on words, frames and swap: the abstract exchange of a RAM and a swap slot |
| `Pager.Pager.MoveToFreeSpace` | my_pthread/my_pthread.c:1120-1143 | succeeds exactly when a frame is free, and moves the page to the first such frame |
| `Pager.Pager.MoveToDiskSpace` | my_pthread/my_pthread.c:1146-1180 | succeeds exactly when a swap slot is free, and moves the page to the first such slot |
| `Pager.Pager.InitializePage` | my_pthread/my_pthread.c:1050-1078 | over any old word and bytes: the frame becomes the running thread's next page; for page 0 the first four bytes then say free, page size less 4, no next block, and the other bytes stay |
| `Pager.Pager.FirstPage` | my_pthread/my_pthread.c:1551-1563 | on words: the abstract step; frame 0 ends up holding one of the running thread's pages exactly when it succeeds, and its page 0 under the exact condition; a thread's first page gets the header of one free block |
| `Pager.PagesForIs` | my_pthread/my_pthread.c:1016-1016 | the number of pages asked for holds more than the bytes requested, with not one page to spare |
| `Pager.Pager.IsEnoughPages` | my_pthread/my_pthread.c:1015-1033 | the number of pages needed, and not one more, if that many slots are free over RAM and swap, else 0 |
| `Pager.Pager.ProtectAllPages` | my_pthread/my_pthread.c:559-566 | closes exactly the frames that carry the thread |
| `Pager.Pager.FreePages` | my_pthread/my_pthread.c:569-579 | frees and opens exactly the frames that carry the running thread |
| `Pager.Pager.SigHandler` | my_pthread/my_pthread.c:1219-1262 | performs the abstract fault; reports a segmentation fault exactly when the running thread has no such page, also for the address just behind user space, which the range test lets through |
| `Pager.Pager.GatherPages` | my_pthread/my_pthread.c:1182-1199 | for every number of pages: when it gathers them, when it runs out of space and when it comes to a frame behind the last, by the free slots and the frames left; if it gathers them, the abstract gathering, and the tail block grows by k pages |
| `Pager.Pager.GrowTail` | my_pthread/my_pthread.c:1633-1658 | if the free slots suffice for a request, gathering cannot run out of space, and the tail block grows by more than the request unless the frames end first |
| `Pager.Pager.ContextSwitch` | my_pthread/my_pthread.c:646-649 | the outgoing thread's frames are closed |
| `Pager.Pager.ThreadExit` | my_pthread/my_pthread.c:607-649 | the exiting thread's frames are freed and closed and it owns no page any more |
| `RunQueues.EnqKeeps` | my_pthread/my_pthread.c:287-305 | queueing adds one occurrence and keeps every queued node's priority equal to its level, although a yielding node's priority is not rewritten |
| `RunQueues.DeqKeeps` | my_pthread/my_pthread.c:320-340 | dequeueing removes exactly the head and leaves it on no list |
| `RunQueues.DrainIs` | my_pthread/my_pthread.c:504-525 | draining a level by runtime empties it and leaves its threads in the promotion queue as sorted by an independent insertion sort on age |
| `RunQueues.ByAgeSorts` | my_pthread/my_pthread.c:249-284 | that sort is a sort: oldest first and a permutation |
| `RunQueues.SharesPartition` | my_pthread/my_pthread.c:526-545 | of n threads from level i+1, n/(i+2) go to each level above 0 and the rest to level 0, and the shares, concatenated, are the sorted queue |
| `RunQueues.MaintainIs` | my_pthread/my_pthread.c:504-549 | the exact contents and order of all queues after maintenance: level 0 keeps its threads in front, the others hold their shares, promotion queues are empty |
| `RunQueues.MaintainKeeps` | my_pthread/my_pthread.c:504-549 | maintenance loses and duplicates no thread, changes no identity, status or joinee, and gives each thread the priority of its new queue |
| `RunQueues.OldestLast` | my_pthread/my_pthread.c:498-545 | of two threads drained from one level, the one that has run longer never ends on a better level |
| `RunQueues.OldestBestIff` | my_pthread/my_pthread.c:498-545 | the comment's order, no thread worse placed than a younger one, holds for level i+1 if and only if it holds fewer than i+2 threads or its oldest and youngest are equally old |
| `RunQueues.NeverDemoted` | my_pthread/my_pthread.c:504-549 | maintenance never moves a thread to a worse level |
| `Dispatch.WakeIs` | my_pthread/my_pthread.c:607-620 | the exit scan, which restarts at the head after each move, terminates, moves exactly the waiters for the thread, in order and each to its stored priority, and keeps the others in order |
| `Calls.TimerSinks` | my_pthread/my_pthread.c:308-317 | a thread whose quantum runs out goes to the end of the next lower level, from level 4 to level 4; the head of the first level that is not empty runs next, for 100000 microseconds times the level plus one, and nothing else changes |
| `Calls.TimerStrands` | my_pthread/my_pthread.c:621-628 | with the status still JOINING it goes to the front of the join list instead |
| `Calls.YieldRequeues` | my_pthread/my_pthread.c:602-606 | a thread that yields goes to the end of its own level and is NEUTRAL again |
| `Calls.JoinWaits` | my_pthread/my_pthread.c:838-842 | joining a thread that is alive puts the caller in front of the join list, with status JOINING and that thread as joinee |
| `Calls.JoinReturns` | my_pthread/my_pthread.c:826-836 | joining a thread that is dead or unknown changes nothing |
| `Calls.ExitLeaves` | my_pthread/my_pthread.c:607-620 | an exit or return takes the caller off, queues its waiters, marks it dead with the value of the exit, or its old value on return, and picks the next thread |
| `Calls.CreateQueues` | my_pthread/my_pthread.c:743-790 | a new thread goes to the end of level 0 with the next number, its creation time and no exit value, and nothing else changes |
| `Calls.OneCall` | my_pthread/my_pthread.c:594-597 | a call that schedules counts up to 100 cycles; at 100 it redistributes the queues first and starts the count again |
| `Calls.EveryHundredAndFirst` | my_pthread/my_pthread.c:594-597 | after every run, the next call of schedule redistributes the queues if and only if it is the 101st since the start or since the last time |
| `Dispatch.InitialInv` | my_pthread/my_pthread.c:673-738 | the state set up by initialize satisfies the invariant |
| `Dispatch.StepKeeps` | my_pthread/my_pthread.c:582-857 | every create, yield, timer expiry, exit, return and join keeps the invariant or halts with nothing to run |
| `Dispatch.ExactlyOnePlace` | my_pthread/my_pthread.c:582-653 | after every run that has not halted, a living thread is running, on one run queue or on the join list, and there once; an exited one is nowhere |
| `Dispatch.QuantumInRange` | my_pthread/my_pthread.c:640-645 | after every run that has not halted, the running thread's quantum is 100000 microseconds times its level plus one, below a second, and each queued thread stores its queue's level |
| `Dispatch.DeadStaysFinal` | my_pthread/my_pthread.c:472-481 | over every run, a dead thread stays dead with the same exit value |
| `Dispatch.ScheduleJoins` | my_pthread/my_pthread.c:596-628 | what one call of schedule does to the join list and the dead marks, whatever maintenance it performs |
| `Dispatch.ExitReleases` | my_pthread/my_pthread.c:607-620 | an exit leaves on the join list exactly those who wait for another thread, in order |
| `Dispatch.WaiterStep` | my_pthread/my_pthread.c:607-628 | a waiter leaves the join list if and only if the thread it waits for exits in this step, and that thread is then dead |
| `Dispatch.ReleasedByDeath` | my_pthread/my_pthread.c:805-857 | over every run, a waiter that has left the join list was waiting for a thread that is dead, with its final exit value |
| `Dispatch.JoinHandsOver` | my_pthread/my_pthread.c:836-851 | over every run, when a waiter runs again the thread it waited for is dead, and the exit value it then takes never changes afterwards |
| `Dispatch.ExitRecords` | my_pthread/my_pthread.c:805-815 | a thread that exits is dead with the value it exits with |
| `Dispatch.StrandedIff` | my_pthread/my_pthread.c:621-628 | a step makes a thread wait for a dead one if and only if it is a timer expiry while the running thread still has the status JOINING |
| `Dispatch.JoinerCanBeStranded` | my_pthread/my_pthread.c:614-635 | a run in which main joins, is released, runs out its quantum and is stranded, and the scheduler halts |
| `Reversal.YoungerPromoted` | my_pthread/my_pthread.c:498-549 | a run from the initial state in which three threads sink to level 1 and yield in turn until maintenance comes; maintenance then leaves the oldest on level 1 with priority 1 and puts the youngest on level 0 with priority 0, where it runs for 100000 microseconds |
| `NodeLinks.RepUpdate` | my_pthread/my_pthread.c:249-340 | relinking one queue keeps all others linked as they were |
| `NodeLinks.ChainInsert` | my_pthread/my_pthread.c:264-278 | the two link updates of an insertion give the list with the node inserted, same rear |
| `NodeLinks.ChainRemove` | my_pthread/my_pthread.c:440-464 | the two link updates of a removal give the list without the node |
| `Scheduler.Scheduler.constructor` | my_pthread/my_pthread.c:673-738 | empty links represent the initial abstract state |
| `Scheduler.Scheduler.EnQ` | my_pthread/my_pthread.c:287-305 | on links: appends, stays acyclic with rear as last node, priority as in the abstract queueing |
| `Scheduler.Scheduler.DeQ` | my_pthread/my_pthread.c:320-340 | on links: takes the head, NULL exactly when empty |
| `Scheduler.Scheduler.InsertByTime` | my_pthread/my_pthread.c:249-284 | on links: inserts before the first node that ran less |
| `Scheduler.Scheduler.InsertToList` | my_pthread/my_pthread.c:401-405 | on links: puts the node in front of the join list |
| `Scheduler.Scheduler.RemoveFromList` | my_pthread/my_pthread.c:440-464 | on links: removes the thread's node if it is there, NULL and no change otherwise |
| `Scheduler.Scheduler.Maintenance` | my_pthread/my_pthread.c:504-549 | on links: the abstract maintenance |
| `Scheduler.Scheduler.WakeWaiters` | my_pthread/my_pthread.c:607-620 | on links: the restarting scan performs the abstract wake |
| `Scheduler.Scheduler.GetNextNode` | my_pthread/my_pthread.c:360-371 | the head of the first non-empty run queue, NULL exactly when all are empty |
| `Scheduler.Scheduler.Schedule` | my_pthread/my_pthread.c:582-653 | on links: the abstract schedule, which keeps the invariant unless it halts |
| `Scheduler.Scheduler.Create` | my_pthread/my_pthread.c:743-790 | a new thread with the next id, at the end of run queue 0 |
| `Scheduler.Scheduler.Yield` | my_pthread/my_pthread.c:794-802 | the abstract yield step |
| `Scheduler.Scheduler.TimerHandler` | my_pthread/my_pthread.c:657-660 | the abstract timer step |
| `Scheduler.Scheduler.Exit` | my_pthread/my_pthread.c:805-815 | the abstract exit step |
| `Scheduler.Scheduler.TerminationHandler` | my_pthread/my_pthread.c:662-670 | the abstract return step |
| `Scheduler.Scheduler.Join` | my_pthread/my_pthread.c:818-857 | the abstract join step; 1 exactly when there is no such thread; the exit value at once when it is dead |
| `SfsLayout.WithBitIs` | assignment3/src/sfs.c:66-85 | setting or clearing a bit of a byte changes that bit and no other |
| `SfsLayout.SetMarkIs` | assignment3/src/sfs.c:66-113 | setting a bitmap mark changes exactly that mark |
| `SfsLayout.IntBytes` | assignment3/src/params.h:29-44 | an int is stored in two's complement, lowest byte first |
| `SfsLayout.InodeBytes` | assignment3/src/params.h:29-44 | the fields of an inode are at bytes 0, 2, 260, 264, 268 and 4364 of its 4368 |
| `SfsLayout.InodeRoundTrip` | assignment3/src/params.h:29-44 | an inode record survives being stored as bytes |
| `SfsLayout.PutInodeIs` | assignment3/src/sfs.c:116-148 | writing one of the three inodes of a block stores exactly it and leaves the other two |
| `Sfs.AbsIs` | assignment3/src/sfs.c:52-148 | in numbers: the marks, inodes and data blocks the disk's bytes stand for, and where they are |
| `Sfs.AbsInode` | assignment3/src/sfs.c:131-148 | writing inode n on the disk changes record n and no other record, bitmap or data block |
| `Sfs.Disk.IsBlockFree` | assignment3/src/sfs.c:52-63 | 1 exactly when the block is marked free |
| `Sfs.Disk.SetBlock` | assignment3/src/sfs.c:66-85 | changes exactly one block mark of the whole file system |
| `Sfs.Disk.SetInode` | assignment3/src/sfs.c:98-113 | changes exactly one inode mark of the whole file system |
| `Sfs.Disk.ReadInode` | assignment3/src/sfs.c:116-129 | returns record n of the inode table |
| `Sfs.Disk.WriteInode` | assignment3/src/sfs.c:131-148 | changes exactly one inode record of the whole file system |
| `Sfs.Disk.FindNextOpenBlock` | assignment3/src/sfs.c:214-223 | the lowest free block, -1 exactly when there is none |
| `Files.CStrIs` | assignment3/src/sfs.c:162-162 | a name is the bytes before the first zero, all of them if there is none |
| `Files.SameName` | assignment3/src/sfs.c:162-162 | two paths that contain a zero are one name if and only if they agree up to and including a first zero of both |
| `Sfs.Disk.CheckPath` | assignment3/src/sfs.c:153-172 | the record of the first inode in use with the name, id -1 when there is none; for terminated paths, the first that is the same string byte for byte |
| `Sfs.Disk.Format` | assignment3/src/sfs.c:242-320 | formats exactly when the number 6942069 is not on the disk, and leaves it there in any case; after formatting the file system is sound, has no files, all blocks free and a root with its mode, and no data block changed |
| `Files.PutIs` | assignment3/src/sfs.c:634-656 | one byte written at or before the end replaces or appends that byte, keeps ownership exclusive and leaves every other file |
| `Files.WrittenStep` | assignment3/src/sfs.c:634-656 | one more byte of a write extends the splice by that byte |
| `Files.CreatedIs` | assignment3/src/sfs.c:389-424 | a created file is empty, has the mode and path given, owns its one block alone, keeps what its other slots held, and disturbs no other file |
| `Files.UnlinkedIff` | assignment3/src/sfs.c:427-451 | removal stays within the record and the bitmap's block and keeps ownership sound if and only if the extra slot is in the record, names a bit of that block and no other file's block |
| `Writes.RoundIsPut` | assignment3/src/sfs.c:634-668 | a round at or before the end of the file is the byte written with the lowest free block; it finds no room, fills the file or goes past the last slot exactly when stated |
| `Writes.PourWithin` | assignment3/src/sfs.c:634-677 | a write that starts within the file splices its bytes into it, all of them or as many as fit below the maximal size, and leaves the other files; it goes astray only at the end of a file that was maximal before |
| `Writes.PourRoom` | assignment3/src/sfs.c:634-677 | such a write fails for lack of room if and only if fewer blocks are free than it needs, and otherwise takes exactly those |
| `Beyond.FillTables` | assignment3/src/sfs.c:617-628 | the loop that is meant to fill the hole succeeds if and only if blocks and slots suffice, and then sets exactly the slots from the second unowned one to the cursor's, to the lowest free blocks in turn |
| `Beyond.CursorSlot` | assignment3/src/sfs.c:617-668 | in a write beyond the end the slot under the cursor was set by the write, is the file's last own slot, or is one of the stale slots, by a closed formula in size and offset |
| `Beyond.WriteBeyond` | assignment3/src/sfs.c:617-677 | a write beyond the end that succeeds adds exactly the number of bytes written to the size; each byte of every other file becomes the last one that landed on it through a stale slot, or stays |
| `Beyond.PourAlike` | assignment3/src/sfs.c:634-677 | whether a write succeeds and what it does to the tables does not depend on the bytes |
| `Beyond.SparesIff` | assignment3/src/sfs.c:617-677 | a write beyond the end leaves another file's bytes alone, whatever the bytes written, if and only if no stale slot it follows leads to one of them |
| `Beyond.BeyondIff` | assignment3/src/sfs.c:617-677 | a write beyond the end succeeds if and only if as many blocks are free as it takes, the slots it sets and the one behind its last byte exist, and the stale slots it follows name data blocks |
| `Beyond.SoundIff` | assignment3/src/sfs.c:617-677 | after a write beyond the end that succeeds, ownership is sound if and only if each stale slot that the growth of the size makes the file's own names a used block that no file owned and no other slot it gains names; where no block is filled it always is |
| `FileRuns.FoundNamed` | assignment3/src/sfs.c:153-172 | a path is found on the disk at the inode number under which the directory has the name |
| `FileRuns.StepRefines` | assignment3/src/sfs.c:389-677 | each create that succeeds, write that succeeds and starts within its file, and removal of a removable file, as computed by the code, keeps the file system sound and does to the directory what it does to a map of names and bytes |
| `FileRuns.RunRefines` | assignment3/src/sfs.c:389-677 | the same over every run |
| `FileRuns.StepMagic` | assignment3/src/sfs.c:189-212 | no create, write or removal touches the number that tells a formatted disk |
| `FileRuns.TwoFilesMade` | assignment3/src/sfs.c:389-424 | two creates on a blank disk lead to the state the two runs below start from |
| `FileRuns.UnlinkCanBreak` | assignment3/src/sfs.c:442-444 | the second of two files removed: the first one's block is marked free |
| `FileRuns.UnlinkCanLeave` | assignment3/src/sfs.c:442-444 | a sound file system in which the second file's extra slot holds 200000, so that removing it leaves the bitmap's block |
| `FileRuns.WriteCanTakeOver` | assignment3/src/sfs.c:617-677 | 16384 bytes written at offset 1 to the empty second file succeed and take over the first file's block, although none of its bytes is reached |
| `FileRuns.WriteCanClobber` | assignment3/src/sfs.c:617-677 | a byte written at offset 16384 to the empty second file succeeds, leaves it one byte long and overwrites the first file |
| `Sfs.Unsaved` | assignment3/src/sfs.c:648-650 | a write given up for lack of space leaves the file system sound and all other files unchanged |
| `Sfs.StageRound` | assignment3/src/sfs.c:634-656 | the buffered byte and the unsaved inode stand for the abstract round, whatever slot the cursor is in |
| `Sfs.Disk.Create` | assignment3/src/sfs.c:389-424 | the lowest free inode and the lowest free block make an empty file; the two failures, with what they leave behind |
| `Sfs.Disk.ReadFile` | assignment3/src/sfs.c:557-575 | exactly the bytes the slots lead to, or a stray slot among those loaded |
| `Sfs.Disk.Read` | assignment3/src/sfs.c:531-576 | for every path, offset and length: the error, or as many bytes as asked for, those the slots lead to; a range inside a file is returned exactly, and of a longer one the bytes in the file are right |
| `Sfs.Disk.FillHole` | assignment3/src/sfs.c:617-628 | on the disk's bitmap and the unsaved inode: the abstract hole loop |
| `Sfs.Disk.PutByte` | assignment3/src/sfs.c:634-668 | one round of the write loop, with the buffered block and the unsaved inode, is the abstract round on the staged file system |
| `Sfs.Disk.Write` | assignment3/src/sfs.c:587-677 | for every path, offset and buffer: result and file system are those of the abstract write; at or before the end of a file the buffer is spliced into its bytes and every other file is unchanged, with room as the only reason to fail below the maximal size; beyond it, the exact conditions for success and for a sound file system |
| `Sfs.Disk.Unlink` | assignment3/src/sfs.c:427-451 | frees the file's blocks, one extra slot and the inode, exactly when that slot is in the inode and names a bit of the bitmap's block; the file system is then sound if and only if the slot is no other file's |
| `Sfs.Disk.Carry` | assignment3/src/sfs.c:389-677 | one create or write on the disk is the abstract step, and fails only where no such step exists |
| `Sfs.Disk.Perform` | assignment3/src/sfs.c:389-677 | a run of creates and writes on the disk's bytes, up to the first that cannot succeed, leaves the directory that the calls make of the old one |
| `Sfs.Disk.Replay` | assignment3/src/sfs.c:389-677 | every run of creates, writes and removals that can succeed is carried out on the disk's bytes, state by state, and leaves the directory that the calls make of the old one |
| `Sfs.Disk.Remount` | assignment3/src/sfs.c:252-254 | mounting a formatted disk again, after any run of creates, writes and removals, does not format it and keeps the directory |
| `Sfs.Disk.WriteThenRead` | assignment3/src/sfs.c:531-677 | writing within a file and reading the range back returns what was written, or there was no room |

## Left out

- `Sfs.Disk.CheckPath`: where a stored path holds no zero among its 256 bytes, its name is taken to end there; the program compares on into the fields behind it.
- `Sfs.Disk.Write`: a write that comes to a slot that names no data block, or to the slot behind the last, ends in `Astray`; what the program writes from there on is not modelled. At or before the end of a file that happens only at the end of a file of maximal size.
- `Sfs.Disk.Read`: a read that comes to a slot that names no data block, or to the slot behind the last, ends in `Stray`; what the program reads there is not modelled. This includes a read up to the very end of a file of maximal size, since one slot is loaded ahead.
- `Sfs.Disk.Unlink`: where the extra slot lies behind the last slot or names no bit of the bitmap's block, the result is `Outside`; what the program writes there is not modelled.
- `Sfs.Disk.Perform`: no removals, since a caller cannot see from the calls' results whether the extra slot was another file's; `Sfs.Disk.Replay` carries them out for removable files. Writes that start beyond the end are in neither: what they leave is stated call by call.
- `Pager.Pager.SigHandler`: where the address just behind user space belongs to a page the thread does own, the program goes on to a frame that does not exist; the result `PastFrames` marks this and nothing is stated about it.
- `Pager.Pager.GatherPages`: where the page numbers run past the last frame, the result is `NoSuchFrame`, and what the program does to the frame behind the last is not modelled. The header word of the thread heap's last block is passed in and out as a value; that this word lies in a page the running thread can reach is not modelled.
- `Pager.Pager.GrowTail`: only the case in which the thread heap ends in a free block; otherwise the program asks for too little, because it subtracts the size of the taken block.
- `Scheduler.Scheduler.Create`: memory for the new thread is always available, as it is for the counters that `maintenance` allocates. The caller's thread record is a fresh one: the program links it into its list, so that a record passed twice would make that list cyclic and give two nodes one id.
- Faults raised inside the copies that move pages: each move, and each move followed by setting up the page, is one step. Page moves and the scheduler are modelled apart, so that a page fault in the middle of a scheduler call does not occur.
- Node pointers are thread ids with 0 for NULL and `next` fields are a map; the list of threads is a map, since only searches by id are made on it.
- Contexts, signals, timers, `clock` and `mprotect` calls: events, inputs and one access bit per frame take their place. The clock is read once per maintenance.
- The walk over a thread's heap in `myallocate`, the thread branch of `freeAndMerge`, `alignPages`, the shared-memory branch and mutexes of `my_pthread.c`.
- `sfs_open`, `sfs_release`, `sfs_getattr`, `sfs_readdir`, the directory stubs, the log and the block device of `assignment3/src`: reading and writing a block always succeeds.
- Messages printed by the programs, and their drivers and benchmarks.
