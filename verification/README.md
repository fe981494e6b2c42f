# Verification of the ostoo kernel's state machines

This project models the parts of ostoo, an x86-64 kernel, in which several
parties or several layers of state have to agree, and proves what they keep
over every run, history or size.

| file | what it models |
|---|---|
| `Ring.dfy` | the shared-memory ring between kernel and user space, both parties broken into single loads and stores |
| `Frames.dfy`, `AddressSpace.dfy`, `Mapping.dfy`, `PageOps.dfy`, `Memory.dfy` | physical frames: free list threaded through the frames, sparse reference counts, four-level address spaces as they grow, shrink and are torn down, shared-memory objects |
| `Scheduler.dfy` | threads, ready queue, idle fallback, donation, quantum, context switch |
| `Channel.dfy`, `Delivery.dfy`, `Ipc.dfy` | the IPC channel; what becomes of a message once the channel hands it over; the two ends composed with the scheduler and the completion ports |
| `Port.dfy` | the completion port and `io_wait`, composed with the scheduler |
| `Mailbox.dfy` | the actor mailbox and the one-shot reply |
| `Signals.dfy` | signal delivery on system-call return and `rt_sigreturn` |
| `Gap.dfy`, `Vma.dfy`, `Resident.dfy`, `Mmap.dfy` | the gap finder, the map of memory areas, the areas beside the page table, the mapping system calls |
| `Elf.dfy`, `InitialStack.dfy` | the ELF parser and loader, the initial user stack |
| `Path.dfy` | path normalisation and resolution |
| `Base.dfy`, `Bits.dfy`, `Bytes.dfy`, `Pages.dfy` | options, machine words, little-endian bytes, page arithmetic |

A component that the kernel updates in place is a class whose methods are
specified by functions on its abstract value; the same functions are the steps
of a state machine, and the theorems are about all of its runs.  For example
`Scheduler.KernelScheduler.YieldTick` equals `Scheduler.YieldStep`, and
`Scheduler.SchedulerIsSafe` speaks of every sequence of such steps.

`dafny verify dfyconfig.toml` checks everything.

## Where the code and its promises part

The model follows the code.

- The signal frame is 440 bytes and its `ucontext` 304, not 512 and 376 as the comments at libkernel/src/syscall.rs:382-400 say.
- The idle thread can be on the ready queue once it has run, against libkernel/src/task/scheduler.rs:104-105 (`Scheduler.IdleGetsQueued`; `Scheduler.IdleQueuedExactly` is the exact condition); slot 0 is not skipped when a Dead slot is reused, against libkernel/src/task/scheduler.rs:122.
- Closing a mailbox keeps its queued messages; the comment at libkernel/src/task/mailbox.rs:73-74 says that they are dropped.
- The bytes AT_RANDOM points to are a fixed pattern, not zeros, and the NULL terminators lie above the pointers they end, against osl/src/spawn.rs:64-78.
- `find_gap_topdown` does not always find an existing gap: see `Gap.MissedExample`, `Gap.OnlyLowRanges` and the exact condition in the contracts of `Gap.FindGapTopdown` and `Mmap.SysMmap`.  A single fixed mapping below the mmap window makes every other `mmap` fail while the window is empty (`Mmap.LowMappingBlocksOthers`).
- A send can answer success and its message still be lost: a completion port drops a posted message when its queue is at the bound (`Ipc.FullPortLosesMessage`; `Ipc.LostIffNoRoom` is the exact condition).
- Receiving both directly and through ports can reverse the order (`Ipc.MixedReceiptsOvertake`; `Ipc.ReceivedInOrder` is the exact condition).
- A rendezvous sender that anybody but the channel wakes answers success with its message untaken, and stays registered.  A second blocking send then loses that message (`Ipc.EarlyAnswerLosesMessage`), and closing the receive end wakes the thread instead of completing an armed send, which is never answered (`Ipc.EarlyAnswerStrandsSend`).  `Ipc.RendezvousTaken` and `Ipc.CloseCompletesArmedSend` are the exact conditions.
- An `mmap` that fails half way leaves its pages in the page table without an area, and so does unmapping a page without access; later requests that meet such a page fail (`Mmap.HalfMappedBlocksOthers`; `Resident.MatchesUnlessLeaked` and `Resident.GapSucceeds` are the exact conditions).
- A shared-memory object that cannot get all its frames keeps those it got (`Memory.NewSharedMem`).

## Model

| member | source | states |
|---|---|---|
| `Ring.RingIsFifo` | completion-port/src/ring.rs:124-187 | under every interleaving of the individual loads, tests, slot accesses and stores of one producer and one consumer, for every power-of-two size and any number of 32-bit wrap-arounds, what was popped is a prefix of what was pushed and the visible events are a run of an unbounded FIFO queue |
| `Ring.RunRefinesFifo` | user/lib/ostoo.c:177-201 | the same refinement from any state that satisfies the invariant, with each operation Rust or C and each read single or batched |
| `Ring.StepRefinesFifo` | osl/src/io_port.rs:818-848 | every step is silent, enqueues the released entry, or dequeues exactly the entries read, which are the front of the reference queue; a batch is dequeued by its single head advance |
| `Ring.RunKeepsInv` | completion-port/src/ring.rs:143-187 | every run keeps the counters equal to the history lengths modulo 2^32, the occupancy within the size, and each unread entry in the slot of its position |
| `Ring.SlotAccessesAreSafe` | completion-port/src/ring.rs:124-187 | a slot about to be written holds no unread entry and is not the one being read; a slot about to be read has been written and not yet released |
| `Ring.WriteKeepsUnread` | completion-port/src/ring.rs:131-157 | writing the slot of the next position changes no unread entry |
| `Ring.ReadsUnread` | completion-port/src/ring.rs:124-182 | the i-th slot after the head holds the i-th unread entry |
| `Ring.RefusalsAreExact` | user/lib/ostoo.c:177-201 | a push is refused exactly when the ring was full, and a pop exactly when it was empty, at the instant the peer's counter was loaded; the C test against the mask and the Rust test against the size agree |
| `Ring.PushedContents` | completion-port/src/ring.rs:143-163 | pushing on a ring with room appends the entry to the contents that the slots hold between the counters |
| `Ring.PoppedContents` | completion-port/src/ring.rs:168-187 | popping a non-empty ring removes the oldest entry and leaves the others in place |
| `Ring.PushAlone` | completion-port/src/ring.rs:143-163 | the producer's steps run without interference are one whole push, in either flavour |
| `Ring.PopAlone` | completion-port/src/ring.rs:168-187 | the consumer's steps run without interference are one whole pop, in either flavour |
| `Ring.BatchTakes` | osl/src/io_port.rs:818-848 | in any interleaving a batch fixes its size at the tail load, at the number of unread entries or the limit, and its head advance dequeues exactly that many of the oldest |
| `Ring.BatchAlone` | osl/src/io_port.rs:818-848 | the consumer's batch steps run without interference take the oldest entries up to the limit, at once |
| `Ring.SpscRing.constructor` | completion-port/src/ring.rs:57-77 | a fresh ring is empty whatever its memory held |
| `Ring.SpscRing.Len` | completion-port/src/ring.rs:195-199 | the number of unread entries, also across a wrap of the counters |
| `Ring.SpscRing.Available` | completion-port/src/ring.rs:202-204 | the room left |
| `Ring.SpscRing.ReadEntry` | completion-port/src/ring.rs:124-128 | the entry in the masked slot |
| `Ring.SpscRing.WriteEntry` | completion-port/src/ring.rs:131-136 | only the masked slot changes |
| `Ring.SpscRing.Push` | completion-port/src/ring.rs:143-163 | succeeds exactly when there is room, then appends; its effect on memory is that of the producer's steps |
| `Ring.SpscRing.Pop` | completion-port/src/ring.rs:168-187 | returns and removes the oldest entry, or nothing when empty; its effect on memory is that of the consumer's steps |
| `Ring.SpscRing.SqPush` | user/lib/ostoo.c:177-188 | the C push: same contents as the Rust one, 0 or -1 |
| `Ring.SpscRing.CqPop` | user/lib/ostoo.c:190-201 | the C pop: returns and removes the oldest entry, or nothing, like the Rust one |
| `Ring.SpscRing.DrainBatch` | osl/src/io_port.rs:818-848 | takes the oldest entries up to the limit, in order, with one head advance; its effect on memory is that of the consumer's batch steps |
| `Frames.FrameAccounting` | libkernel/src/memory/mod.rs:261-289 | after any run of allocating, sharing, releasing and writing held frames, the sparse table equals the true owner count, the free list is a duplicate-free chain through the freed frames, and free, held and untouched frames partition the usable ones |
| `Frames.AllocIsFresh` | libkernel/src/memory/frame_allocator.rs:87-119 | in every reachable state an allocation returns a usable frame that nobody holds, and fails only when the list and the untouched frames are both exhausted |
| `Frames.StepKeepsInv` | libkernel/src/memory/frame_allocator.rs:64-119 | each operation keeps that accounting |
| `Frames.LastRelease` | libkernel/src/memory/mod.rs:271-289 | `ref_release` reports true exactly when the reference given up is the frame's last |
| `Frames.LastReleaseKeepsInv` | libkernel/src/memory/frame_allocator.rs:64-71 | linking a frame through its own first word when its last owner lets go keeps the chain and every other page intact |
| `Frames.AllocSequentialKeepsInv` | libkernel/src/memory/frame_allocator.rs:87-91 | taking the next untouched frame keeps the accounting |
| `Frames.UsableFramesDistinct` | libkernel/src/memory/frame_allocator.rs:94-103 | page-aligned disjoint regions yield each usable frame once |
| `Frames.UsableFramesAre` | libkernel/src/memory/frame_allocator.rs:94-103 | for page-aligned regions the usable frames are exactly the page-aligned addresses inside usable regions |
| `Frames.UsableFramesOrder` | libkernel/src/memory/frame_allocator.rs:94-103 | they come in the order of the regions, ascending within each |
| `Frames.AllocOrder` | libkernel/src/memory/frame_allocator.rs:107-119 | an allocation takes the head of the free list if there is one, otherwise the first untouched frame, and changes nothing else of either |
| `Frames.FreedIsReused` | libkernel/src/memory/frame_allocator.rs:64-119 | the frame freed last is the next one allocated |
| `Frames.BootInv` | libkernel/src/memory/frame_allocator.rs:29-36 | the accounting holds at boot |
| `Frames.ReleaseAllConcat` | libkernel/src/memory/mod.rs:440-446 | releasing two lists of references one after the other is releasing their concatenation |
| `AddressSpace.WalkVisitsTables` | libkernel/src/memory/mod.rs:486-551 | the teardown walk frees a frame as a table if and only if it is a table reachable from the PML4 through used, non-huge, lower-half entries |
| `AddressSpace.WalkVisitsLeaves` | libkernel/src/memory/mod.rs:486-551 | the walk drops a frame as a leaf exactly as many times as there are index paths through used, non-huge, lower-half entries that end at it |
| `AddressSpace.Teardown` | libkernel/src/memory/mod.rs:486-551 | tearing down puts every reachable table frame on the free list exactly once; every other frame loses exactly as many references as there are index paths through used, non-huge, lower-half entries that end at it, and a mapped frame is freed exactly when those were its last |
| `AddressSpace.FreshSpaceIsOwned` | libkernel/src/memory/mod.rs:309-345 | a new address space, its user half empty and its PML4 held once, meets what teardown needs |
| `AddressSpace.NextEntry` | libkernel/src/memory/mod.rs:496-538 | before each entry is read its table is still held and its word unchanged, so a free-list link never overwrites an entry still to be read |
| `AddressSpace.EntryFields` | libkernel/src/memory/mod.rs:496-538 | an entry made of high flags, a page-aligned frame below 2^52 and low flags gives back the frame, is huge exactly with bit 7, and is unused exactly when it is zero |
| `AddressSpace.EntriesThatCount` | libkernel/src/memory/mod.rs:496-538 | an entry is passed over exactly when it is zero or, in the two middle levels, has bit 7; in a page table it is a leaf, elsewhere the table below is walked |
| `Mapping.KernelHalfIgnored` | libkernel/src/memory/mod.rs:494-498 | entries 256 to 511 of the PML4 have no part in the teardown |
| `Mapping.LinkLeaf` | libkernel/src/memory/mod.rs:350-366 | mapping a held frame through an unused entry of a page table keeps what teardown needs, makes that path lead to the frame and leaves what every other path leads to |
| `Mapping.LinkTable` | libkernel/src/memory/mod.rs:350-366 | linking a cleared table frame, held once, into an unused entry of a higher table keeps what teardown needs, puts the table at that path and leaves what every path leads to |
| `Mapping.UnmapLeaf` | libkernel/src/memory/mod.rs:420-437 | clearing a leaf entry and giving up its reference keeps what teardown needs, whether or not the frame is freed; that path leads nowhere afterwards and every other path where it did |
| `Mapping.WalkAround` | libkernel/src/memory/mod.rs:486-551 | changing one entry of a table that the walk visits once replaces what that entry contributed to the walk and nothing else |
| `Mapping.MapsElsewhere` | libkernel/src/memory/mod.rs:486-551 | changing one entry of a table visited once changes what no path leads to, except those through that entry |
| `Mapping.ChangeFlags` | libkernel/src/memory/mod.rs:450-475 | giving a leaf entry other flags keeps what teardown needs and leaves what every path leads to |
| `Mapping.OthersKeep` | libkernel/src/memory/mod.rs:261-289 | whatever anybody allocates, shares, releases or writes, other than this space's tables and the references it owns, keeps what teardown needs, the walk, and what every path leads to |
| `Mapping.OpsShow` | libkernel/src/memory/mod.rs:222-475 | over any sequence of entries filled, linked, given other flags or cleared in a space, with anything the allocator and other owners do in between, the space stays fit for teardown and its four-level tables map exactly the pages mapped and not unmapped |
| `PageOps.CanMap` | libkernel/src/memory/mod.rs:222-243 | any user page without an entry, and not under a huge one, can be mapped by such steps while four frames are left: tables and page are allocated, cleared and linked |
| `PageOps.CanUnmap` | libkernel/src/memory/mod.rs:375-475 | any mapped user page can be unmapped and given other flags by such steps |
| `Memory.MemoryServices.constructor` | libkernel/src/memory/frame_allocator.rs:29-61 | boot: nothing allocated, nothing free-listed, no counts |
| `Memory.MemoryServices.AllocateFrameSequential` | libkernel/src/memory/frame_allocator.rs:87-91 | hands out the next untouched frame, or none |
| `Memory.MemoryServices.AllocateFrame` | libkernel/src/memory/frame_allocator.rs:107-119 | pops the free list, or falls back to the next untouched frame |
| `Memory.MemoryServices.DeallocateFrame` | libkernel/src/memory/frame_allocator.rs:64-71 | pushes a frame whose only reference is given up |
| `Memory.MemoryServices.FreeListLen` | libkernel/src/memory/frame_allocator.rs:74-84 | terminates and returns the number of frames on the list |
| `Memory.MemoryServices.RefShare` | libkernel/src/memory/mod.rs:261-268 | one more owner, with the first owner implicit |
| `Memory.MemoryServices.RefRelease` | libkernel/src/memory/mod.rs:271-289 | one owner fewer; true exactly for the last |
| `Memory.MemoryServices.ReleaseSharedFrame` | libkernel/src/memory/mod.rs:440-446 | gives up one reference; the frame is free-listed exactly when it was the last, and no held page changes |
| `Memory.MemoryServices.ClearPage` | libkernel/src/shmem.rs:43-45 | every word of the held frame is zero and no other page changes |
| `Memory.MemoryServices.UnmapAndReleaseUserPage` | libkernel/src/memory/mod.rs:420-437 | gives up the reference of a mapping, or does nothing when nothing was mapped |
| `Memory.MemoryServices.VisitEntry` | libkernel/src/memory/mod.rs:496-538 | one table entry: skipped, a leaf reference released, or the subtree below it torn down |
| `Memory.MemoryServices.FreeTable` | libkernel/src/memory/mod.rs:486-551 | one level of the nested loops: equals releasing the walk of that subtree, reading entries as they were before the teardown began |
| `Memory.MemoryServices.CleanupUserAddressSpace` | libkernel/src/memory/mod.rs:486-551 | equals releasing, in order, everything the walk of the original tables visits |
| `Memory.SharedMem.Drop` | libkernel/src/shmem.rs:74-84 | an owning object gives up its references one by one; a borrowing one gives up nothing |
| `Memory.NewSharedMem` | libkernel/src/shmem.rs:32-52 | succeeds if and only if the size is not zero and the free list and the untouched frames together cover it; the object then holds one fresh zeroed frame per page; a failure for want of frames takes all that were left, and they stay held |
| `Memory.MmapSharedPages` | osl/src/syscalls/mem.rs:332-355 | one reference more for each page mapped before the first failure |
| `Scheduler.SchedulerIsSafe` | libkernel/src/task/scheduler.rs:834-969 | in every reachable state the ready queue has no duplicates, holds only Ready threads and never the running one, lists every Ready thread but possibly idle; exactly the current thread is Running; the next tick cannot underflow the quantum; the slot to be reused is not queued |
| `Scheduler.StepKeepsInv` | libkernel/src/task/scheduler.rs:644-711 | every tick, yield, block, kill, unblock, donation, spawn and address-space switch keeps the scheduler invariant |
| `Scheduler.OnlyReadyThreadsAreDispatched` | libkernel/src/task/scheduler.rs:848-951 | whatever the step, the thread that runs next was already running or was Ready, whether taken from the front, by donation or as idle |
| `Scheduler.SpawnKeepsInv` | libkernel/src/task/scheduler.rs:121-131 | a slot is reused only when its thread is Dead and not queued |
| `Scheduler.StepRefinesVirtual` | libkernel/src/task/scheduler.rs:755-804 | each step on the one CPU is a step of the machine in which every thread has its own RSP, user RSP and FS base, changed only by its own execution |
| `Scheduler.RunRefinesVirtual` | libkernel/src/task/scheduler.rs:834-969 | over any run one CPU refines one virtual CPU per thread, and CR3, current pid, kernel RSP and TSS stack are the running thread's |
| `Scheduler.PositionFalls` | libkernel/src/task/scheduler.rs:848-879 | a queued thread's position never grows and falls at every dispatch from the front |
| `Scheduler.BoundedWaiting` | libkernel/src/task/scheduler.rs:919-951 | a thread at position p runs after at most p+1 dispatches from the front |
| `Scheduler.BoundedWaitingInTicks` | libkernel/src/task/scheduler.rs:848-879 | without donations it runs within (p+1)*QUANTUM_TICKS ticks |
| `Scheduler.BlockedOnlyBy` | libkernel/src/task/scheduler.rs:671-711 | a thread is Blocked after a step exactly when it just blocked itself, or it was Blocked and was not the one unblocked |
| `Scheduler.DeadOnlyBy` | libkernel/src/task/scheduler.rs:644-711 | a thread is Dead after a step exactly when it just killed itself, or was Dead and its slot was not reused by a spawn |
| `Scheduler.KilledNeverRuns` | libkernel/src/task/scheduler.rs:644-711 | over any run a killed thread is never current and never queued again, whoever unblocks it, until its slot is reused |
| `Scheduler.SpawnPlaces` | libkernel/src/task/scheduler.rs:121-131 | the first Dead slot, or a new one, holds the new thread with its kind, stacks, address space and registers, and is queued last; nothing else changes |
| `Scheduler.Cr3Follows` | libkernel/src/task/scheduler.rs:31-39 | the running thread's PML4 and CR3 become the given address space, and nothing else changes |
| `Scheduler.DonationIsSpent` | libkernel/src/task/scheduler.rs:908-951 | a donation lasts until the next yield, taken or not |
| `Scheduler.IdleQueuedExactly` | libkernel/src/task/scheduler.rs:848-868 | after a step the idle thread is queued exactly when it was queued or running before and is not running now; a step puts it on the queue exactly when it switches away from idle |
| `Scheduler.IdleGetsQueued` | libkernel/src/task/scheduler.rs:848-868 | a run after which the idle thread is on the ready queue: the last other thread blocks, is unblocked, and the timer preempts idle when its quantum is used up |
| `Scheduler.KernelScheduler.constructor` | libkernel/src/task/scheduler.rs:317-356 | the state after `init` satisfies the invariant, with idle outside the queue |
| `Scheduler.KernelScheduler.AllocThreadSlot` | libkernel/src/task/scheduler.rs:121-131 | reuses the first Dead slot, or appends |
| `Scheduler.KernelScheduler.SpawnThread` | libkernel/src/task/scheduler.rs:359-398 | the new thread is placed and queued last |
| `Scheduler.KernelScheduler.Unblock` | libkernel/src/task/scheduler.rs:701-711 | a Blocked thread becomes Ready and is queued last; any other index is ignored |
| `Scheduler.KernelScheduler.SwitchAddressSpace` | libkernel/src/task/scheduler.rs:31-39 | the recorded PML4 and CR3 change together |
| `Scheduler.KernelScheduler.SaveCurrentContext` | libkernel/src/task/scheduler.rs:755-759 | the CPU registers go to the current thread's entry |
| `Scheduler.KernelScheduler.RequeueCurrent` | libkernel/src/task/scheduler.rs:857-861 | a runnable current thread is queued last, others are not |
| `Scheduler.KernelScheduler.RestoreThreadState` | libkernel/src/task/scheduler.rs:776-804 | the CPU takes the next thread's registers, pid, stacks and address space |
| `Scheduler.KernelScheduler.SwitchTo` | libkernel/src/task/scheduler.rs:870-896 | the next thread runs with a full quantum; switching to oneself leaves the registers alone |
| `Scheduler.KernelScheduler.PreemptTick` | libkernel/src/task/scheduler.rs:834-897 | one tick: count down, or switch to the front of the queue |
| `Scheduler.KernelScheduler.NextReady` | libkernel/src/task/scheduler.rs:863-868 | the front of the queue, or idle |
| `Scheduler.KernelScheduler.YieldTick` | libkernel/src/task/scheduler.rs:908-969 | a yield: to a Ready donation target, which leaves the queue, or to the front |
| `Scheduler.KernelScheduler.RemoveFromQueue` | libkernel/src/task/scheduler.rs:930-933 | the first occurrence leaves the queue, the order of the others stays |
| `Scheduler.KernelScheduler.BlockCurrentThread` | libkernel/src/task/scheduler.rs:689-692 | marks and yields as one step of the model |
| `Scheduler.KernelScheduler.KillCurrentThread` | libkernel/src/task/scheduler.rs:644-652 | marks dead and yields as one step of the model |
| `Channel.ChannelInner.constructor` | libkernel/src/channel.rs:167-181 | an open, empty channel with one end each |
| `Channel.ChannelInner.TrySend` | libkernel/src/channel.rs:196-251 | the new channel, the answer, and whom it wakes or blocks, for rendezvous and buffered channels |
| `Channel.ChannelInner.TryRecv` | libkernel/src/channel.rs:255-306 | likewise for a receive, including the refill from a pending or armed send |
| `Channel.ChannelInner.WakeSender` | libkernel/src/channel.rs:255-306 | a registered sender is unblocked and forgotten |
| `Channel.ChannelInner.ArmSend` | libkernel/src/channel.rs:323-364 | a send submitted through a port: completed at once, handed to an armed receive, or armed |
| `Channel.ChannelInner.ArmRecv` | libkernel/src/channel.rs:367-404 | a receive submitted through a port: completed at once or armed |
| `Channel.ChannelInner.CloseSend` | libkernel/src/channel.rs:408-426 | the last send end gone: closed, and the waiting receiver or armed receive is told |
| `Channel.ChannelInner.CloseRecv` | libkernel/src/channel.rs:429-443 | the last receive end gone: closed, and the waiting sender or armed send is told |
| `Channel.RecvAnswers` | libkernel/src/channel.rs:255-306 | a receive gets the oldest message exactly when there is one; it answers that the peer is gone, or to try again, or blocks, exactly by whether the send end is open and it may block, and a refusal leaves the channel as it was; a completed port send is named by its port and user data |
| `Channel.SendAnswers` | libkernel/src/channel.rs:196-251 | likewise for a send: refused exactly when the receive end is closed, told to try again or blocked exactly when nothing can take the message |
| `Channel.ArmAnswers` | libkernel/src/channel.rs:323-404 | a submission never blocks; it completes exactly when the direct call would, and is armed otherwise with nothing else changed |
| `Channel.CloseAnswers` | libkernel/src/channel.rs:408-443 | closing never blocks; only the last handle of a side closes that side, and the close takes off the channel exactly what it answers: the waiting peer that it wakes, else the armed registration; messages stay |
| `Ipc.DeliveredInOrder` | libkernel/src/channel.rs:196-443 | on a buffered channel with one operation outstanding per end, under any mix of blocking, non-blocking and completion-port calls and with ports that others fill and reap as well: the sends that answered success, in that order, are the messages handed to the receiver followed by those still queued, never more than the capacity; each message handed over was received, waits in its port or was lost, exactly one of the three; and along one port, or among direct receives, nothing overtakes |
| `Ipc.LostExactlyAtBound` | completion-port/src/port.rs:46-51 | in one step a message is lost if and only if it is posted to a port whose queue is at its bound, and then it is that message alone |
| `Ipc.LostIffNoRoom` | osl/src/io_port.rs:302-522 | over any run nothing is lost if and only if every post of a message found room in its port |
| `Ipc.DeliveredExactlyOnce` | osl/src/ipc.rs:128-150 | the successes are exactly the messages kept for the receiver followed by those still queued if and only if every post found room |
| `Ipc.ReceivedInOrder` | osl/src/io_port.rs:652-715 | the receiver gets the messages in the order in which they were handed over if and only if no receipt overtakes: no direct receive while a message waits in a port, and no reaping of a port past an older message in another |
| `Ipc.ReceiverSeesSuccesses` | libkernel/src/channel.rs:196-306 | from a new channel, with room at every post and no overtaking, the j-th message received is the j-th successful send |
| `Ipc.FullPortLosesMessage` | completion-port/src/port.rs:24-51 | a run of 257 sends that all answer success, each completing a port receive that nobody reaps: the last message is lost |
| `Ipc.MixedReceiptsOvertake` | libkernel/src/channel.rs:255-306 | a run in which a direct receive gets the second message while the first waits in a port |
| `Ipc.ClosedOnlyWhenDrained` | osl/src/ipc.rs:169-202 | the receiver is told that its peer is gone only once every accepted message was handed over; it has then received them all if and only if none was lost to a full port and none waits in one |
| `Ipc.BlockedWithCause` | libkernel/src/channel.rs:196-306 | composed with the scheduler, for capacity zero and above, in runs where either end also blocks, waits or exits outside its calls and anybody may wake either: inside a call a receiver is Blocked only when nothing is receivable and the send end is open, a sender only when the queue is full or its own rendezvous message is still in the slot and the receive end is open; each is the registered waiter, and never both are Blocked |
| `Ipc.WakeupsArrive` | libkernel/src/channel.rs:408-443 | whatever ends a wait inside a call, an operation of the peer or its last close, unblocks the waiter in the same step |
| `Ipc.NonblockingReturns` | libkernel/src/channel.rs:255-306 | a non-blocking send or receive never yields and leaves its caller neither Blocked nor inside a call; it is told to try again, with the channel unchanged, exactly when the peer is open and there is no room, or nothing to receive |
| `Ipc.PostsWakeWaiters` | completion-port/src/port.rs:46-66 | a call that posts a message to a port ends the registration there, and whoever a call found registered with a port it posted to is not Blocked afterwards |
| `Ipc.SendIsAnswered` | osl/src/ipc.rs:97-150 | a send is answered at once unless it blocks or is armed, with success exactly when its message was taken |
| `Ipc.CompletionKinds` | osl/src/io_port.rs:302-522 | which completion a port gets: the end of the stream for an armed or late receive, the outcome of the send otherwise |
| `Ipc.RendezvousAccount` | libkernel/src/channel.rs:196-251 | on a rendezvous channel every message taken in was handed over, was overwritten, or is in the slot, each once, in every reachable state |
| `Ipc.OverwrittenExactly` | libkernel/src/channel.rs:201-224 | a message is overwritten exactly when a blocking send finds the slot still full, because the receiver it woke has not run yet or because a registration outlived its send |
| `Ipc.RendezvousTaken` | osl/src/ipc.rs:97-150 | over every run, whoever woke it, a waiting rendezvous send answers success exactly while the receive end is open, and its message (the one at its own place in the log of messages handed over) was then taken if and only if the channel no longer has the sender registered; otherwise it is still in the slot |
| `Ipc.EarlyAnswerLosesMessage` | osl/src/io_port.rs:652-715 | a run: the sender times out of `io_wait` and stays the port's waiter, blocks in a rendezvous send, is woken by a completion on that port, is dispatched by the timer and answers success; a second blocking send overwrites the untaken message |
| `Ipc.StaleExactly` | libkernel/src/channel.rs:196-251 | a registration outlives its send exactly when the send answers while registered, until a receive, the last close of the receive end or a new wait |
| `Ipc.StaleSendOverwrites` | libkernel/src/channel.rs:201-224 | the next blocking send over such a registration loses the message in the slot, which had been answered |
| `Ipc.CloseCompletesArmedSend` | libkernel/src/channel.rs:429-443 | the last close of the receive end completes an armed send if and only if no registration is left; otherwise it wakes that thread and strands the armed send |
| `Ipc.StrandedForever` | libkernel/src/channel.rs:429-443 | a stranded send is never answered, whatever anybody does afterwards |
| `Ipc.EarlyAnswerStrandsSend` | libkernel/src/channel.rs:429-443 | a run that strands an armed send |
| `Ipc.SysStepKeepsInv` | osl/src/ipc.rs:97-150 | every call of either end, every scheduler step of anybody, every completion of others and every reaping, waiting on and opening of a port keeps the composed invariant |
| `Ipc.CallKeepsInv` | osl/src/io_port.rs:302-522 | each channel call, from any phase of either end, keeps registrations, buffer and histories consistent |
| `Ipc.MarkedThenYielded` | libkernel/src/channel.rs:221-304 | marking the caller blocked under the lock and then yielding is the scheduler's blocking step |
| `Ipc.RunKeepsCapacity` | libkernel/src/channel.rs:167-181 | no call changes the capacity |
| `Ipc.StartInv` | osl/src/ipc.rs:33-71 | a new channel between two threads, over ports that hold nothing, satisfies the invariant |
| `Delivery.PortKeepsInv` | completion-port/src/port.rs:46-51 | posting a message to a port, kept or dropped, keeps every message in exactly one place and each path in order |
| `Delivery.ReapKeepsInv` | osl/src/io_port.rs:652-715 | taking any number of completions from a port keeps every message in exactly one place and each path in order |
| `Delivery.DirectKeepsInv` | osl/src/ipc.rs:169-202 | so does a direct receive |
| `Delivery.DirectOrder` | osl/src/ipc.rs:169-202 | a direct receive keeps the order of receipt if and only if no message waits in a port |
| `Delivery.ReapOrder` | osl/src/io_port.rs:652-715 | reaping a port keeps the order of receipt if and only if it takes no message past an older one that waits in another port |
| `Delivery.AllReceived` | completion-port/src/port.rs:46-72 | everything handed over was received if and only if nothing was lost and nothing waits |
| `Delivery.ReceivedIsPrefix` | completion-port/src/port.rs:69-72 | received in order without losses, the receipts are the first messages handed over, one by one |
| `Delivery.PostsTo` | libkernel/src/completion_port.rs:239-256 | a post ends its port's registration, queues the completion unless the queue is at its bound or a ring takes it, and touches no other port |
| `Delivery.OpensEmpty` | completion-port/src/port.rs:34-41 | a new port is empty, has its bound, and nobody waits on it |
| `Port.WaitIsSound` | osl/src/io_port.rs:652-715 | for any number of producers, any min and any timer, a consumer in the wait loop is Blocked only as the registered waiter with fewer than min completions queued; completions drain in post order and the queue stays within its bound |
| `Port.PostIsSound` | completion-port/src/port.rs:46-66 | a completion is dropped exactly when the queue is at its bound, and a post leaves no waiting consumer Blocked |
| `Port.WaitReturns` | osl/src/io_port.rs:609-715 | `io_wait` returns exactly when the wanted number of completions, at most max, is queued or its time is up, with the oldest up to max, so with fewer than wanted only at the timeout; otherwise it takes nothing, registers and blocks |
| `Port.StepKeepsInv` | osl/src/io_port.rs:652-715 | posts, waits, resumptions and every other scheduler step keep that invariant |
| `Port.StartInv` | completion-port/src/port.rs:34-41 | a new port whose consumer is outside the wait loop satisfies the invariant |
| `Port.CompletionPort.constructor` | completion-port/src/port.rs:34-41 | an empty port with the given bound |
| `Port.CompletionPort.Default` | completion-port/src/port.rs:24-31 | an empty port with the default bound of 256 |
| `Port.CompletionPort.WakeWaiter` | completion-port/src/port.rs:59-66 | the registered waiter is unblocked and forgotten |
| `Port.CompletionPort.Post` | completion-port/src/port.rs:46-51 | queued if there is room; the waiter is woken either way |
| `Port.CompletionPort.Drain` | completion-port/src/port.rs:69-72 | the oldest completions up to the limit leave the queue, in order |
| `Port.CompletionPort.WaitWhile` | libkernel/src/wait_condition.rs:30-38 | registers the current thread and performs the scheduler's blocking step |
| `Mailbox.NoLostWakeup` | libkernel/src/task/mailbox.rs:98-123 | with any number of senders and closers interleaved at lock granularity, a parked receiver with a message or a close to see has been woken or has an agent about to wake it, and messages leave in the order accepted |
| `Mailbox.ParkedReceiverResolves` | libkernel/src/task/mailbox.rs:226-250 | that wake is enough: it schedules the receiver, and its next poll returns the oldest message, or None when closed and empty |
| `Mailbox.StepKeepsInv` | libkernel/src/task/mailbox.rs:98-250 | each locked section, wake and registration keeps the invariant |
| `Mailbox.AcceptedWhenOpen` | libkernel/src/task/mailbox.rs:98-128 | a message is accepted exactly when it is sent to an open mailbox; only closing and reopening change whether it is open |
| `Mailbox.WakerIsSpent` | libkernel/src/task/mailbox.rs:98-123 | a wake uses the registered waker up, and only a wake that found one schedules the receiver; a poll takes that back |
| `Mailbox.NoSpuriousWake` | libkernel/src/task/mailbox.rs:226-250 | in every run, a receiver that never registered is never woken |
| `Mailbox.ClosedTakesNothing` | libkernel/src/task/mailbox.rs:109-128 | from a close until a reopen nothing more is accepted, and what was accepted still comes out in order |
| `Mailbox.AskResolvesRight` | libkernel/src/task/mailbox.rs:170-216 | an ask resolves to the value replied, and to None exactly when the handle was dropped without one; asking a closed mailbox can only give None |
| `Mailbox.AskIsAnswered` | libkernel/src/task/mailbox.rs:204-216 | once the reply handle is gone an unresolved asker is never left parked without a wake, and its next check resolves to the reply |
| `Mailbox.NeverReplied` | libkernel/src/task/mailbox.rs:98-107 | a handle dropped by a closed mailbox can no longer reply |
| `Mailbox.MailboxCell.constructor` | libkernel/src/task/mailbox.rs:83-91 | an open, empty mailbox without a waker |
| `Mailbox.MailboxCell.SendLocked` | libkernel/src/task/mailbox.rs:99-105 | enqueues, or drops the message when closed |
| `Mailbox.MailboxCell.Send` | libkernel/src/task/mailbox.rs:98-107 | enqueue and wake; a dropped message wakes nobody |
| `Mailbox.MailboxCell.Close` | libkernel/src/task/mailbox.rs:117-123 | closes and wakes, keeping queued messages |
| `Mailbox.MailboxCell.TryRecv` | libkernel/src/task/mailbox.rs:158-160 | the oldest message, or none |
| `Mailbox.MailboxCell.CheckLocked` | libkernel/src/task/mailbox.rs:228-236 | one locked check of `poll` |
| `Mailbox.MailboxCell.Poll` | libkernel/src/task/mailbox.rs:226-250 | an undisturbed poll: ready with the oldest message or the close, or pending with the waker registered |
| `Signals.DeliveryRoundTrip` | libkernel/src/syscall.rs:360-465 | deliver a signal, let its handler and everything nested in it run, return through the restorer: all eight saved registers, RAX, RSP and the blocked mask are what they were, and so is user memory from the interrupted RSP upwards |
| `Signals.DeliverThenReturn` | libkernel/src/syscall.rs:360-465 | a handler that returns at once brings the interrupted context back |
| `Signals.UnwindRestores` | osl/src/signal.rs:11-66 | from nesting depth n, n returns give back the contexts of all n levels, innermost first |
| `Signals.ReturnRestores` | osl/src/signal.rs:11-66 | parsing the frame gives back exactly the context that was printed |
| `Signals.DeliverEntersHandler` | libkernel/src/syscall.rs:360-465 | on entry RIP is the handler, RDI the signal, RSI and RDX point to the siginfo and the context exactly when flag bit 2 asks for them and are zero otherwise, the return address is the restorer, RSP is 8 modulo 16, the other registers are as they were, and the frame lies below the interrupted RSP without touching anything above |
| `Signals.FrameLayout` | libkernel/src/syscall.rs:381-446 | the frame has every part of the context at its byte offset in the x86-64 signal frame |
| `Signals.FramesAreSafe` | libkernel/src/syscall.rs:404-405 | in every reachable state open frames do not overlap, every handler entry RSP is 8 modulo 16, and SIGKILL and SIGSTOP are not in the blocked mask |
| `Signals.FrameBaseFits` | libkernel/src/syscall.rs:404-405 | the aligned frame fits below the interrupted RSP, with less than 16 bytes lost |
| `Signals.StepKeepsInv` | libkernel/src/syscall.rs:307-465 | execution below the entry RSP, checks, returns, mask and action changes and raised signals keep every open frame intact |
| `Signals.OuterFramesKept` | libkernel/src/syscall.rs:360-465 | whatever runs above a frame leaves it, the frames outside it and the memory above it unchanged |
| `Signals.MaskedBit` | libkernel/src/syscall.rs:376-380 | a handler runs with exactly the old mask, its action's mask and its own signal blocked, less SIGKILL and SIGSTOP |
| `Signals.MaskAfterBlockable` | osl/src/signal.rs:146-161 | no use of `rt_sigprocmask` puts SIGKILL or SIGSTOP into the mask |
| `Signals.MaskAfterBit` | osl/src/signal.rs:146-161 | the new mask bit by bit: 0 adds, 1 removes, 2 replaces, bits 8 and 18 are never added, any other value changes nothing |
| `Signals.ActionIndexIs` | osl/src/signal.rs:71-120 | an action can be set for exactly the signals 1 to 64 other than 9 and 19, and it is the one that delivery looks up |
| `Signals.WildStepKeepsMask` | osl/src/signal.rs:11-66 | whatever lies at RSP, forged or not, `rt_sigreturn` leaves SIGKILL and SIGSTOP out of the mask, and so do delivery, mask and action changes |
| `Signals.WildRun` | osl/src/signal.rs:11-166 | over any run of a process that keeps no discipline about its stack, SIGKILL and SIGSTOP are never in the mask |
| `Signals.DequeueTakesLowest` | libkernel/src/signal.rs:96-104 | the signal taken is pending, not blocked and the lowest such; exactly its pending bit is cleared |
| `Signals.QueueBit` | libkernel/src/signal.rs:88-92 | queueing sets exactly the pending bit of a signal in 1 to 64 |
| `Signals.Dispositions` | libkernel/src/syscall.rs:307-355 | the check takes the pending bit, ends the process exactly for the signals 1 to 15 without a handler, passes over ignored and other unhandled signals, and enters the handler otherwise |
| `Signals.KillGetsThrough` | libkernel/src/signal.rs:96-104 | a pending SIGKILL is always deliverable, and terminates the process when no lower signal comes first |
| `Signals.SignalContext.constructor` | libkernel/src/signal.rs:79-85 | a fresh signal state satisfies the invariant |
| `Signals.SignalContext.QueueSignal` | libkernel/src/signal.rs:88-92 | the pending bit of a signal in 1..64 is set |
| `Signals.SignalContext.Dequeue` | libkernel/src/signal.rs:96-104 | the lowest deliverable signal, or none |
| `Signals.SignalContext.CheckPendingSignals` | libkernel/src/syscall.rs:307-355 | ignored, default-ignored, terminating, default without action, or delivered |
| `Signals.SignalContext.ClearFrame` | libkernel/src/syscall.rs:407-407 | every word of the frame is zero and no other word changes |
| `Signals.SignalContext.DeliverSignal` | libkernel/src/syscall.rs:360-465 | clearing and storing print exactly the frame of the interrupted context; registers, RSP and mask are rewritten for the handler |
| `Signals.SignalContext.RtSigreturn` | osl/src/signal.rs:11-66 | registers, RSP, RAX and mask come from the frame below RSP |
| `Signals.SignalContext.RtSigaction` | osl/src/signal.rs:71-120 | bad sizes, signal numbers, SIGKILL and SIGSTOP are refused; otherwise exactly one action changes |
| `Signals.SignalContext.RtSigprocmask` | osl/src/signal.rs:125-166 | the error and the old mask returned, and the mask after blocking, unblocking or setting |
| `Gap.FindGapTopdown` | libkernel/src/gap.rs:21-61 | a base returned is the highest one whose interval lies in the window and meets no range; for a non-zero length a base is returned if and only if one exists and the case `Missed` does not apply |
| `Gap.MissedFits` | libkernel/src/gap.rs:39-59 | in the case `Missed` (some range ends below the floor, the gap above the floor is long enough, every higher gap is too short) a fitting base exists all the same |
| `Gap.MissedIsMissedPlaces` | libkernel/src/gap.rs:39-59 | `Missed` said of places instead of gap lengths: some range ends below the floor, the place at the floor is free, and no place directly above a range that reaches the floor is |
| `Gap.CompleteAboveFloor` | libkernel/src/gap.rs:21-61 | when no range ends strictly below the floor nothing is missed, so None means that no gap of that length exists |
| `Gap.OnlyLowRanges` | libkernel/src/gap.rs:46-59 | when all ranges end below the floor the whole window is free and is missed whenever the length fits |
| `Gap.MissedExample` | libkernel/src/gap.rs:46-59 | a concrete input on which a free window is not found |
| `VmaMap.HistoryActsPointwise` | libkernel/src/process.rs:262-436 | any sequence of gap mmap, fixed mmap, munmap and mprotect keeps areas disjoint, page-aligned and keyed by start, and gives each address the protection, flags and descriptor that the calls give it one after the other |
| `VmaMap.StepActsPointwise` | osl/src/syscalls/mem.rs:168-242 | one call changes exactly the addresses in its range; a fixed mapping that fails has unmapped its range |
| `VmaMap.RebuiltActsPointwise` | libkernel/src/process.rs:262-436 | replacing areas by their fragments removes, or re-protects, exactly the mapped addresses in range |
| `VmaMap.RebuiltIsValid` | libkernel/src/process.rs:262-436 | the fragments are again disjoint, aligned and keyed by start |
| `VmaMap.FragmentAt` | libkernel/src/process.rs:276-324 | in all four overlap cases each address of an area lands in one fragment with the right attributes, or in none |
| `VmaMap.FragmentsSeparate` | libkernel/src/process.rs:276-324 | different fragments, of one area or of two, are apart and have different starts |
| `VmaMap.ClipsPartition` | libkernel/src/process.rs:262-335 | the returned runs are ordered, do not meet, and are together exactly the mapped addresses in range |
| `VmaMap.Process.OverlappingKeys` | libkernel/src/process.rs:266-270 | the keys of the areas that meet the range, ascending |
| `VmaMap.Process.CutVma` | libkernel/src/process.rs:276-324 | the run freed and what stays of one area |
| `VmaMap.Process.ApplyMutations` | libkernel/src/process.rs:326-332 | removes and inserts, touching no other area |
| `VmaMap.Process.MunmapVmas` | libkernel/src/process.rs:262-335 | the map becomes the fragments outside the range; the returned runs partition the mapped pages inside it |
| `VmaMap.Process.ProtectVma` | libkernel/src/process.rs:355-425 | the run affected and the one to three areas that replace the old one |
| `VmaMap.Process.MprotectVmas` | libkernel/src/process.rs:341-436 | the map becomes the re-protected fragments; the returned runs partition the mapped pages in range |
| `VmaMap.Process.OccupiedRanges` | libkernel/src/gap.rs:63-67 | the areas in ascending order, as the gap finder needs them |
| `VmaMap.Process.FindMmapGap` | libkernel/src/process.rs:439-441 | the highest free place in the mmap window, page-aligned for whole pages; for a non-zero length there is an answer if and only if a free place exists and the case `Overlooked` does not apply |
| `VmaMap.OverlookedIsMissed` | libkernel/src/process.rs:439-441 | `Overlooked`, a condition on the areas, is exactly the case that the gap finder misses |
| `VmaMap.LowAreasHideWindow` | libkernel/src/gap.rs:46-59 | when all areas end below the mmap window, every length that fits is overlooked |
| `Resident.TableFollowsAreas` | osl/src/syscalls/mem.rs:168-498 | after any sequence of the calls every page of an area has a table entry with the area's protection, and the entries without an area are those there were and those that some call left behind: the pages a failing request had mapped, and pages without access that were unmapped |
| `Resident.MatchesUnlessLeaked` | osl/src/syscalls/mem.rs:355-417 | over any window, table and areas agree page by page after a sequence of calls if and only if none of them left a page of the window behind |
| `Resident.MappedIffCovered` | libkernel/src/memory/mod.rs:222-475 | in the four-level tables that carry the calls out, while frames are allocated, shared and released for this process and others, a user page is mapped if and only if an area covers it, it was astray at the start, or some call left it behind |
| `Resident.StepKeepsBacked` | osl/src/syscalls/mem.rs:60-498 | one call keeps every area backed, and adds to the entries without an area exactly what it leaves behind |
| `Resident.GapSucceeds` | osl/src/syscalls/mem.rs:211-242 | a request in a gap succeeds if and only if its pages can be backed and none of them was left behind earlier |
| `Resident.FixedSucceeds` | osl/src/syscalls/mem.rs:168-210 | a fixed request moreover needs that no area gave a page of its range no access |
| `Mmap.SysMmap` | osl/src/syscalls/mem.rs:60-324 | refusals in the order of the checks change nothing; a fixed request unmaps what its range holds and maps there, any other takes the highest free place that the areas do not hide, or fails; either succeeds exactly when its page loop gets through; areas and page table change as the call says, and the table keeps backing the areas; on success the area at the answer has the least whole number of pages and the protection, flags, descriptor and offset of the call, and each of its pages an entry with that protection |
| `Mmap.AcceptedExactly` | osl/src/syscalls/mem.rs:60-165 | a request passes the checks exactly when a user process asks for a non-empty length, exactly one of shared and private, an object that covers it, and an aligned non-zero address if it fixes one, and no sum overflows |
| `Mmap.RefusalCodes` | osl/src/syscalls/mem.rs:60-165 | which error a refused request gets, by number |
| `Mmap.RangeRefusedExactly` | osl/src/syscalls/mem.rs:419-475 | `munmap` and `mprotect` answer -22 exactly for a kernel thread, an unaligned address or an empty range |
| `Mmap.AsFdIs` | osl/src/syscalls/mem.rs:130-163 | the descriptor recorded for a file is the one given when it fits in 31 bits, and otherwise its low 32 bits read as a signed number |
| `Mmap.SysMunmap` | osl/src/syscalls/mem.rs:419-457 | refusals change nothing; otherwise the areas lose the range, the pages the areas had there are visited once each and in order, and their entries are dropped unless they are not present |
| `Mmap.SysMprotect` | osl/src/syscalls/mem.rs:459-498 | refusals change nothing; otherwise the areas and the entries of exactly their pages in the range get the new protection |
| `Mmap.CheckShared` | osl/src/syscalls/mem.rs:95-124 | a shared mapping must name a shared-memory object and lie within its last whole page |
| `Mmap.MapFixedArea` | osl/src/syscalls/mem.rs:168-210 | unmaps what is there, then maps page by page; on failure the pages mapped so far remain, without an area |
| `Mmap.MapGapArea` | osl/src/syscalls/mem.rs:211-242 | maps at the highest free place, if there is one that the areas do not hide; on failure the pages mapped so far remain, without an area |
| `Mmap.LowMappingBlocksOthers` | osl/src/syscalls/mem.rs:60-324 | after one fixed mapping below the mmap window a request for any length that fits fails with ENOMEM although the whole window is free |
| `Mmap.HalfMappedBlocksOthers` | osl/src/syscalls/mem.rs:355-417 | a request that runs out of frames half way leaves pages behind on which the same request fails when made again, with any number of frames and no area anywhere |
| `Mmap.UnmapPages` | osl/src/syscalls/mem.rs:184-193 | the nested loops visit each page of each run once and drop its entry unless it is not present |
| `Mmap.ProtectPages` | osl/src/syscalls/mem.rs:488-496 | the nested loops give the entry of each page of each run the new protection |
| `Mmap.MapPages` | osl/src/syscalls/mem.rs:332-417 | pages are mapped in order up to the first that cannot be backed or already has an entry; true exactly when all were |
| `Mmap.PartitionPages` | osl/src/syscalls/mem.rs:446-454 | the pages visited are, in order and once each, the mapped pages in range |
| `Pages.AlignUpIs` | osl/src/syscalls/mem.rs:71-74 | the least whole number of pages that holds a length |
| `InitialStack.BuildInitialStack` | osl/src/spawn.rs:80-194 | when everything fits, a reader following section 3.4.1 of the System V AMD64 ABI finds from RSP upwards exactly argc, the argv and envp strings and the auxiliary pairs up to AT_NULL; AT_RANDOM points at the sixteen bytes; RSP is 16-byte aligned for every number and length of strings |
| `InitialStack.StackReadsBack` | osl/src/spawn.rs:164-186 | the round trip on the memory contents alone |
| `InitialStack.RspAligned` | osl/src/spawn.rs:153-162 | the one padding word makes RSP 16-byte aligned whatever was written above |
| `InitialStack.StringReadsBack` | osl/src/spawn.rs:102-128 | each pointer leads to its string, up to the terminator and no further |
| `InitialStack.AuxReadsBack` | osl/src/spawn.rs:164-171 | the auxiliary vector reads back as its pairs |
| `InitialStack.AuxValues` | osl/src/spawn.rs:143-171 | the auxiliary vector has the header table under 3, 4 and 5, the page size 4096 under 6, the entry point under 9, 0 under 11 and the random bytes under 25 |
| `InitialStack.StackBuilder.constructor` | osl/src/spawn.rs:88-91 | an empty stack with the cursor at the top |
| `InitialStack.StackBuilder.WriteBytes` | osl/src/spawn.rs:108-112 | the bytes go just below the cursor; nothing above changes |
| `InitialStack.StackBuilder.Push` | osl/src/spawn.rs:93-96 | the little-endian word goes just below the cursor |
| `InitialStack.StackBuilder.PushStrings` | osl/src/spawn.rs:102-128 | each string with its terminator goes below the one before it; the user addresses returned are theirs |
| `InitialStack.StackBuilder.PushRandom` | osl/src/spawn.rs:130-138 | the sixteen bytes AT_RANDOM points to, and their user address |
| `InitialStack.StackBuilder.AlignCursor` | osl/src/spawn.rs:140-141 | the cursor rounded down to eight, memory unchanged |
| `InitialStack.StackBuilder.PushPad` | osl/src/spawn.rs:153-162 | one zero word exactly when RSP would end up unaligned |
| `InitialStack.StackBuilder.PushAuxv` | osl/src/spawn.rs:164-171 | the eight pairs in reading order |
| `InitialStack.StackBuilder.PushPointers` | osl/src/spawn.rs:173-183 | pointers pushed from last to first read back from first to last |
| `InitialStack.StackBuilder.PushVectors` | osl/src/spawn.rs:164-186 | everything from argc to AT_NULL, in reading order |
| `Elf.Parse` | libkernel/src/elf.rs:98-178 | which files are accepted and which error the others get; the segments are the loadable headers in order, each within the file; the table address is the last PT_PHDR's or that of the first segment holding the table |
| `Elf.FileReadsBack` | libkernel/src/elf.rs:98-178 | from a file written field by field in the ELF-64 format the parser reads back the entry point, the table and the loadable segments in order; a header is bad only for a loadable segment that runs past the end of the file |
| `Elf.PhdrReadsBack` | libkernel/src/elf.rs:127-156 | a program header written field by field reads back as its type and segment |
| `Elf.TableHeaderIs` | libkernel/src/elf.rs:135-137 | the table address comes from the last PT_PHDR header, if there is one |
| `Elf.TableInSegmentsIs` | libkernel/src/elf.rs:158-169 | without a PT_PHDR header the table address is the table offset carried into the first segment whose file bytes cover it, and 0 when none does |
| `Elf.HeaderErrors` | libkernel/src/elf.rs:99-121 | each header error names the first thing that is wrong, in the order size, magic, class, byte order, type, machine |
| `Elf.LoadsInFile` | libkernel/src/elf.rs:127-156 | every segment handed to the loader lies within the file, so the loader's slices stay in bounds |
| `Elf.FindTable` | libkernel/src/elf.rs:160-169 | the table's address in the first segment that holds it, or zero |
| `Elf.FillPage` | osl/src/elf_loader.rs:43-73 | a page of a segment holds the file's bytes where the file has them and zero elsewhere |
| `Elf.LoadSegment` | osl/src/elf_loader.rs:37-90 | adds exactly the segment's pages; stops exactly when one of them is already mapped |
| `Elf.MapStack` | osl/src/elf_loader.rs:92-110 | adds the eight zeroed stack pages |
| `Elf.LoadElf` | osl/src/elf_loader.rs:28-113 | succeeds exactly when no two segments share a page with each other or the stack and no sum overflows; the image then holds exactly those pages |
| `Elf.SegmentIsLoaded` | osl/src/elf_loader.rs:37-90 | in the loaded image the byte at vaddr+k is file[offset+k] for k < filesz and 0 for filesz <= k < memsz |
| `Elf.TableIsLoaded` | libkernel/src/elf.rs:158-169 | when the address passed as AT_PHDR agrees with a loaded segment that holds the header table, the loaded table is at that address |
| `Elf.TableIsPlaced` | libkernel/src/elf.rs:131-169 | it agrees with some segment whenever there is no PT_PHDR header and a segment holds the table; with a PT_PHDR header, exactly when that header's address is the segment's |
| `Elf.ComputeBrkBase` | osl/src/elf_loader.rs:115-121 | the least page boundary at or above the end of every segment |
| `Path.Normalize` | libkernel/src/path.rs:7-26 | the canonical spelling of the place the path leads to |
| `Path.NormalizeIsIdempotent` | libkernel/src/path.rs:7-26 | normalising keeps the place, and normalising twice is normalising once |
| `Path.NormalFormIsUnique` | libkernel/src/path.rs:7-26 | two paths have the same canonical form exactly when they lead to the same place |
| `Path.NormalizedIsClean` | libkernel/src/path.rs:7-26 | the result has no empty, `.` or `..` segment |
| `Path.SegmentsMean` | libkernel/src/path.rs:7-26 | a name leads one level down, `..` behind it leads back, `..` at the root stays there, `.` and empty segments lead nowhere else |
| `Path.Resolve` | libkernel/src/path.rs:30-42 | the canonical spelling of the path taken from the current directory |
| `Path.ResolveWalks` | libkernel/src/path.rs:30-42 | a relative path walks on from the current directory, an absolute one from the root |
| `Path.ResolveComposes` | libkernel/src/path.rs:30-42 | for nonempty a and nonempty relative b, resolving b against the resolution of a is resolving a/b, `..` past the root included |
| `Path.SplitConcat` | libkernel/src/path.rs:7-15 | splitting distributes over joining with a slash |
| `Path.SplitPath` | libkernel/src/path.rs:9-9 | the segments between slashes, empty ones included |

## Left out

- Marking a thread blocked or dead and yielding is one step everywhere: system calls run with interrupts masked (libkernel/src/syscall.rs:109-112). With an unblock in between, the ready queue could hold a duplicate.
- The scheduler model starts after `init`; the idle thread neither blocks nor dies.
- Acquire loads and release stores are atomic steps in one global order; weaker memory orders are not modelled. Copying one ring entry is one step.
- Frame 0 is not usable, regions are page-aligned and disjoint, and a frame has fewer than 65535 extra owners; only held references are shared or released.
- The page-table code of the `x86_64` crate and TLB flushes: which entry a mapping or unmapping writes is an argument of the lemmas about it, and intermediate tables are linked as separate steps. In the calls, mapping fails on an entry in use, changing flags works on one, and unmapping fails on one that is not present; this behaviour of the crate is taken as given. The four nested teardown loops are one method with the level as an argument.
- Memory.MemoryServices.UnmapAndReleaseUserPage: what the crate's `unmap` returned is an argument; `Mapping.UnmapLeaf` is about the entry it clears.
- Memory.MmapSharedPages: whether `map_to` of the crate could map each page is an argument.
- Ipc.DeliveredInOrder: is about buffered channels, like the guarantee it states; `Ipc.RendezvousAccount` and `Ipc.RendezvousTaken` are its counterparts for capacity zero.
- Several senders, several receivers or several armed operations on one channel end, whose single registration slots overwrite each other.
- Ipc.SysStepKeepsInv: leaves out an end that blocks elsewhere or dies in the middle of a call, which its code cannot do.
- Closing a completion port while messages wait in it; in ring mode the flush of plain completions is covered as reaping at arbitrary times, messages keep to the queue.
- File-descriptor transfer with a message, and descriptor accounting on failure paths.
- Ring-mode waiting in `io_ring_enter` after the submission queue has been read; a waiting consumer that blocks elsewhere is outside the loop.
- The async executor: the mailbox model ends where the receiver is scheduled. `recv_timeout` is a poll that may stop early.
- Signals.DeliverSignal: needs 448 bytes below the user RSP; with less the subtraction overflows, which is an outcome of its own. User memory is kept as aligned words, and faults on it are not modelled. The frame is placed without skipping the ABI's red zone, as in the code.
- Signals.StepKeepsInv: is about handlers that leave their frames alone and return through them; for any other use of `rt_sigreturn` only the mask is followed (`Signals.WildRun`).
- Signal delivery from interrupts and exceptions, which does not save all registers; stopping and waking threads by `kill`; the kernel pid, to which nothing is delivered.
- Gap.FindGapTopdown: sums of addresses are not cut to 64 bits; user addresses stay far below.
- The `offset` of an area is not part of the page view: splits do not adjust it. Contents of file-backed pages and `brk` are not modelled.
- Mmap.SysMmap: how many pages the frame allocator can still back, and what the descriptor names, are arguments; a process that vanishes during the call is not modelled. A frame allocated for a page that then cannot be mapped is lost, which the page table does not show. A fixed address that is not canonical stops the kernel when its first such page is reached, and one in the upper half is mapped there, beside the kernel; the model treats both like any other address.
- Elf.LoadElf: running out of frames and addresses outside the lower half stop the kernel and are not modelled; page permissions are not part of the image.
- Elf.TableIsLoaded: a PT_PHDR header whose address disagrees with the segments is passed on unchecked, as in the code.
- Elf.MapStack: the stack's pages are added by the segment loop, as a segment without file contents, although the code has a loop of its own for them.
- InitialStack.BuildInitialStack: when the strings do not fit, the unchecked writes of the code leave the stack pages; the outcome None stands for that, and nothing is said of memory then. Strings hold no NUL byte.
- Device drivers, interrupt controllers, assembly stubs, file systems, the 9P codec, line editing, compositor and demo programs: I/O or easier members.
