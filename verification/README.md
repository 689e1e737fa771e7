# Proofs about the NXT virtual machine

This project models the hardest parts of the NXT firmware and of its installer in Dafny and proves what they are
meant to guarantee. It covers six subjects.

**Memory manager.** A pool of 32768 bytes holds the program's data. A table of dope vectors, itself array 0 of the
pool, describes every array; a doubly linked list of used vectors, in order of address, and a list of free ones run
through it. `Layouts.dfy` gives every operation as a function on layouts (which arrays exist, where they lie, in
which order they are listed). `LayoutInvariants.dfy` and `CompactionProofs.dfy` prove what these functions keep.
`Vectors.dfy` and `Storage.dfy` treat the table as bytes and the contents of arrays. The class in `MemMgrs.dfy` does
the same operations in place on the byte array, reading and writing every link in the bytes of the table, and is
proved against the functions. `AllocatorRuns.dfy` has the statements over whole runs, in which PoolSize is kept next to
the layout as the code keeps it.

**Messages.** `Queues.dfy` and `Mailboxes.dfy` put the twenty message queues and the datalog on top: ring buffers of
dope vectors that behave as bounded FIFOs of byte strings, drop the oldest message when full, and compact and retry
when memory is short. `MailboxRuns.dfy` proves this over whole runs of calls in
which the program also works on arrays of its own.

**Clumps.** Clumps are the threads of a program. RunQ, RestQ and the wait queue of every mutex share one Link field
per clump. `Clumps.dfy` and `ClumpSteps.dfy` give the scheduler on sequences; `Mutexes.dfy`, `ClumpRuns.dfy` and
`ClumpOrder.dfy` prove its invariant over all runs, the order in which mutexes are granted and when sleepers are woken;
`ClumpEffects.dfy` tells what each step does to single clumps; `Threads.dfy`, `Wakings.dfy` and `Schedulers.dfy` do it
on links and prove the links against the sequences, together with the cached choice of interpreter. `Dispatching.dfy`
proves when this choice does not change what comparisons do, `Branching.dfy` the same of tests, and where both lead.

**Typed data.** The dataspace table of contents lays type trees down in preorder (`TypeTrees.dfy`).
`Dataspaces.dfy` says which bytes of the pool a nested value is made of; `Flattening.dfy` copies them to and from a
byte array; `Values.dfy` gives the value they stand for and proves both round trips; `TypedPools.dfy` does this copying
on the pool of the memory manager and proves what it leaves alone; `Orders.dfy` and `Comparing.dfy` prove that
comparing aggregates decides a total, lexicographic order.

**Algorithms.** `ShellSorts.dfy` has the shell sort, which the source holds in seven copies that differ in the element
type, and `Randoms.dfy` the MINSTD generator.

**Around the machine.** `Displays.dfy` proves drawing through byte masks against drawing pixel by pixel.
`Receivers.dfy` has the extended write of a brick that receives a file, `FileTransfers.dfy` the sending states of
another brick and the whole transfer over any link that keeps order. `Uf2Writers.dfy` has the installer's UF2 writer
and a reader that follows "File containers" in Microsoft's UF2 specification.

`Words.dfy` holds machine widths and facts about sequences.

Where the code departs from its intent, the model follows the code, and the departure is stated as an equivalence or
as a concrete input: a resize next to an array without storage, a byte size beyond 16 bits of an array or of the table,
a compaction that would have to grow the dataspace and loses PoolSize, a suspended caller that is started again, a
resting or waiting clump that is called or fired, two strings compared into a cluster, a floating-point number that
rounds to 0 negated in scalar code, a random seed of 0 or m, a message of 249 bytes sent as cut by the sender, line 64
and column 100 of the display, an inverted frame one pixel wide, an empty file in a package, names that repeat or hold a
null in a package.

Assertions in the source compile to nothing. Here they are proof obligations: each is a precondition, an `assert` or
part of an invariant.

## Model

| member | source | states |
|---|---|---|
| `LayoutInvariants.GrowInPlaceExactly` | firmware/core/src/c_cmd.c:2881-2903 | Giving an array more elements where it lies keeps the whole allocator invariant if and only if it still ends before the next storage in the list, skipping entries without storage, or before the end of the dataspace. |
| `LayoutInvariants.RoomIsGap` | firmware/core/src/c_cmd.c:2883-2896 | The room that the code measures is the true gap when the list successor has storage or there is none; otherwise it is the distance to 0xFFFF. |
| `LayoutInvariants.AtEndExactly` | firmware/core/src/c_cmd.c:2905-2944 | Allocation at the aligned end of the dataspace keeps the invariant if and only if the byte size fits 16 bits; running out of memory always keeps it. |
| `LayoutInvariants.ResizeKeepsInvExactly` | firmware/core/src/c_cmd.c:2855-2947 | A resize that reports success leaves a valid layout if and only if the request satisfies ResizeSafe (byte size in 16 bits; and shrinking, no storage yet, no successor, a successor with storage, or a size that fits the true gap or exceeds the measured one). A resize that fails always leaves one. |
| `LayoutInvariants.ResizeExactly` | firmware/core/src/c_cmd.c:2855-2947 | What a resize does, in terms of offsets: fewer elements, and more whose 16-bit size fits up to the next storage (or is at most the distance to 0xFFFF before a listed array without storage), change the count only; otherwise the array becomes the last one at the aligned end, or there is no memory if that reaches the pool maximum. |
| `LayoutInvariants.GrowKeepsInvExactly` | firmware/core/src/c_cmd.c:3129-3191 | Enlarging the table of dope vectors by any number that the assertion at 3140 lets pass, 0 among them as activation may ask (2230-2233), keeps the invariant if and only if the size of the new table fits 16 bits; running out of memory always keeps it. |
| `LayoutInvariants.GrowExactly` | firmware/core/src/c_cmd.c:3129-3191 | What enlarging the table by m does: a table of ten bytes a vector with m vectors more at the aligned end, last in the list, the new ones blank and in order in front of the free list, all others as they were; or no memory. |
| `LayoutInvariants.AllocVectorKeepsInv` | firmware/core/src/c_cmd.c:3041-3072 | Allocating a dope vector keeps the invariant, with or without enlarging the table first; the vector it yields is in use and is not the table. |
| `LayoutInvariants.AllocVectorExactly` | firmware/core/src/c_cmd.c:3041-3072 | Which vector is handed out: the first free one, or, after an enlargement by 25, the first new one; it goes to the end of the list without storage. |
| `LayoutInvariants.FreeThenAlloc` | firmware/core/src/c_cmd.c:3041-3124 | The vector freed last is the next one allocated, and both together only move it to the end of the list without storage. |
| `LayoutInvariants.FreeVectorKeepsInv` | firmware/core/src/c_cmd.c:3080-3124 | Freeing any used vector but the table keeps the invariant. |
| `AllocatorRuns.StepKeepsInvExactly` | firmware/core/src/c_cmd.c:2855-3412 | On a layout together with PoolSize, which the code keeps apart: any of the five operations (allocate, free, enlarge the table, resize, compact) leaves a valid layout whose end is PoolSize if and only if it is safe. Unsafe are, unless base, aligned end and 16-bit size together reach the pool maximum (2915, 3148), a table whose size does not fit 16 bits and a resize that ResizeSafe excludes; and a compaction with neither storage behind the last listed array nor room for all arrays rounded up to whole words. |
| `AllocatorRuns.RunKeepsInv` | firmware/core/src/c_cmd.c:2855-3412 | Over every run of safe operations the invariant holds: lists disjoint and complete, storage aligned, ascending, apart and inside the dataspace, PoolSize equal to base plus DataspaceSize and within its maximum. MemMgrs.MemMgr.Perform carries each step out on the bytes. |
| `AllocatorRuns.ListsPartition` | firmware/core/src/c_cmd.c:3282-3327 | In a valid layout every vector is on exactly one of the used and the free list. |
| `AllocatorRuns.ArraysShareNothing` | firmware/core/src/c_cmd.c:2855-2947 | In a valid layout no byte belongs to two arrays, and every byte of an array lies between the static data and the end of the dataspace. |
| `AllocatorRuns.GrowthPastUnallocated` | firmware/core/src/c_cmd.c:2886-2902 | A valid layout and a request of 8 bytes that the code grants in place although it runs over the array behind one without storage. |
| `AllocatorRuns.GrowthPastWord` | firmware/core/src/c_cmd.c:2878-2902 | A valid layout and a request whose size of 65536 bytes reads as 0 and is granted in place. |
| `AllocatorRuns.LopsidedIsReached` | firmware/core/src/c_cmd.c:2855-3072 | From a table and nothing else, two allocations around the storing of one byte reach a valid state in which the last listed array has no storage and the dataspace ends at an odd address. |
| `AllocatorRuns.CompactionCanGrow` | firmware/core/src/c_cmd.c:3352-3400 | The compacted form of that state needs a larger dataspace than before, since entries without storage are aligned for too. |
| `AllocatorRuns.UnsafeCompactionLosesPool` | firmware/core/src/c_cmd.c:3397-3400 | After any such compaction PoolSize is so large that every request for fewer than 32768 bytes is refused. |
| `CompactionProofs.PosStaysBehind` | firmware/core/src/c_cmd.c:3355-3365 | During compaction the place computed for any later array is at or below where that array still lies: every slide goes down and never over data that is still to be moved. |
| `CompactionProofs.CompactKeepsInv` | firmware/core/src/c_cmd.c:3330-3412 | Compaction keeps lists, table, alignment, order and separation of all storage and the bound on the pool. |
| `CompactionProofs.CompactShrinksExactly` | firmware/core/src/c_cmd.c:3352-3400 | The compacted dataspace is no larger than before if and only if the last listed array has storage or the static data and all arrays, each rounded up to whole words, fit the old size. |
| `CompactionProofs.CompactedIsLive` | firmware/core/src/c_cmd.c:3352-3397 | The compacted end, rounded up, is the static size plus every stored array, each rounded up to whole words. |
| `CompactionProofs.GapsAreSmall` | firmware/core/src/c_cmd.c:3355-3393 | After compaction storage begins less than four bytes after the end of the storage before it or of the static data. |
| `CompactionProofs.EndIsLast` | firmware/core/src/c_cmd.c:3355-3397 | The compacted dataspace ends exactly where the storage of the last listed array does, or at a multiple of four if that array has none. |
| `CompactionProofs.CompactIsLeast` | firmware/core/src/c_cmd.c:3330-3412 | No valid layout of the same arrays in the same order needs fewer whole words than the compacted one. |
| `CompactionProofs.CompactIsIdempotent` | firmware/core/src/c_cmd.c:3330-3412 | Compacting a second time changes nothing. |
| `Vectors.PutChangesOneField` | firmware/core/src/c_cmd.c:3228-3279 | Storing one 16-bit field at its address in the pool changes that field of that dope vector and nothing else in the table. |
| `Vectors.VectorLies` | firmware/core/include/c_cmd.h:258-265 | The five words of a dope vector lie in the order offset, element size, count, back link, link, each with its low byte first. |
| `Vectors.MovedToTail` | firmware/core/src/c_cmd.c:3228-3263 | The link surgery of moving a vector to the tail turns well-linked lists into well-linked lists with that vector last and the order of the others unchanged. |
| `Vectors.Freed` | firmware/core/src/c_cmd.c:3080-3124 | The link surgery of freeing turns well-linked lists into well-linked lists with the vector off the used list and first on the free list. |
| `Vectors.InsertedAtTail` | firmware/core/src/c_cmd.c:3266-3279 | Appending a vector to the used list keeps links and back links in agreement. |
| `Storage.InvIsConsistent` | firmware/core/src/c_cmd.c:3282-3327 | A valid layout with well-linked lists meets every condition that the memory manager checks. |
| `Storage.TestsDecideNode` | firmware/core/src/c_cmd.c:3302-3311 | The four tests made at a list node fail if and only if the node has the wrong neighbours. |
| `Storage.SlidIs` | firmware/core/src/c_cmd.c:3364-3380 | An overlapping move down followed by the 0xFF fill of what was left behind delivers the bytes and changes nothing outside the two ranges. |
| `Storage.SlideKeepsContents` | firmware/core/src/c_cmd.c:3355-3394 | One slide of compaction, of a data array or of the table itself, leaves every other array reading as before. |
| `MemMgrs.MemMgr.constructor` | firmware/core/src/c_cmd.c:2193-2205 | Storing the back links at activation turns a loaded table with forward links only into a valid state with the same layout, writing nothing but the table. |
| `MemMgrs.MemMgr.InsertAtTail` | firmware/core/src/c_cmd.c:3266-3279 | In the pool bytes: the used list gets the vector at its tail, both lists stay well linked, no description changes, no byte outside the table changes. |
| `MemMgrs.MemMgr.MoveToTail` | firmware/core/src/c_cmd.c:3228-3263 | In the pool bytes: the vector becomes the tail of the used list, the others keep their order, no description changes, no byte outside the table changes. |
| `MemMgrs.MemMgr.FreeDopeVector` | firmware/core/src/c_cmd.c:3080-3124 | The new state is valid and is the old layout with the vector freed; every other array keeps bytes, count and element size. |
| `MemMgrs.MemMgr.GrowDopeVectorArray` | firmware/core/src/c_cmd.c:3129-3191 | Status and new layout are those of the layout function, the state stays valid, and every array but the table keeps its bytes while the table moves. |
| `MemMgrs.MemMgr.AllocDopeVector` | firmware/core/src/c_cmd.c:3041-3072 | Status, new layout and the index handed out are those of the layout function, the state stays valid, and no array changes. |
| `MemMgrs.MemMgr.DVArrayAlloc` | firmware/core/src/c_cmd.c:2855-2947 | Status and new layout are those of the layout function, also for byte sizes beyond 16 bits; the state is valid afterwards if and only if the request failed or was safe; every other array is unchanged and the resized one keeps its common prefix. |
| `MemMgrs.MemMgr.VerifyMemMgr` | firmware/core/src/c_cmd.c:3282-3327 | On any table whose forward links end, the check answers true if and only if offsets ascend, neighbours agree and the two lists hold as many vectors as the table says. |
| `MemMgrs.MemMgr.ValidPassesVerify` | firmware/core/src/c_cmd.c:3282-3327 | Every valid state passes the check. |
| `MemMgrs.MemMgr.DSCompact` | firmware/core/src/c_cmd.c:3330-3412 | The new layout is the compacted one, every array but the table keeps its bytes although the walked table may itself be moved, nothing below the dynamic data changes, PoolSize is what the unsigned subtraction yields; the state is valid afterwards if and only if the compaction was safe. |
| `MemMgrs.MemMgr.Perform` | firmware/core/src/c_cmd.c:2855-3412 | Any of the five operations, carried out on the bytes of the pool: layout and PoolSize follow the step of AllocatorRuns, the state is valid afterwards if and only if the operation was safe, and no array but the one operated on changes its bytes. |
| `Queues.WriteSlot` | firmware/core/src/c_cmd.c:3436-3443 | The write slot is taken if and only if the queue is full, and then read and write index are equal (the assertion at 3439). |
| `Queues.ReadSlot` | firmware/core/src/c_cmd.c:3520-3551 | The read slot is empty if and only if the queue is, and then both indexes are equal (the assertion at 3548). |
| `Queues.FifoKeepsLast` | firmware/core/src/c_cmd.c:3419-3469 | After any run of writes the bounded FIFO holds the last n of everything that was ever in it, in order. |
| `Queues.MessageRunsAreSafe` | firmware/core/src/c_cmd.c:3419-3554 | Over every run of storing non-empty messages, dropping messages and compacting, the layout stays valid and every listed array keeps storage, so that the wrong measurement of room never arises. |
| `Queues.FailureAligns` | firmware/core/src/c_cmd.c:2912-2919 | A store that fails for want of memory leaves the end of the dataspace a multiple of four. |
| `Queues.RetryFailsExactly` | firmware/core/src/c_cmd.c:862-869 | A write that failed in its storage step fails again after compaction if and only if the compacted live size plus the message reaches the pool maximum. |
| `Queues.StorageFailureLeavesFree` | firmware/core/src/c_cmd.c:3444-3460 | The failure was one of storage, not of the table, if and only if a vector was at hand or could be made. |
| `Queues.StoreFailsExactly` | firmware/core/src/c_cmd.c:3444-3460 | A message for a slot of its own finds no memory if and only if it reaches the pool maximum behind the aligned end, or, when no vector is free, the table enlarged by 25 vectors does or the message behind it; with a vector free, failing changes nothing but the alignment of the end. |
| `Mailboxes.Mailboxes.constructor` | firmware/core/src/c_cmd.c:2207-2227 | Activation leaves twenty empty message queues and an empty datalog. |
| `Mailboxes.Mailboxes.MessageWrite` | firmware/core/src/c_cmd.c:3419-3469 | ERR_ARG for no buffer, else ERR_INVALID_QUEUE from queue 20 on, else ERR_NO_PROG without a program, else ERR_INVALID_SIZE beyond 59 bytes; otherwise the queue is the FIFO with the message appended and the oldest dropped if five were held, or on lack of memory the queue less the dropped oldest; no other queue changes. |
| `Mailboxes.Mailboxes.DatalogWrite` | firmware/core/src/c_cmd.c:3560-3607 | The same for the datalog of thirty entries of at most 60 bytes, with the status that tells of a dropped entry. |
| `Mailboxes.Mailboxes.MessageGetSize` | firmware/core/src/c_cmd.c:3472-3503 | The size of the oldest message, or the status for an empty queue, a missing program or a bad queue number. |
| `Mailboxes.Mailboxes.MessageRead` | firmware/core/src/c_cmd.c:3506-3554 | The oldest message, removed if so asked; a buffer that is too small leaves the queue alone; no other queue changes; if every listed array had storage, every one still has. |
| `Mailboxes.Mailboxes.Compact` | firmware/core/src/c_cmd.c:3330-3412 | A safe compaction leaves every queue with its messages. |
| `Mailboxes.Mailboxes.RemoteMessageWrite` | firmware/core/src/c_cmd.c:850-870 | ERR_RC_ILLEGAL_VAL for an empty message, one beyond 59 bytes or one that does not end in 0; then the statuses of a write; otherwise write, and on lack of memory compact and write again: the message is refused if and only if both writes fail, and else the queue is what an immediately successful write would have left. |
| `Mailboxes.Mailboxes.WritesAreSafe` | firmware/core/src/c_cmd.c:3419-3469 | With storage behind every listed array no message write meets an unsafe resize. |
| `MailboxRuns.Perform` | firmware/core/src/c_cmd.c:3419-3607 | Any call on mailboxes in which every listed array has storage (a write, a log entry, a read, a write from another brick, a compaction) keeps them so; every queue follows its own bounded FIFO, which needs to know nothing of the rest of the machine but whether there was memory, a read returns the oldest message, and every array that no queue holds keeps its bytes. |
| `MailboxRuns.PerformOwn` | firmware/core/src/c_cmd.c:2855-3607 | An allocator operation of the program on an array that no queue holds leaves the mailboxes valid if and only if it is safe, with every queue and every other array as it was; it leaves every listed array with storage unless it allocates one without. |
| `MailboxRuns.PerformAll` | firmware/core/src/c_cmd.c:2855-3607 | Over every run of calls with non-empty messages in which the program also resizes and frees arrays of its own, to sizes that fit 16 bits, the mailboxes refine twenty message FIFOs and the datalog, independent of one another and of the program; each call has its status, each message read is the oldest of its FIFO at that time, no write ever meets an unsafe resize, and the arrays of the program that the run does not name keep their bytes. |
| `Clumps.AddKeepsSeparateExactly` | firmware/core/src/c_cmd.c:2377-2404 | Putting a clump on a queue keeps every clump in at most one place if and only if it was on no queue. |
| `Clumps.TakeOffKeepsSeparate` | firmware/core/src/c_cmd.c:2408-2456 | Taking a clump off its queue keeps the others apart and leaves it on no queue. |
| `Threads.Appended` | firmware/core/src/c_cmd.c:2377-2404 | After the stores of enqueueing, the links again lead from head to tail through exactly the queue with the clump at its end, all other queues are linked as before, and clumps on no queue have no link. |
| `Threads.Removed` | firmware/core/src/c_cmd.c:2408-2456 | The same for the stores of dequeueing, at the head, in the middle and at the tail. |
| `Threads.RotatedLists` | firmware/core/src/c_cmd.c:2459-2492 | The same for the stores of rotating. |
| `Mutexes.AcquireKeeps` | firmware/core/src/c_cmd.c:2555-2580 | Acquiring appends the running clump to the line of that mutex (owner first, then waiters) and to no other; all queues stay separate. |
| `Mutexes.ReleaseKeeps` | firmware/core/src/c_cmd.c:2626-2649 | Releasing takes the first off the line of that mutex and no other, and makes the next one runnable. |
| `Mutexes.StopOneEffects` | firmware/core/src/c_cmd.c:2600-2682 | Stopping a clump without active callee: it is on no queue and in no line, each line merely lacks it, RunQ is the old one without it followed by the heirs of its mutexes, RestQ merely lacks it, its fire count is its first one and its time is 0. |
| `ClumpSteps.LastCalleeIsOne` | firmware/core/src/c_cmd.c:2651-2661 | The clump at the end of a chain of calls does not depend on how the absence of cycles is witnessed. |
| `ClumpRuns.WakeKeepsQueues` | firmware/core/src/c_cmd.c:2695-2713 | Waking moves exactly the due clumps from RestQ to RunQ; nobody else moves and every clump stays in one place. |
| `ClumpRuns.DueKeepsOrder` | firmware/core/src/c_cmd.c:2695-2713 | Due clumps from the front of RestQ come before those from its back; so do the ones that keep sleeping. |
| `ClumpRuns.RoundRobin` | firmware/core/src/c_cmd.c:2459-2492 | In n rotations of an n-clump RunQ every clump is the head once, in queue order, and the queue is then as before. |
| `ClumpRuns.FireKeepsQueuesExactly` | firmware/core/src/c_cmd.c:2715-2747 | Firing a dependent keeps every clump in one place if and only if its fire count does not reach 0 or it was on no queue. |
| `ClumpRuns.StepKeepsInvExactly` | firmware/core/src/c_cmd.c:2377-2764 | For each of the ten scheduler steps, with something to run where needed: every clump stays in one place if and only if nobody is put on RunQ while on any queue (the source asserts this of RunQ only, 2382, 5134, 6395); and the whole invariant (queues separate, mutexes with waiters owned by somebody who does not wait, suspended callers off all queues, chains of calls free of cycles) is kept if and only if, besides, nobody acquires what he owns and no suspended caller becomes runnable but by returning to it. Releasing needs no ownership. |
| `ClumpRuns.FirstIsOk` | firmware/core/src/c_cmd.c:2036-2058 | The state in which every program starts satisfies this invariant. |
| `ClumpEffects.FirstExactly` | firmware/core/src/c_cmd.c:2036-2058 | That state: the clumps of fire count 0 on RunQ, all other queues empty, mutexes free, records with their first fire counts. |
| `ClumpEffects.WakeExactly` | firmware/core/src/c_cmd.c:2695-2713 | A check at time now puts on RunQ exactly the resting clumps whose time is now or earlier, behind those that were there, and clears their times; these and the ones that keep resting stay in the order of RestQ. |
| `ClumpEffects.FireAllExactly` | firmware/core/src/c_cmd.c:2715-2747 | Every fire count goes down by as often as the clump is named, modulo 256, and RunQ grows by the clumps whose counts reach 0, in the order in which they do. |
| `ClumpEffects.ReachingOnce` | firmware/core/src/c_cmd.c:2729-2747 | A clump with fire count f > 0 that is fired less than f + 256 times is queued once if it is fired f times or more, and not otherwise. |
| `ClumpEffects.FinishExactly` | firmware/core/src/c_cmd.c:5101-5108 | The finished clump leaves RunQ and has its first fire count again; its dependents are fired. |
| `ClumpEffects.CallExactly` | firmware/core/src/c_cmd.c:5123-5149 | The callee goes behind the rest of RunQ for the caller, which notes it in the long form only; no other record changes. |
| `ClumpEffects.ReturnExactly` | firmware/core/src/c_cmd.c:4811-4826 | The caller goes behind the rest of RunQ for the callee and notes nobody; the callee has its first fire count again. |
| `ClumpEffects.CallThenReturn` | firmware/core/src/c_cmd.c:4811-4826 | A call from a lone clump and the return from it restore queues and records. |
| `ClumpEffects.SleepExactly` | firmware/core/src/c_cmd.c:2685-2693 | The running clump goes to the end of RestQ with its time to wake. |
| `ClumpEffects.AcquireExactly` | firmware/core/src/c_cmd.c:2555-2580 | A free mutex belongs to the running clump, which goes on; for another one the clump goes from RunQ to the end of the wait queue. |
| `ClumpEffects.ReleaseExactly` | firmware/core/src/c_cmd.c:2626-2649 | The first waiter owns the mutex and goes to the end of RunQ; without waiters the mutex is free. |
| `ClumpOrder.RunKeepsInv` | firmware/core/src/c_cmd.c:2377-2764 | The invariant holds over every run of steps of which each puts nobody on a second queue, lets nobody acquire what he owns and restarts no suspended caller; these are the conditions under which a step keeps it. |
| `ClumpOrder.WaitersWait` | firmware/core/src/c_cmd.c:2555-2649 | After every such run a clump waiting for a mutex is neither runnable nor resting nor waiting elsewhere, and another clump owns the mutex. |
| `ClumpOrder.LinesFollow` | firmware/core/src/c_cmd.c:2555-2682 | Every step changes the line of a mutex as acquiring, releasing or stopping says, and not otherwise. |
| `ClumpOrder.GrantedInOrder` | firmware/core/src/c_cmd.c:2555-2649 | Over every such run without stops the line of a mutex is its old line, followed by all requests since in order of arrival, less one from the front per release of the mutex while it is owned. |
| `ClumpOrder.WaiterOwnsAfter` | firmware/core/src/c_cmd.c:2555-2649 | The clump at place k of a wait queue owns the mutex after exactly k + 1 releases of it while owned, and waits until then. |
| `ClumpOrder.WokenInTime` | firmware/core/src/c_cmd.c:2685-2713 | A clump that goes to sleep until a time rests through every run in which nobody stops it and RestQ is checked at earlier times only; the next check puts it on RunQ if and only if its time has come. |
| `ClumpOrder.StopFreesEverything` | firmware/core/src/c_cmd.c:2651-2682 | Stopping acts on the last callee: it ends on no queue and owns nothing; each mutex it held belongs to its first waiter, now runnable, or is free; other owners stay. |
| `ClumpOrder.CallKeepsQueuesExactly` | firmware/core/src/c_cmd.c:5123-5149 | Calling keeps every clump in one place if and only if the callee is the caller itself or on no queue, RunQ, RestQ or wait queue. |
| `ClumpOrder.SleeperCalled` | firmware/core/src/c_cmd.c:5123-5149 | From activation with two clumps ready: the first goes to sleep, the second calls it; it is not on RunQ, so that the assertion at 5134 passes, and ends up on RunQ and RestQ. |
| `ClumpOrder.SleeperFired` | firmware/core/src/c_cmd.c:2715-2747 | From activation: a clump of fire count 1 is started and goes to sleep, another finishes and fires it; it ends up on RunQ and RestQ. |
| `ClumpOrder.ReturnKeepsQueuesExactly` | firmware/core/src/c_cmd.c:4811-4826 | Returning to a caller keeps every clump in one place if and only if the caller was on no queue. |
| `ClumpOrder.RestartedCaller` | firmware/core/src/c_cmd.c:4895-4918 | Two clumps for which starting a suspended caller is accepted and the later return puts it on RunQ twice. |
| `Wakings.WalkStep` | firmware/core/src/c_cmd.c:2701-2711 | One turn of the wake-up loop, whether or not it takes the clump off the list it walks, leads to the state after one more clump. |
| `Schedulers.Scheduler.constructor` | firmware/core/src/c_cmd.c:2036-2058 | Activation puts the clumps with fire count 0 on RunQ in order and establishes the invariant. |
| `Schedulers.Scheduler.EnQClump` | firmware/core/src/c_cmd.c:2377-2404 | The linked state stays well formed and its queues are the old ones with the clump appended; the interpreters in use match the head of RunQ. |
| `Schedulers.Scheduler.DeQInside` | firmware/core/src/c_cmd.c:2433-2453 | The dequeue loop ends although it steps onto the clump it has just unlinked, and removes exactly that clump. |
| `Schedulers.Scheduler.DeQClump` | firmware/core/src/c_cmd.c:2408-2456 | The linked state stays well formed and its queues are the old ones without the clump; the interpreters in use match the head of RunQ. |
| `Schedulers.Scheduler.RotateQ` | firmware/core/src/c_cmd.c:2459-2492 | RunQ becomes the rotated queue and the interpreters follow its new head. |
| `Schedulers.Scheduler.IsClumpOnQ` | firmware/core/src/c_cmd.c:2495-2514 | The walk answers true if and only if the clump is on the queue. |
| `Schedulers.Scheduler.AcquireMutex` | firmware/core/src/c_cmd.c:2555-2580 | The linked state becomes the one the specification gives, and the clump is suspended if and only if the mutex was taken. |
| `Schedulers.Scheduler.ReleaseMutex` | firmware/core/src/c_cmd.c:2626-2649 | The linked state becomes the one the specification gives. |
| `Schedulers.Scheduler.ReleaseAllMutexes` | firmware/core/src/c_cmd.c:2600-2624 | The loop over all mutexes, which may requeue the clump it releases, ends in the specified state. |
| `Schedulers.Scheduler.StopClump` | firmware/core/src/c_cmd.c:2651-2682 | The recursion along calls ends, and stops the last callee as specified. |
| `Schedulers.Scheduler.SleepClump` | firmware/core/src/c_cmd.c:2685-2693 | On the links, the running clump moves to the end of RestQ with its time to wake. |
| `Schedulers.Scheduler.CheckRestQ` | firmware/core/src/c_cmd.c:2695-2713 | Walking a list that it edits, the method moves exactly the resting clumps whose time to wake is not later than now to the end of RunQ, in order, and clears their times; the rest keep theirs, and the answer tells whether there was any such clump. |
| `Schedulers.Scheduler.SchedDependents` | firmware/core/src/c_cmd.c:2715-2747 | Each fire count goes down by the number of times that its clump is named, modulo 256, and RunQ grows by those that reach 0, as they do. |
| `Schedulers.Scheduler.FinishClump` | firmware/core/src/c_cmd.c:5101-5108 | On the links: the finished clump leaves RunQ with its first fire count, its dependents are counted down and queued. |
| `Schedulers.Scheduler.SubCall` | firmware/core/src/c_cmd.c:5123-5149 | Caller leaves RunQ, callee joins it, also if that is the caller itself; only the long form notes the callee. |
| `Schedulers.Scheduler.SubRet` | firmware/core/src/c_cmd.c:4811-4826 | On the links: callee leaves RunQ with its first fire count, caller joins it and has no callee any more. |
| `Schedulers.Scheduler.StartClump` | firmware/core/src/c_cmd.c:4895-4918 | A clump is put on RunQ if and only if it was on no queue at all. |
| `Schedulers.Scheduler.Perform` | firmware/core/src/c_cmd.c:2377-2764 | Every step of a program that puts nobody on a second queue, carried out on the links, yields exactly the specified state, and keeps the invariant if and only if it is one of those that StepKeepsInvExactly tells. |
| `Dispatching.Scan` | firmware/core/src/c_cmd.c:2084-2160 | The scan of a clump, which gives up early, reports scalar if and only if no instruction of the clump needs the general interpreter, for both instruction sizes. |
| `Dispatching.ScalarsAsAggregates` | firmware/core/src/c_cmd.c:4397-4455 | Comparing two scalars through the aggregate routine gives the result of comparing them directly. |
| `Dispatching.FastDispatchExactly` | firmware/core/src/c_cmd.c:5683-5846 | For a comparison in a clump found scalar, both interpreters take the same action and program counter change if and only if it does not compare two strings into a cluster. |
| `Dispatching.IntoClusterStores` | firmware/core/src/c_cmd.c:5978-6128 | When two strings are compared into a cluster of integers, the scalar interpreter stores nothing, as there is no setter for clusters; and the recursion of the general one over the fields of the cluster, with the elements of the two strings advancing by their element sizes, stores in field i the result for bytes i of both, behind the ends of the strings too. |
| `Dispatching.FieldsGetElements` | firmware/core/src/c_cmd.c:6104-6125 | The loop over the fields of a cluster, with two arrays as sources: one result per field, field i from elements i. |
| `Dispatching.StringsIntoCluster` | firmware/core/src/c_cmd.c:2132-2140 | A program of one instruction that the scan lets pass: the general interpreter works element by element, which sets the one byte of the cluster, and the scalar one hands its one result to a setter that stores nothing. |
| `Dispatching.HeadRunsAsGeneral` | firmware/core/src/c_cmd.c:1965-1977 | In every valid scheduler state with a non-empty RunQ whose hints come from the scan, a comparison of the head clump has the outcome of the general interpreter if and only if it does not compare two strings into a cluster in a clump found scalar. |
| `Branching.DecodeExactly` | firmware/core/include/c_cmd.h:657-665 | An instruction word put together from size, short flag, comparison code and operation code decodes into them; size 14 stands for the size in the next word. |
| `Branching.IntegersCompareExactly` | firmware/core/src/c_cmd.c:4360-4383 | For two integers both interpreters store the comparison, or branch exactly if it holds: BRCMP by its argument as a signed distance, BRCMPABSVAR to it, else 4 bytes on. The integers count as what they are, but where one has an unsigned type a negative one counts as 2 to the 32 more. |
| `Branching.AggregatesCompareExactly` | firmware/core/src/c_cmd.c:5683-5846 | For two aggregates the result stored or branched on is the order of their values, in the general interpreter unless it works element by element, and for two arrays in the scalar one. |
| `Branching.CanDifferExactly` | firmware/core/src/c_cmd.c:5683-5846 | On which comparisons there are operand values that make the two interpreters differ, by the kinds of operands and destination. |
| `Branching.ScanFinds` | firmware/core/src/c_cmd.c:2113-2150 | Which comparisons the scan counts as needing the general interpreter, by the kinds of operands and destination. |
| `Branching.IntegersTestExactly` | firmware/core/src/c_cmd.c:4932-5099 | For an integer both interpreters negate or test against zero alike; an unsigned number of 2 to the 31 or more tests as negative. |
| `Branching.NothingIsZero` | firmware/core/src/c_cmd.c:4967-4972 | In the scalar interpreter a test of NOT_A_DS_ID is a test of 0. |
| `Branching.TestsAgreeExactly` | firmware/core/src/c_cmd.c:4932-5099 | The interpreters of two-argument instructions agree on every test, and on a negation if and only if the operand is no aggregate and no floating-point number other than 0 that rounds to 0. |
| `Branching.HeadTestsAsGeneral` | firmware/core/src/c_cmd.c:1965-1977 | In every valid scheduler state whose hints come from the scan, a negation or test of the head clump does what the general interpreter does, if and only if it does not negate such a floating-point number in a clump found scalar. |
| `TypeTrees.NextDSElement` | firmware/core/src/c_cmd.c:4048-4078 | The next element is the one right behind the whole type tree at an element, or none at the end of the table. |
| `TypeTrees.CompareDSType` | firmware/core/src/c_cmd.c:4082-4120 | True if and only if the two type trees are equal but for their offsets. |
| `Dataspaces.IndexesDecide` | firmware/core/src/c_cmd.c:4124-4171 | Where a value keeps its scalars depends on the bytes of its dope vector indexes only. |
| `Dataspaces.ScalarBlock` | firmware/core/src/c_cmd.c:4140-4144 | Handling an array of scalars as one block covers exactly the bytes that element by element handling covers, in the same order. |
| `Flattening.Dataspace.CalcFlattenedSize` | firmware/core/src/c_cmd.c:4124-4171 | The size is the number of scalar bytes, modulo 2 to the 16. |
| `Flattening.Dataspace.Flatten` | firmware/core/src/c_cmd.c:4175-4230 | The byte array receives the scalar bytes of the value in preorder, the offset advances by exactly their number, and nothing else in the pool changes. |
| `Flattening.Dataspace.Unflatten` | firmware/core/src/c_cmd.c:4232-4287 | The bytes go to the scalar places of the value in preorder, the offset advances by exactly their number, and nothing else in the pool changes. |
| `Values.UnflattenThenFlatten` | firmware/core/src/c_cmd.c:4175-4287 | Unflattening any block of the right length into a template and flattening the template gives the block, and shape is kept. |
| `Values.FlattenThenUnflatten` | firmware/core/src/c_cmd.c:4175-4287 | Flattening a value and unflattening it into a template of its type and shape makes the template worth the same, down to every scalar of nested arrays and clusters. |
| `Values.BytesDecideValue` | firmware/core/src/c_cmd.c:4175-4287 | Two values of one type and shape with equal flattened bytes are equal. |
| `TypedPools.MayFlatten` | firmware/core/src/c_cmd.c:4175-4230 | A value of the program whose nested arrays are in use lies apart from every array that is not among them, so that it may be flattened there. |
| `TypedPools.FlattenInto` | firmware/core/src/c_cmd.c:4175-4230 | On the pool of the memory manager: a value whose nested arrays are in use is flattened into another array; the manager stays valid with its layout, that array gets exactly the bytes, and every other array keeps its own. |
| `TypedPools.UnflattenOutOf` | firmware/core/src/c_cmd.c:4232-4287 | On the pool of the memory manager: out of an array into a value; the manager stays valid with its layout, the scalars get exactly the bytes, and every array that the value does not have keeps its own. |
| `Orders.CmpIsSign` | firmware/core/src/c_cmd.c:4360-4383 | The order on values is antisymmetric, and only equal values compare equal. |
| `Orders.CmpIsTransitive` | firmware/core/src/c_cmd.c:4416-4525 | The order on values is transitive, also in its equality. |
| `Orders.CmpIsLexicographic` | firmware/core/src/c_cmd.c:4416-4525 | One list of elements is smaller if and only if at the first place where they differ it ends or has the smaller element. |
| `Orders.CodesAgree` | firmware/core/src/c_cmd.c:4360-4383 | The six comparison codes agree with one another and with equality. |
| `Orders.CodesOfIntegers` | firmware/core/src/c_cmd.c:4365-4370 | Codes 0 to 5 are less, greater, at most, at least, equal and unequal of two integers. |
| `Comparing.CompareIsOrder` | firmware/core/src/c_cmd.c:4360-4383 | For two integers of one type, comparing their 32-bit images, unsigned for odd type codes, is comparing the integers. |
| `Comparing.NumberExactly` | firmware/core/src/c_cmd.c:3877-3899 | The six integer types: 1, 1, 2, 2, 4 and 4 bytes, lowest first; odd type codes from 0 on, even ones in two's complement. |
| `Comparing.GetScalarVal` | firmware/core/src/c_cmd.c:3865-3904 | The accessor yields the integer stored in little-endian order, with its sign extended, as a 32-bit unsigned number. |
| `Comparing.RecursiveCompareAggregates` | firmware/core/src/c_cmd.c:4416-4525 | The comparison is finished if and only if the values differ, and then its result is the one the order demands; the shortcut for EQ and NEQ on unequal counts changes nothing. |
| `Comparing.CompareAggregates` | firmware/core/src/c_cmd.c:4397-4413 | For all six codes the result is the order on values. |
| `ShellSorts.NextGapIsSmaller` | firmware/core/src/c_cmd.c:6674-6677 | Every gap is followed by a smaller one, and only gap 1 by 0. |
| `ShellSorts.GapsEndInOne` | firmware/core/src/c_cmd.c:6657-6679 | The gaps strictly decrease and the last pass has gap 1. |
| `ShellSorts.Sink` | firmware/core/src/c_cmd.c:6664-6672 | One insertion extends the part that is in order along chains of the gap by one element and permutes the array. |
| `ShellSorts.ShellSort` | firmware/core/src/c_cmd.c:6657-6679 | For every length the array ends sorted and is a permutation of the input. |
| `Randoms.NoOverflow` | firmware/core/src/c_cmd.c:10002-10010 | For every seed that can occur, both products and their difference fit signed 32 bits. |
| `Randoms.NextIsProduct` | firmware/core/src/c_cmd.c:10002-10010 | For a seed from 1 to m - 1 the step yields a times the seed modulo m, again from 1 to m - 1. |
| `Randoms.NextIsInjective` | firmware/core/src/c_cmd.c:10002-10010 | Different seeds have different successors. |
| `Randoms.NextIsOnto` | firmware/core/src/c_cmd.c:10002-10010 | Every seed from 1 to m - 1 is the successor of one, so that the step permutes them. |
| `Randoms.StepsArePowers` | firmware/core/src/c_cmd.c:10002-10010 | n steps yield the n-th power of a times the seed modulo m. |
| `Randoms.ReseedIsGoodExactly` | firmware/core/src/c_cmd.c:9977-10012 | After a reseed the generator yields good numbers if and only if the argument is not m, an argument of 0 does not meet a clock of 0 or m, and a negative argument meets a good earlier seed; otherwise it yields m for ever. |
| `Randoms.RandomEx.Call` | firmware/core/src/c_cmd.c:9977-10014 | A reseed sets the argument, or for 0 the clock if it is not negative and else 1, or for a negative argument the seed of the last reseed; otherwise the seed is multiplied by 48271 modulo 2147483647. |
| `Displays.MaskIsPixels` | firmware/core/src/c_display.c:86-109 | Drawing a byte through a mask changes each pixel of the mask as its pixel function does, and no other. |
| `Displays.RowMaskBits` | firmware/core/src/c_display.c:374-381 | The mask computed for a row of bytes has exactly the bits of the pixels between the two ends. |
| `Displays.InvertTwice` | firmware/core/src/c_display.c:103-109 | Inverting the same pixels twice restores the buffer. |
| `Displays.DrawRectDraws` | firmware/core/src/c_display.c:86-109 | Drawing each pixel of a rectangle on its own changes exactly the pixels of the rectangle that are on the screen. |
| `Displays.RectPixels` | firmware/core/src/c_display.c:103-109 | The three ways of drawing a rectangle set, clear and turn over its pixels on the screen and leave all others. |
| `Displays.Screen.LineX` | firmware/core/src/c_display.c:329-357 | For all arguments the buffer is the one that drawing each pixel of the line on its own gives, line 64 being drawn just behind the screen. |
| `Displays.RowLineExactly` | firmware/core/src/c_display.c:329-357 | It is what drawing each pixel that is on the screen gives, if and only if it is not line 64, whose bytes lie behind the screen, or that line has these pixels already. |
| `Displays.Screen.LineY` | firmware/core/src/c_display.c:361-397 | For all arguments the buffer is the one that drawing each pixel of the line on its own gives, column 100 being drawn in column 0 eight lines lower. |
| `Displays.ColumnLineExactly` | firmware/core/src/c_display.c:361-397 | It is what drawing each pixel that is on the screen gives, if and only if it is not column 100, or the pixels that this draws in column 0 are so already. |
| `Displays.LinesBeside` | firmware/core/src/c_display.c:335-367 | On a blank display line 64 sets a pixel behind the screen, and column 100 one of column 0. |
| `Displays.Screen.FillScreen` | firmware/core/src/c_display.c:421-463 | For all arguments the buffer is the one that drawing on its own each pixel of the rectangle that is on the screen gives, its far corner being computed in 8 bits. |
| `Displays.Screen.Frame` | firmware/core/src/c_display.c:399-407 | For all arguments the buffer is that of the three lines with their corners computed in 8 bits. |
| `Displays.FrameLinesAreFrame` | firmware/core/src/c_display.c:399-407 | For a frame whose corners fit 8 bits and that does not lie along line 64 or column 100 these lines are the pixels of its upper, left and right side that are on the screen, one after the other. |
| `Displays.FrameExactly` | firmware/core/src/c_display.c:399-407 | Each pixel of the frame that is on the screen is drawn once and no other changes, if and only if it is not an inverted frame one pixel wide whose second line is on the screen. |
| `Receivers.GoodMessage` | firmware/core/src/c_comm.c:404-631 | A message cut into chunks in any way, the first not as long as the rest: the file grows by the data, and the only reply, to the last chunk, gives its length. |
| `Receivers.GoodCommand` | firmware/core/src/c_comm.c:404-631 | The same for a write to any handle, with or without reply: only a write to the open file lengthens it, and if no reply is wanted there is none. |
| `Receivers.ReplySays` | firmware/core/src/c_comm.c:404-465 | A reply is 0x02, 0x83, 0, the handle and the number of bytes modulo 2 to the 16, low byte first. |
| `Receivers.MistakenMessage` | firmware/core/src/c_comm.c:573-631 | A message whose first chunk is as long as the rest: that chunk is acknowledged at once as if it were all, the rest is read as commands, and the file grows by the data of the first chunk and ends at least three bytes short of the whole, whatever the rest may spell. |
| `Receivers.StrayChunks` | firmware/core/src/c_comm.c:573-631 | Chunks that are read as commands although they are data leave the mode at the end as it was and lengthen the file by at least a header less than they hold. |
| `Receivers.Receiver.Receive` | firmware/core/src/c_comm.c:404-631 | File, counter, mode and reply after one chunk are those of the specification on values, for write commands with and without reply, continued writes, and other commands. |
| `Receivers.Receiver.ReceiveMessage` | firmware/core/src/c_comm.c:404-631 | The state after all chunks of a message, and the replies to them, are those of the specification. |
| `FileTransfers.Sender.SendWrite` | firmware/core/src/c_comm.c:2105-2147 | Header and first bytes of the next message; bytes read and bytes to go still make the file. |
| `FileTransfers.Sender.SendMessage` | firmware/core/src/c_comm.c:2105-2184 | The chunks of a message add up to the size it declares and carry the next bytes of the file. |
| `FileTransfers.Sender.WriteAck` | firmware/core/src/c_comm.c:2187-2226 | Only the expected acknowledgement moves the sender on, to the next message or to the end; a timeout gives up. |
| `FileTransfers.Sender.AwaitAck` | firmware/core/src/c_comm.c:2187-2226 | The wait ends: with the next message or the end of the file after an acknowledgement, given up without one. |
| `FileTransfers.AcknowledgesExactly` | firmware/core/src/c_comm.c:2187-2199 | The sender takes for an acknowledgement exactly the replies of success for its handle, to any number of bytes. |
| `FileTransfers.AsSentDelivers` | firmware/core/src/c_comm.c:2125-2147 | The chunks as sent make up the message, and the receiver trusts them if and only if the message does not carry 249 bytes. |
| `FileTransfers.ReceivedSoFar` | firmware/core/src/c_comm.c:573-631 | After any number of messages the received file is what was sent so far if none of them was mistaken for a short one, and shorter than that otherwise. |
| `FileTransfers.Transfer` | firmware/core/src/c_comm.c:2105-2226 | Over every link that relays in order and whatever replies are heard after a mistaken message: the transfer ends, and the received file is the source file if and only if no message was mistaken for a short one; then it took the least possible number of messages. |
| `FileTransfers.ArrivesExactly` | firmware/core/src/c_comm.c:573-592 | Over a link that keeps the chunks as sent the received file is the source file if and only if its size modulo 59995 is not 249. |
| `FileTransfers.TransferAsSent` | firmware/core/src/c_comm.c:573-592 | The same of the two bricks: their files are equal at the end if and only if the size modulo 59995 is not 249. |
| `FileTransfers.LostBytes` | firmware/core/src/c_comm.c:581-603 | Of a file of 249 zero bytes 123 arrive, and the reply to the first chunk is an acknowledgement that the sender accepts for all of it. |
| `Uf2Writers.FileBlocksLength` | firmware/installer/mksfx.py:127-132 | The blocks written for the rest of a file are as many as the rounded-up quotient says, 512 bytes each. |
| `Uf2Writers.BlockFields` | firmware/installer/mksfx.py:147-163 | A reader finds in a block its magic numbers, place, length, number, total and size, the bytes, and the name. |
| `Uf2Writers.BlockStartsAndEnds` | firmware/installer/mksfx.py:148-163 | The first twelve and the last four bytes of a block, as the UF2 specification gives them for a block of a file. |
| `Uf2Writers.PayloadIsGreatest` | firmware/installer/mksfx.py:127-131 | A block carries the greatest number of bytes up to 466 that there are and that leave room for the name and a null. |
| `Uf2Writers.PackableExactly` | firmware/installer/mksfx.py:123-158 | A package can be written if and only if names are ASCII of at most 150 characters, no file is empty, and sizes and the number of blocks fit 32 bits. |
| `Uf2Writers.AllIsNumbered` | firmware/installer/mksfx.py:140-170 | The package consists of whole blocks numbered from 0 on, each with the total, and their number is the total. |
| `Uf2Writers.NumberedAt` | firmware/installer/mksfx.py:148-158 | Block i of a numbered package says i and the total. |
| `Uf2Writers.RoundTripExactly` | firmware/installer/mksfx.py:117-171 | Reading the package gives every file under its name byte for byte if and only if no name holds a null and files of one name have the same bytes; and then it gives no other names. |
| `Uf2Writers.MkUf2` | firmware/installer/mksfx.py:117-171 | The writer succeeds if and only if all names are ASCII of at most 150 characters, no file is empty and all counts fit 32 bits; its output is the specified package, and the first offending file decides the error. |

## Left out

- MemMgrs.MemMgr.FreeDopeVector: the store of a back link through an empty FreeHead (firmware/core/src/c_cmd.c:3118) is guarded as the like stores at 3059 and 3179 are.
- Vectors.Freed: the same store is guarded.
- MemMgrs.MemMgr.GrowDopeVectorArray: a table whose size does not fit 16 bits makes the source write vectors beyond the pool; that request, which LayoutInvariants.GrowKeepsInvExactly shows to break the layout, is not carried out on the bytes.
- MemMgrs.MemMgr.DVArrayAlloc: a request whose size wraps and whose old elements would be copied to beyond the pool is not carried out on the bytes; every other one is.
- MemMgrs.MemMgr.Perform: the same two requests are excluded.
- MemMgrs.MemMgr.VerifyMemMgr: demands that the forward links of both lists end; on a cyclic list the source does not return. Back links must name vectors of the table.
- Mailboxes.Mailboxes.MessageWrite: demands a safe resize when a reused vector grows; MailboxRuns.PerformAll discharges this over runs of non-empty messages.
- Mailboxes.Mailboxes.DatalogWrite: the same.
- Mailboxes.Mailboxes.RemoteMessageWrite: the same.
- Mailboxes.Mailboxes.Compact: a compaction that needs a larger dataspace is excluded; with storage behind every listed array it does not arise.
- MailboxRuns.PerformAll: empty messages, which get no storage, are excluded, and so is allocating an array without storage during a run, after which a write may meet an unsafe resize.
- MailboxRuns.Perform: empty messages, and states in which a listed array has no storage, are excluded.
- MailboxRuns.PerformOwn: the two requests that MemMgrs.MemMgr.Perform excludes.
- Schedulers.Scheduler.FinishClump: program counters, priorities and breakpoints are not part of the model, and a clump that stops itself while it runs is covered as far as queues and mutexes go only.
- Schedulers.Scheduler.Perform: a step that puts a clump on a second queue, which ClumpRuns.StepKeepsInvExactly shows to break the queues, is not carried out on the links.
- Schedulers.Scheduler.SchedDependents: the same.
- Schedulers.Scheduler.SubCall: the same.
- Schedulers.Scheduler.SubRet: the same.
- Schedulers.Scheduler.StopClump: a cyclic chain of calls, on which the recursion of the source does not end, is excluded.
- Schedulers.Scheduler.SleepClump: time is an unbounded number, without the wrap-around of the millisecond clock.
- ClumpOrder.RunKeepsInv: a caller suspended by the short form of a call is not noted anywhere, so that keeping it from being restarted is left to the run.
- Dispatching.FastDispatchExactly: fetching a scalar and comparing two aggregates are parameters, the same for both interpreters; arguments must name elements of the dataspace. The other instructions of the two interpreters are not modelled.
- Dispatching.IntoClusterStores: the recursion is modelled for destinations without arrays; into an array it allocates storage. What is stored is told by address, not written to the pool.
- Mutexes.AcquireKeeps: acquiring a mutex that the running clump owns is excluded; ClumpRuns.StepKeepsInvExactly shows it to break the invariant.
- Dispatching.HeadRunsAsGeneral: the same as for FastDispatchExactly.
- Branching.TestsAgreeExactly: fetching a scalar as an integer, rounded if it is a floating-point number, and whether it is 0 are parameters.
- TypeTrees.CompareDSType: tables of fewer than 32768 elements.
- TypeTrees.NextDSElement: tables of fewer than 32768 elements, since the sanity check masks the top bit.
- Flattening.Dataspace.Flatten: dope vectors are read from a sequence beside the pool, which TypedPools ties to the table in the same pool, and the byte array must not overlap the data.
- Flattening.Dataspace.Unflatten: no scalar byte may be part of a dope vector index, and the byte array must not overlap the data.
- Comparing.RecursiveCompareAggregates: data of one type with integer leaves.
- Comparing.CompareAggregates: data of one type with integer leaves; the error for different kinds of aggregates is not modelled.
- ShellSorts.ShellSort: elements are integers, and the quotient by 2.2 is exact; single-precision division drops to the same integer for every gap of at most 32767. NaNs in the copy for floats are not modelled.
- FileTransfers.Transfer: the file system reads and writes in full and without error, a single reply arrives; opening and closing the file on the other brick are not modelled.
- Receivers.Receiver.Receive: a chunk of one or two bytes that starts like a system command is excluded, since the source then reads bytes of an earlier chunk; commands other than writes, which a mistaken message may spell by chance, are taken to leave the file alone.
- Receivers.Receiver.ReceiveMessage: stray chunks of one or two bytes that start like a system command are excluded.
- Receivers.MistakenMessage: commands other than writes, which the rest may spell by chance, are taken to leave the file alone.
- Receivers.StrayChunks: the same.
- Uf2Writers.MkUf2: a file does not change between measuring and reading it, and the characters of a name are numbers below 256.
- The element size and the sub-arrays of clusters that hold arrays or clusters (firmware/core/src/c_cmd.c:2951-3035, 3194-3225): their counting does not follow the type tree; element sizes are taken as given.
- Loading a program file beyond the state it must establish, and native code.
- Floating-point instructions, number formatting and parsing, system call wrappers, access to I/O maps.
- Drivers, menus, sensor scaling, the remaining Bluetooth sequences, and the installer's archive and wrapper files.
