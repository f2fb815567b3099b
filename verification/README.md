# MCSOS kernel core

A Dafny model of the stateful core of MCSOS, a teaching kernel in C, with proofs of what that core is for. Eight
components are modelled, each at two levels: functions on values, about which the main theorems are proved for all
inputs and all runs, and classes and methods in the form of the code (arrays, linked objects, loops, early returns,
error codes), each proved against those functions.

- **Journal and journalled file system MCSFS1J** (`Journal*.dfy`, on `BlockDevice.dfy`). A call is the sequence of block
  writes it issues; a crash is any prefix of them. Commit is atomic, recovery can be restarted, and a crash anywhere in a
  file write leaves the old files or the old files plus the new one.
- **File system MCSFS1** (`Mcsfs1*.dfy`). An invariant says which file owns which inode and block. It holds at every
  block-write boundary of every call, whatever the names, and implies the file system check. What the directory holds is
  known at every such boundary, and the calls refine a map from names to bytes exactly as long as creates steer clear of
  the neighbours of 27-byte names.
- **Page tables** (`Vmm*.dfy`). Tables form a tree; map, unmap and query refine a partial map.
- **Kernel heap** (`Kmem*.dfy`). Blocks tile the arena; first fit, split and coalesce keep it so, over the linked headers.
- **Locks** (`Mutex.dfy`, `Lockdep.dfy`, `LockOrder.dfy`). State machines over single atomic operations of any number of
  threads, in any interleaving.
- **Scheduler** (`Schedule*.dfy`). A FIFO over linked thread objects; fairness and accounting over every run.
- **Frame allocator** (`Frames.dfy`, `Pmm.dfy`). A bitmap built from an arbitrary memory map.
- **Write-back block cache** (`BlockCache*.dfy`, `BlockLayer.dfy`). A cache without eviction over devices that may fail.

`Bytes.dfy` holds little-endian fields, bits and bitmaps. `dafny verify dfyconfig.toml` takes the whole project.

Where the code does not do what one would expect of it, the model follows the code, a lemma shows an input, and another
states exactly when the expectation holds:

- names of 27 bytes in MCSFS1 (`Mcsfs1Names.LostFileRun`; `Mcsfs1Refine.RunsRefineIff`);
- memory regions at the end of the address space (`Frames.WrapFreesAll`; `Frames.GivesExact`, `Frames.TakesExact`);
- writes when the block cache is full (`BlockCacheRuns.LostWrite`; `BlockCache.WriteExact`);
- threads enqueued twice (`Scheduler.Scheduler.Enqueue`, either way);
- journals whose records change what recovery has read (`Journal.RestartFails`; `Journal.RecoveryRestarts` gives a
  sufficient condition).

## Model

| member | source | states |
|---|---|---|
| Journal.ComputeChecksum | kernel/fs/mcsfs1j/m16_mcsfs_journal.c:141-149 | the byte loop computes the 32-bit FNV-1a hash, with wrap-around, defined by recursion over the bytes |
| Journal.CommitHeaderOk | kernel/fs/mcsfs1j/m16_mcsfs_journal.c:229-235 | a commit header, its checksum taken with the checksum field zeroed, passes every test recovery puts to a header |
| Journal.LogPhasePending | kernel/fs/mcsfs1j/m16_mcsfs_journal.c:247-279 | after the log writes, whatever was on disk before, recovery would replay exactly the records of the transaction, in order, and clear the journal |
| BlockDevice.ApplyAbsorbs | kernel/fs/mcsfs1j/m16_mcsfs_journal.c:163-176 | redoing all writes of a sequence after any prefix of it gives the disk of doing them once |
| Journal.CutInLog | kernel/fs/mcsfs1j/m16_mcsfs_journal.c:247-276 | any prefix of a commit before its header leaves the home blocks as they were and a journal that reads as empty |
| Journal.CutInHome | kernel/fs/mcsfs1j/m16_mcsfs_journal.c:283-289 | once the header is on disk, any number of home writes later recovery still replays to the whole transaction |
| Journal.CommitDone | kernel/fs/mcsfs1j/m16_mcsfs_journal.c:243-290 | an uninterrupted commit has all records home, applied in order, and an empty journal |
| Journal.CommitAtomic | kernel/fs/mcsfs1j/m16_mcsfs_journal.c:243-335 | for every transaction of at most 8 records aimed outside the journal and every number of block writes after which the commit is cut off: recovery returns OK, empties the journal, and the home blocks are all old before the commit header and all new from it on |
| Journal.SamePlan | kernel/fs/mcsfs1j/m16_mcsfs_journal.c:292-335 | recovery, which re-reads the log while it overwrites the disk: as long as no record changes a journal block that has been read by then, a recovery cut off inside its replay leaves a disk on which the next one plans the very same writes |
| Journal.CutOnce | kernel/fs/mcsfs1j/m16_mcsfs_journal.c:292-335 | under that condition a recovery cut off after any number of writes leaves a disk from which recovery has the same result and return code, and which meets the condition again |
| Journal.RecoveryRestarts | kernel/fs/mcsfs1j/m16_mcsfs_journal.c:292-335 | under that condition any chain of recoveries, each cut off anywhere, then one that completes, equals one uninterrupted recovery, disk and return code |
| Journal.SafeIsStable | kernel/fs/mcsfs1j/m16_mcsfs_journal.c:292-335 | journals whose records all aim outside the journal meet the condition |
| Journal.ChecksumsDiffer | kernel/fs/mcsfs1j/m16_mcsfs_journal.c:141-149 | blocks that differ in their last bit only have different checksums |
| Journal.RestartFails | kernel/fs/mcsfs1j/m16_mcsfs_journal.c:311-333 | without the condition it is false: on any disk, for any 511 bytes, a log whose second record aims at the payload of the first recovers with OK in one go and is corrupt after a recovery cut off at its second write |
| Journal.RecoveredEmpty | kernel/fs/mcsfs1j/m16_mcsfs_journal.c:334 | on any disk a recovery that returns OK leaves an empty journal |
| BlockDevice.Device.WriteBlock | kernel/fs/mcsfs1j/m16_mcsfs_journal.c:163-176 | a write is refused out of range, fails once the fault counter is used up, and otherwise changes exactly one block and counts down |
| JournalDevice.JournalCommit | kernel/fs/mcsfs1j/m16_mcsfs_journal.c:243-290 | the commit with its loops and early returns performs the writes of the plan up to the device fault, with the return code of the plan or of the fault |
| JournalDevice.JournalRecover | kernel/fs/mcsfs1j/m16_mcsfs_journal.c:292-335 | the same for recovery, on any disk contents |
| JournalFs.StreqPadded | kernel/fs/mcsfs1j/m16_mcsfs_journal.c:129-139 | comparing a stored, padded name with a C string decides equality of the names |
| JournalFs.MetaStep | kernel/fs/mcsfs1j/m16_mcsfs_journal.c:513-541 | the first transaction takes an inode and a block that no entry owns; the disk still checks out and no file changes |
| JournalFs.FileStep | kernel/fs/mcsfs1j/m16_mcsfs_journal.c:519-551 | the second transaction adds exactly the new name with exactly its data; every other file keeps its bytes |
| JournalFs.StoreCut | kernel/fs/mcsfs1j/m16_mcsfs_journal.c:458-552 | a mounted file write cut off after any block write recovers to the old files, or, from the second commit header on, to the old files plus the new one |
| JournalFs.StoreReaches | kernel/fs/mcsfs1j/m16_mcsfs_journal.c:458-552 | the write returns OK exactly when it issues at least the writes up to that header, and then the name was new; a refused write writes nothing |
| JournalFs.FormatHolds | kernel/fs/mcsfs1j/m16_mcsfs_journal.c:337-397 | a formatted disk has an empty journal, checks out, holds no files and owns nothing twice |
| JournalRuns.WriteFileCrash | kernel/fs/mcsfs1j/m16_mcsfs_journal.c:399-552 | for every disk that recovers to one that checks out, every name, data and crash point among all block writes of the call, recovery included: recovery succeeds and yields a disk that checks out, with the old files or the old files plus the new one |
| JournalRuns.EventRepresents | kernel/fs/mcsfs1j/m16_mcsfs_journal.c:399-552 | one write, mount or crash takes a disk that stands for a map of files to one that stands for the map after the event; distinct entries keep distinct inodes and blocks |
| JournalRuns.RunRepresents | kernel/fs/mcsfs1j/m16_mcsfs_journal.c:399-653 | the same over every run of writes, mounts and crashes |
| JournalRuns.WriteFileDurable | kernel/fs/mcsfs1j/m16_mcsfs_journal.c:458-552 | a write the power lets finish is in the map exactly when it returned OK |
| JournalRuns.FormattedRuns | kernel/fs/mcsfs1j/m16_mcsfs_journal.c:337-552 | every run from a formatted disk stands for the map of its committed writes, from the empty map |
| JournalFsDevice.Streq | kernel/fs/mcsfs1j/m16_mcsfs_journal.c:129-139 | the comparison loop decides the comparison above |
| JournalFsDevice.FindDirent | kernel/fs/mcsfs1j/m16_mcsfs_journal.c:438-446 | the directory scan returns the first entry with the name, or NOENT |
| JournalFsDevice.Mount | kernel/fs/mcsfs1j/m16_mcsfs_journal.c:399-418 | recovery, then the superblock test, with the writes and return codes of the plan under any device fault |
| JournalFsDevice.WriteFileEx | kernel/fs/mcsfs1j/m16_mcsfs_journal.c:458-552 | the whole call performs the writes of the plan the crash theorems are about, cut off where the device fails |
| JournalFsDevice.ReadFile | kernel/fs/mcsfs1j/m16_mcsfs_journal.c:558-597 | on a disk that checks out a read returns NOENT, or INVAL when the buffer is too small, or exactly the bytes of the file |
| JournalFsDevice.CheckMounted | kernel/fs/mcsfs1j/m16_mcsfs_journal.c:599-653 | the checking loops accept exactly the disks the theorems call clean |
| JournalFsDevice.Fsck | kernel/fs/mcsfs1j/m16_mcsfs_journal.c:599-653 | recovery and checks; OK exactly when the disk recovers, mounts and is clean |
| JournalFsDevice.Format | kernel/fs/mcsfs1j/m16_mcsfs_journal.c:337-397 | formatting zeroes the device and writes an image that satisfies the premises of the format theorems, up to the device fault |
| Mcsfs1Layout.InodeWriteAt | fs/mcsfs1/mcsfs1.c:156-194 | writing one inode into its shared table block stores it and leaves the other 31 alone |
| Mcsfs1Layout.PutSlotAt | fs/mcsfs1/mcsfs1.c:441-445 | writing one directory entry stores it and leaves the other entries of the block alone |
| Mcsfs1State.FindIsFindIn | fs/mcsfs1/mcsfs1.c:212-236 | on any sound image, whatever its names, the directory scan finds the first slot that holds the name, counting a 27-byte name only if the next slot is free (for the last slot, if the byte behind the buffer is zero) |
| Mcsfs1State.ScanLength | fs/mcsfs1/mcsfs1.c:72-81 | the length scan of a stored name returns its length, or 28 when the name fills its 27 bytes and the byte behind the field is not zero |
| Mcsfs1Steps.AddSlot | fs/mcsfs1/mcsfs1.c:441-450 | a directory entry for a prepared inode keeps the ownership invariant |
| Mcsfs1Steps.ClearSlot | fs/mcsfs1/mcsfs1.c:547-587 | removing a directory entry keeps it |
| Mcsfs1Steps.ReplaceNode | fs/mcsfs1/mcsfs1.c:452-505 | replacing the inode of a listed file keeps it, if the new blocks are marked and belong to no other file |
| Mcsfs1Create.CreateCut | fs/mcsfs1/mcsfs1.c:397-450 | create of any name on any sound image, stopped after any of its block writes: the image is sound, the new empty file appears in the first free slot with the last write and not before, and no other slot changes; EXIST exactly for names a lookup finds; refusals write nothing |
| Mcsfs1Unlink.UnlinkCut | fs/mcsfs1/mcsfs1.c:547-587 | unlink on any sound image, stopped anywhere: sound image, the slot a lookup finds is empty from the first write on, no other slot changes; NOENT exactly for names a lookup does not find |
| Mcsfs1Unlink.ClearDirectBits | fs/mcsfs1/mcsfs1.c:297-311 | freeing clears exactly the bits of the nonzero direct entries that are in range |
| Mcsfs1Write.AllocStates | fs/mcsfs1/mcsfs1.c:276-295 | after every write of the allocation loop the image is sound and every file reads as before |
| Mcsfs1Write.MixedFile | fs/mcsfs1/mcsfs1.c:452-505 | a file read through its old inode while a write is under way has the new bytes in exactly the blocks written so far |
| Mcsfs1Write.WriteCut | fs/mcsfs1/mcsfs1.c:452-505 | write on any sound image, stopped anywhere: sound image, no other slot changes; a refused write, also one out of space halfway through its allocations, changes no file; a write cut off among its data blocks leaves the old size with new bytes in exactly the blocks written; a finished one makes the contents exactly the buffer |
| Mcsfs1Runs.SoundPassesFsck | fs/mcsfs1/mcsfs1.c:589-653 | the ownership invariant implies everything fsck tests |
| Mcsfs1Runs.OwnedBlocks | fs/mcsfs1/mcsfs1.c:589-653 | all nonzero direct entries of listed files are pairwise distinct, in the data area and marked in the bitmap |
| Mcsfs1Runs.EventExact | fs/mcsfs1/mcsfs1.c:397-587 | any call with any name, cut off at any block write, keeps the invariant, returns a code the directory allows, and leaves exactly the directory that its effect up to that point says |
| Mcsfs1Runs.RunsPassFsck | fs/mcsfs1/mcsfs1.c:397-653 | every run of create, write and unlink, of any names, each cut off anywhere, ends in an image fsck accepts |
| Mcsfs1Runs.RunsExact | fs/mcsfs1/mcsfs1.c:397-587 | over every such run the directory, names and contents, is the list of the effects of its calls, cut calls included |
| Mcsfs1Runs.BystandersKept | fs/mcsfs1/mcsfs1.c:397-587 | over every such run a file that no call names stays in its slot with its bytes |
| Mcsfs1Refine.LookupsKept | fs/mcsfs1/mcsfs1.c:212-236 | any call, cut off anywhere, leaves every lookup of another name as it was, except that of a 27-byte name in the slot in front of the one it fills or empties |
| Mcsfs1Refine.LookupChanged | fs/mcsfs1/mcsfs1.c:212-236 | that one it changes: filling the slot behind hides the file, emptying it brings the file back with its bytes |
| Mcsfs1Refine.CreatedFound | fs/mcsfs1/mcsfs1.c:72-98 | after a create that returned OK the name is found if and only if it has fewer than 27 bytes, or the slot behind its own is free (for the last slot, the byte behind the buffer is zero), or that lookup found it before |
| Mcsfs1Refine.EventRefines | fs/mcsfs1/mcsfs1.c:397-587 | on a device that does not fail one call returns a code the map of files allows, and does to the map what the code says (create adds an empty file, write replaces contents, unlink removes, every other code changes nothing) if and only if it is not a create that fills the slot behind a 27-byte name or puts one in front of a file or into the last slot |
| Mcsfs1Refine.RunsRefineIff | fs/mcsfs1/mcsfs1.c:397-587 | over every run MCSFS1 refines a map from names to byte strings, after each call, if and only if none of its creates is such a one |
| Mcsfs1Refine.ShortNamesRefine | fs/mcsfs1/mcsfs1.c:397-587 | in particular every run whose creates have names of fewer than 27 bytes refines the map |
| Mcsfs1Format.FormatRepresents | fs/mcsfs1/mcsfs1.c:313-372 | a formatted image is sound, passes fsck, lists no file and stands for the empty map |
| Mcsfs1Names.CreateSucceedsIff | fs/mcsfs1/mcsfs1.c:397-450 | on a sound image create returns OK exactly for a valid name that a lookup does not find, with a slot, an inode and a block to spare |
| Mcsfs1Names.LostFileRun | fs/mcsfs1/mcsfs1.c:397-450 | on a freshly formatted image, create any 27-byte name and then any other name: both return OK, the first file is found after the first call and by no lookup after the second |
| Mcsfs1Device.ValidName | fs/mcsfs1/mcsfs1.c:83-98 | the name test, by its loops |
| Mcsfs1Device.FindSlot | fs/mcsfs1/mcsfs1.c:212-236 | the directory scan, by its loops |
| Mcsfs1Device.CreateFile | fs/mcsfs1/mcsfs1.c:397-450 | the call performs the writes of the create plan, cut off where the device fails, with its return code, or the error of the closing flush if only that fails |
| Mcsfs1Device.UnlinkFile | fs/mcsfs1/mcsfs1.c:547-587 | the same for unlink |
| Mcsfs1Device.WriteFile | fs/mcsfs1/mcsfs1.c:452-505 | the same for write, allocation and data loops included |
| Mcsfs1Device.ReadFile | fs/mcsfs1/mcsfs1.c:507-545 | on every sound image a read returns NOENT, RANGE when the buffer is too small, or exactly the contents a lookup leads to |
| Mcsfs1Device.Fsck | fs/mcsfs1/mcsfs1.c:589-653 | the checking loops return OK exactly on the images the theorems call accepted, on devices of any size up to 4096 blocks |
| Mcsfs1Device.Format | fs/mcsfs1/mcsfs1.c:313-372 | formatting writes an image that satisfies the premises of the format theorem, or refuses a device too small or too large, or returns the error of the closing flush |
| Vmm.IndicesDetermine | src/vmm.c:13-22 | two canonical page-aligned addresses with the same four table indices are equal |
| VmmTree.WalkInjective | src/vmm.c:31-64 | in a table tree two walks that reach the same table have used the same indices |
| VmmTree.LinkKeepsQuery | src/vmm.c:31-64 | linking a zeroed frame as a new table keeps the tree and changes no query at any address |
| VmmTree.LeafQuery | src/vmm.c:83-110 | writing a leaf entry changes the query of exactly one page |
| VmmRefine.MapRefines | src/vmm.c:83-110 | a successful map adds exactly one entry, the page with its frame address and PRESENT plus the allowed flags; any failure, also one that comes after new tables have been linked, changes no query at any address |
| VmmRefine.AddressStored | src/vmm.c:83-110 | after a map that returned OK a query returns the address that was asked for if and only if that is below 2^52; above, the high bits are dropped |
| VmmRefine.MapSucceedsIff | src/vmm.c:31-110 | an unmapped page can be mapped exactly when the allocator supplies as many usable frames as its path lacks tables |
| VmmRefine.UnmapRefines | src/vmm.c:138-161 | unmap removes exactly one entry; OK exactly for mapped pages |
| VmmRefine.RunRefines | src/vmm.c:83-161 | after any calls on an empty space every page maps to what a partial map updated by the successful calls says |
| VmmDevice.AddressSpace.MapPage | src/vmm.c:83-110 | the code, on frames it reads and writes in place, does what the value-level map does, frame pool included |
| VmmDevice.AddressSpace.QueryPage | src/vmm.c:112-136 | the four-level walk answers the value-level query |
| VmmDevice.AddressSpace.UnmapPage | src/vmm.c:138-161 | the code does what the value-level unmap does |
| VmmDevice.AddressSpace.GetOrAllocNextTable | src/vmm.c:31-64 | one level: an existing table is followed, a missing one is allocated, zeroed and linked, a huge-page entry, a bad frame and an exhausted allocator are refused |
| Kmem.FirstFit | kernel/mm/kmem.c:163-172 | the search returns the first free block that is large enough |
| Kmem.AllocKeepsInv | kernel/mm/kmem.c:66-100 | handing out a block, split or whole, keeps the exact tiling of the arena, aligned positive sizes, and no two free neighbours |
| Kmem.FreeShape | kernel/mm/kmem.c:188-211 | in such a heap the two coalescing passes of a release merge at most one neighbour on each side |
| Kmem.FreeKeepsInv | kernel/mm/kmem.c:102-120 | a release keeps the tiling, the sizes and the coalescing |
| KmemLive.LiveApart | kernel/mm/kmem.c:154-174 | live payloads are 16-aligned, inside the arena and pairwise disjoint |
| KmemLive.AllocLive | kernel/mm/kmem.c:154-174 | an allocation makes exactly one more payload live, at least as large as requested; every live payload stays where it is |
| KmemLive.FreeLive | kernel/mm/kmem.c:188-211 | a release ends exactly one live payload; all others stay where they are |
| KmemLive.BytesConserved | kernel/mm/kmem.c:213-240 | used plus free bytes plus 48 per block is the size of the arena |
| KmemLive.AllocSucceedsIff | kernel/mm/kmem.c:154-174 | a request that is not refused outright succeeds exactly when its size rounded up to 16 is at most the largest-free statistic |
| KmemLive.FreeAllRestores | kernel/mm/kmem.c:102-211 | freeing all live pointers, in any order, ends with one free block of the initial size |
| KmemLive.RunKeepsInv | kernel/mm/kmem.c:154-211 | every run of allocations and releases keeps the invariant |
| KmemHeap.SplitLinked | kernel/mm/kmem.c:66-100 | the header writes of a split turn the linked list of a heap into that of the split heap |
| KmemHeap.MergeLinked | kernel/mm/kmem.c:102-120 | the header writes of a merge do the same |
| KmemHeap.Heap.Init | kernel/mm/kmem.c:122-152 | initialisation aligns the arena and leaves one free block, or refuses it |
| KmemHeap.Heap.Validate | kernel/mm/kmem.c:242-280 | on every heap the operations lead to the walk returns 0 while there are at most 1048576 blocks |
| KmemHeap.Heap.Alloc | kernel/mm/kmem.c:154-174 | the list walk and the split do what the value-level allocation does; a pointer is returned exactly when it succeeds |
| KmemHeap.Heap.Calloc | kernel/mm/kmem.c:176-186 | the product is refused when it overflows, otherwise allocated |
| KmemHeap.Heap.FreeChecked | kernel/mm/kmem.c:188-211 | for any pointer, before or after initialisation: a live one is released; null is accepted; a pointer outside the heap, unaligned, heading no block or already released is refused with its own code and changes nothing |
| KmemHeap.Heap.CoalesceForward | kernel/mm/kmem.c:102-120 | the loop merges as far as the value-level pass does |
| KmemHeap.Heap.GetStats | kernel/mm/kmem.c:213-240 | the walk returns the sums and the maximum of the value-level statistics |
| Mutex.NextKeepsInv | kernel/sync/mutex.c:14-40 | every single atomic load, store and compare-exchange of any thread keeps the mutex invariant |
| Mutex.RunKeepsInv | kernel/sync/mutex.c:14-40 | the same over every interleaving |
| Mutex.MutualExclusion | kernel/sync/mutex.c:4-40 | after any interleaving at most one thread holds the mutex, the locked word is set exactly while one does, and a nonzero owner names it |
| Mutex.CallOutcome | kernel/sync/mutex.c:14-40 | the result of every call in every interleaving: try_lock gives the mutex with OK or tells a non-holder EBUSY, tells the holder EDEADLK and nobody else; unlock releases with OK exactly for the holder and tells everybody else EPERM |
| Mutex.OnlyHolderReleases | kernel/sync/mutex.c:29-40 | no step of a thread that does not hold the mutex clears the locked word or the owner |
| Mutex.Words.TryLock | kernel/sync/mutex.c:14-27 | the code without interruption is the sequence of atomic steps of the machine |
| Mutex.Words.Unlock | kernel/sync/mutex.c:29-40 | the same for unlock |
| Lockdep.AskExact | kernel/sync/lockdep.c:27-52 | on an ordered stack a class is accepted exactly when there is room and it is above every class held; the stack stays strictly increasing |
| Lockdep.AskThenTell | kernel/sync/lockdep.c:54-72 | a release report keeps the stack ordered, and undoes the acceptance of the same class |
| Lockdep.Checker.IsHeld | kernel/sync/lockdep.c:15-25 | the scan decides membership |
| Lockdep.Checker.BeforeAcquire | kernel/sync/lockdep.c:27-52 | answer, new stack and 32-bit violation count for every class and stack |
| Lockdep.Checker.AfterRelease | kernel/sync/lockdep.c:54-72 | the same for a release report |
| LockOrder.RunKeepsInv | kernel/sync/lockdep.c:27-72 | for any number of threads that spin only after OK, in every interleaving of the spinlock operations: stacks are strictly increasing, held locks are on the stack, each lock has at most one holder and its word is set exactly while it has one |
| LockOrder.NoCycle | kernel/sync/lockdep.c:27-72 | in every reachable state the wait-for graph has no cycle |
| LockOrder.SomeHolderMoves | kernel/sync/spinlock.c:28-34 | behind every thread that spins on a held lock, at the end of its chain of waiting, there is a lock holder that does not spin on a held lock |
| LockOrder.HolderMaySpin | kernel/sync/spinlock.c:28-34 | that holder may be inside spin_lock all the same: a reachable state in which it is about to take a free lock |
| LockOrder.CanAcquire | kernel/sync/spinlock.c:28-41 | from every such state, whoever spins can still get the lock: a continuation by threads further up the order ends with the thread holding it |
| LockOrder.NoDeadlock | kernel/sync/spinlock.c:20-41 | no reachable state is a deadlock |
| LockOrder.SpinLock.TryLock | kernel/sync/spinlock.c:20-26 | the exchange wins exactly on a clear word and leaves it set |
| LockOrder.SpinLock.Unlock | kernel/sync/spinlock.c:36-41 | the store clears the word |
| Schedule.Boot | kernel/mcsos_thread.c:32-58 | the initial scheduler satisfies the invariant |
| Schedule.PushKeepsInv | kernel/mcsos_thread.c:98-116 | enqueuing a new or blocked thread keeps the invariant |
| Schedule.YieldKeepsInv | kernel/mcsos_thread.c:133-176 | yielding and blocking keep it: the queue is duplicate-free, holds exactly the ready threads, and never the current or idle one |
| Schedule.NextKeepsInv | kernel/mcsos_thread.c:98-184 | every operation keeps it |
| Schedule.Run | kernel/mcsos_thread.c:98-184 | so does every run of operations |
| Schedule.WaitsInLine | kernel/mcsos_thread.c:118-159 | until enough switches have happened a queued thread stays queued, one place further on per switch, whatever else happens |
| Schedule.Fair | kernel/mcsos_thread.c:118-184 | the thread at place k becomes current at exactly the (k+1)-th later successful yield or block, whatever enqueues, wake-ups and ticks interleave |
| Schedule.Rotates | kernel/mcsos_thread.c:133-159 | n yields rotate the line of current and queued threads by n places |
| Schedule.RoundRobin | kernel/mcsos_thread.c:133-159 | with n ready threads, n at least 1, and a current thread that is not idle, n + 1 yields restore current and queue |
| Schedule.AloneAlternates | kernel/mcsos_thread.c:118-159 | a thread that is alone gives way to idle and comes back at the second yield |
| ScheduleTotals.YieldAccounted | kernel/mcsos_thread.c:133-159 | a switch adds two to the sum of the threads' switches and one to the context switches |
| ScheduleTotals.RunAccounted | kernel/mcsos_thread.c:32-184 | in every run the threads' switches sum to twice the context switches and their ticks to the ticks |
| Scheduler.Thread.Prepare | kernel/mcsos_thread.c:60-96 | codes for bad arguments and stacks, wrap-around included; otherwise a stack pointer inside the stack, a word below a multiple of 16 |
| Scheduler.Scheduler.Init | kernel/mcsos_thread.c:32-58 | initialisation stands for the initial scheduler |
| Scheduler.Scheduler.Prepared | kernel/mcsos_thread.c:60-96 | a prepared thread becomes one more new thread of the scheduler, whose objects still stand for the abstract state |
| Scheduler.Scheduler.Enqueue | kernel/mcsos_thread.c:98-116 | the thread is linked behind the tail, or refused by state; afterwards the links are the queue with the thread at its end if it was not on the queue, and those of no list at all if it was |
| Scheduler.Scheduler.NoList | kernel/mcsos_thread.c:98-116 | linking a thread that is on the list cuts off the threads behind it or makes the links circular, and the count then fits no list |
| Scheduler.Scheduler.PickNext | kernel/mcsos_thread.c:118-131 | the head is unlinked; an empty list gives the idle thread |
| Scheduler.Scheduler.Yield | kernel/mcsos_thread.c:133-159 | on linked thread objects the call does what the value-level yield does |
| Scheduler.Scheduler.Tick | kernel/mcsos_thread.c:161-167 | one tick for the scheduler and the current thread |
| Scheduler.Scheduler.BlockThread | kernel/mcsos_thread.c:169-176 | the value-level block; refused for idle |
| Scheduler.Scheduler.MarkReady | kernel/mcsos_thread.c:178-184 | wakes exactly the blocked threads |
| Scheduler.Scheduler.ReadyCount | kernel/mcsos_thread.c:186-196 | the walk counts the queue |
| Scheduler.Scheduler.Validate | kernel/mcsos_thread.c:198-220 | for objects in any state OK vouches for the list, its length, its tail and the states on it; every state the operations lead to gets OK |
| Frames.FreeRangeIs | src/pmm.c:64-84 | freeing a range of frames clears exactly its bits and keeps counts and hint right |
| Frames.UseRangeIs | src/pmm.c:86-109 | the same for using a range |
| Frames.GivesExact | src/pmm.c:64-84 | a usable region frees exactly the frames wholly inside it if and only if it is empty, or starts at or below the last page and ends within 64 bits, or passes their end above all frames |
| Frames.TakesExact | src/pmm.c:86-109 | any other region takes exactly the frames it meets if and only if it is empty, or ends at or below the last page of the address space, or starts above all frames |
| Frames.FromMapIs | src/pmm.c:127-175 | after initialisation from any list of regions a frame is free exactly when it is not frame 0, some usable region gives it and no other region takes it |
| Frames.FreeExactly | src/pmm.c:127-175 | if every region meets its condition: a frame is free exactly when it is not frame 0, lies wholly inside some usable region, and meets no nonempty other region |
| Frames.GivesRightNeeded | src/pmm.c:127-175 | the condition cannot be spared for any usable region: the map of that region alone has the right free frames if and only if the region meets it |
| Frames.TakesRightNeeded | src/pmm.c:127-175 | nor for any other region, beside one that gives all memory |
| Frames.WrapFreesAll | src/pmm.c:50-84 | a usable region that starts above the last page and holds no frame frees every frame but frame 0 |
| Frames.OrderIrrelevant | src/pmm.c:127-175 | the order of the regions makes no difference |
| Frames.AllocLowest | src/pmm.c:177-196 | under the invariant the search from the hint returns the lowest free frame and the wrap-around search never finds any; it fails exactly when the free count is 0 |
| Frames.StepKeepsInv | src/pmm.c:177-219 | allocation, release and reservation keep the counts, the hint and frame 0 |
| Frames.AllocAfterRun | src/pmm.c:127-219 | after any map and any calls an allocation returns the lowest free frame, never frame 0, and fails exactly when no frame is free |
| Frames.FreeUndoesAlloc | src/pmm.c:177-211 | releasing the frame just allocated restores the map, and the next allocation returns it again |
| Pmm.Allocator.Put | src/pmm.c:23-33 | setting or clearing a bit changes that bit only |
| Pmm.Allocator.MarkRangeFree | src/pmm.c:64-84 | the loop over addresses, with the 64-bit rounding, frees the value-level span |
| Pmm.Allocator.MarkRangeUsed | src/pmm.c:86-109 | the same for using, and what the free count loses the reserved count gains |
| Pmm.Allocator.InitFromMap | src/pmm.c:127-175 | refused exactly for bad arguments; otherwise bits and counters are those of the value-level map |
| Pmm.Allocator.AllocFrame | src/pmm.c:177-196 | both search loops, against the value-level allocation, on any counted bitmap |
| Pmm.Allocator.ReleaseFrame | src/pmm.c:198-211 | against the value-level release, with its refusals |
| Pmm.Allocator.ReserveRange | src/pmm.c:213-219 | against the value-level reservation |
| Pmm.Allocator.IsFrameFree | src/pmm.c:221-229 | true exactly for aligned addresses of free frames |
| BlockCache.ReadReturnsView | kernel/block/block.c:119-162 | a read that returns OK returns the cached copy or else the device's; no read, hit, miss, failed or not cached for want of room, changes what any block reads as |
| BlockCache.WriteExact | kernel/block/block.c:164-194 | a write to an existing block returns OK; the block then reads as written if and only if the write found its block cached or an unused slot, or the block read so before; no other block changes |
| BlockCache.WriteBackKeeps | kernel/block/block.c:205-220 | writing a slot back, or failing to, changes what no block reads as |
| BlockCache.FlushExact | kernel/block/block.c:196-222 | a flush, also one a driver failure stops, changes no readable contents; one that returns OK has made the device equal to them |
| BlockCache.FlushAllExact | kernel/block/block.c:90-113 | the same for flushing all devices, which goes on after failures |
| BlockCacheRuns.RunRepresents | kernel/block/block.c:68-222 | while every write finds a slot, cache and devices together are plain disks over every run; at most one slot per block, clean slots equal the device |
| BlockCacheRuns.ReadsLastWrite | kernel/block/block.c:119-222 | after such a run every read that returns OK returns the last write, and a flush of everything that returns OK makes the devices the plain disks |
| BlockCacheRuns.FewBlocks | kernel/block/block.c:80-88 | a run from an unused cache that touches at most 32 blocks loses no write |
| BlockCacheRuns.LostWrite | kernel/block/block.c:179-193 | after reading 32 blocks a write to one more returns OK and is lost |
| BlockLayer.Layer.Register | kernel/block/block.c:31-46 | devices are numbered in order, up to sixteen |
| BlockLayer.Layer.LookupSlot | kernel/block/block.c:68-78 | the scan finds the first slot that caches the block |
| BlockLayer.Layer.EmptySlot | kernel/block/block.c:80-88 | the scan finds the first unused slot |
| BlockLayer.Layer.DriveWrite | kernel/block/ramblk.c:63-79 | the driver stores one block, or fails |
| BlockLayer.Layer.ReadBlock | kernel/block/block.c:119-162 | the code against the value-level read |
| BlockLayer.Layer.WriteBlock | kernel/block/block.c:164-194 | the code against the value-level write |
| BlockLayer.Layer.FlushDevice | kernel/block/block.c:196-222 | the loop against the value-level flush |
| BlockLayer.Layer.FlushEverything | kernel/block/block.c:90-113 | the loop against the value-level flush of everything |

## Left out

- Journal.RecoveryRestarts: requires that no record changes a journal block that recovery has read by then. The condition is sufficient, not necessary: a rewritten block may still parse to a record with the same effect, or to none after an error, and an exact condition would have to replay the rewritten log.
- JournalFsDevice.ReadFile: says nothing about the bytes returned from disks that do not check out.
- Mcsfs1Device.ReadFile: says nothing about images that are not sound, such as an inode with a size above 4096.
- Mcsfs1Refine.RunsRefineIff: is about runs on a device that does not fail; for cut calls `Mcsfs1Runs.RunsExact` and `Mcsfs1Runs.BystandersKept` say what the directory holds.
- Mcsfs1Device.CreateFile: the closing flush is a call that succeeds or fails and leaves the blocks alone; a write that returned is on the device. The same holds for the other MCSFS1 calls.
- VmmDevice.AddressSpace.MapPage: physical memory is keyed by frame number, and the direct-map offset and TLB invalidation are not modelled.
- VmmDevice.AddressSpace.GetOrAllocNextTable: a frame that cannot be used as a table is not put back into the pool.
- KmemHeap.Heap.Init: assumes that the arena ends below the last 256 bytes of the address space, so that address arithmetic does not wrap.
- KmemHeap.Heap.Calloc: does not model that the payload is cleared, because payload bytes are not part of the model.
- KmemHeap.Heap.FreeChecked: assumes that clients leave headers alone and store no magic number in front of a pointer they then free, because payload bytes are not part of the model.
- Mutex.RunKeepsInv: atomic operations take effect one at a time in one order; weaker memory orders are not modelled.
- LockOrder.RunKeepsInv: the same, and threads unlock only what they hold and report a release after the unlock.
- Lockdep.Checker.BeforeAcquire: does not model the recorded lock names.
- Scheduler.Scheduler.Yield: does not model the register switch, nor the wrap-around of 64-bit counters.
- Pmm.Allocator.MarkRangeFree: does not model the count of ignored frames.
- BlockLayer.Layer.ReadBlock: null buffers and drivers without operations are not modelled.
- Null arguments, which most calls refuse with an error code, are not modelled where a Dafny type excludes them.
- Serial, interrupt, trap, panic, logging and boot code, and the ELF, system call and virtual file system layers, are not modelled.
