# A verified model of the kernel's core

This project models the parts of the kernel whose correctness rests on invariants rather than on
devices, and proves what they promise. Each module follows one component:

- **ext4 write path** (`Ext4State` to `Ext4Volume` and `Ext4Places`, with the byte operations in `Bytes`): block cache, descriptors and
  inodes, the inline extent leaf, block bitmaps, reading and writing file data, directory blocks, and finally the whole
  volume. The code works on little-endian bytes in three buffers; the proofs connect it to simple things: an array of
  inodes, a map from logical to physical blocks, a byte string per file, a list of entries per directory. The last
  module puts them together: along every run of calls, finished or cut short, the disk refines a map from files to
  bytes and from directories to entries, and each call changes that map in one place.
- **Sleeping mutex** (`Ext4Mutex`): a transition system with one step per memory operation that other threads can see,
  over any number of threads and all interleavings.
- **Scheduler** (`SchedState`, `SchedInv`, `Sched`, `SchedRuns`, `SchedTimes`): tasks, run queues, wait queues, timed wake-ups, exit,
  waitpid. The class `Scheduler` holds the code; every section under the scheduler lock is one method, proved equal to
  one transition, and the invariants and the length of every sleep are proved over all runs of transitions.
- **Descriptors and pipes** (`FdState`, `FdTable`): two levels of reference counts and the pipe rings, with ghost
  histories of the bytes sent and received.
- **Signals** (`Signals`): delivery to handlers and sigreturn as a machine over user memory, with the frames on the user stack.
- **Kernels of arithmetic and algorithms**: the civil calendar (`Calendar`), 64-bit division (`DivMod`), path
  normalisation (`Path`, `PathLaws`), the console line discipline (`Console`, `ConsoleLine`), identity paging (`Mmu`), the PCI window allocator (`Pci`).

Code that changes things in place is a class or a method over arrays with loops; code that only computes is a function.
Values of the C types keep their width where it matters (`u8`, `u16`, `u32`, `du_int`, `di_int`; signal masks are `bv32`).

Assumptions of the model:

- The disk is a sequence of blocks. A transfer may fail at any time unless `reliable` is set; a failed write leaves the
  block as it was. The geometry is one that the mount code accepts, the descriptor table, inode tables and bitmaps do not
  overlap, and every block that holds metadata is marked in use (`ValidGeometry`, `ValidLayout`, `MetaUsed`).
- A file to be written is in good order: inline extents that cover exactly the blocks its size needs, none mapped past
  the end of the file (`FileOk`), and the write stays one block below 4 GiB. Shrinking opens keep old extents
  (src/fs_ext4.c:519-529), so a file after such an open is outside this.
- Sections under a lock are atomic. The number of online processors is fixed, ticks and task numbers do not wrap,
  a task that is executing is not killed from another processor, and exiting and leaving the processor is one step.
- A handler leaves the frames of interrupted contexts alone and runs below them; a task's call stack lies apart from its
  user stack. Nothing else writes the interrupt frame between reading and writing the user context.

## Model

| member | source | states |
|---|---|---|
| Ext4State.Ext4.CacheReset | src/fs_ext4.c:232-237 | after it no slot is valid, whatever the slots held |
| Ext4State.Ext4.CacheRead | src/fs_ext4.c:243-254 | a hit delivers the disk's own bytes, because a valid slot always equals the block it names |
| Ext4State.Ext4.ReadBlock | src/fs_ext4.c:294-307 | a read through the cache delivers exactly what is on disk and keeps the cache coherent |
| Ext4State.Ext4.WriteBlock | src/fs_ext4.c:309-319 | a write through the cache changes that one block or nothing, and keeps the cache coherent |
| Ext4State.QuotIsDivision | src/fs_ext4.c:400-411 | division by repeated subtraction, used throughout, is the division and remainder of the code |
| Ext4Layout.SpanIsSlice | src/fs_ext4.c:345-363 | bytes gathered from one block or two neighbours are one slice of the flat disk |
| Ext4Layout.PutSpanIsSplice | src/fs_ext4.c:459-486 | bytes scattered over one block or two neighbours are one splice into the flat disk |
| Ext4Layout.InodesDisjoint | src/fs_ext4.c:400-411 | two different inodes never share a byte |
| Ext4Places.TablePlace | src/fs_ext4.c:340-342 | the descriptor table starts in the block after the one that holds byte 1024 |
| Ext4Places.DescPlace | src/fs_ext4.c:321-387 | where each group's descriptor and the block numbers in it lie, by plain arithmetic on bytes |
| Ext4Places.InodePlace | src/fs_ext4.c:400-411 | inode numbers count from 1, group by group, through each group's table |
| Ext4Places.BitPlace | src/fs_ext4.c:694-725 | blocks count from the first data block, group by group, through each group's bitmap |
| Ext4Inodes.LoadSpan | src/fs_ext4.c:345-363 | the straddling copy loop reads exactly the span |
| Ext4Inodes.StoreSpan | src/fs_ext4.c:459-486 | the straddling read-modify-write loop replaces exactly the span |
| Ext4Inodes.ReadGroupDesc | src/fs_ext4.c:321-387 | returns the numbers stored in the group's descriptor, and refuses one with high halves or out of range |
| Ext4Inodes.ReadInode | src/fs_ext4.c:389-433 | delivers the bytes of the inode asked for; errors exactly for inode 0 and inodes past the last group when the disk is reliable |
| Ext4Inodes.WriteInode | src/fs_ext4.c:435-488 | splices the inode's bytes into the disk and changes nothing else; a failed write of an inode inside one block changes nothing at all |
| Ext4Inodes.InodesFillBlocks | src/fs_ext4.c:455-457 | where a whole number of inodes fills a block, no inode straddles two blocks |
| Ext4Inodes.WriteInodeRefinesArray | src/fs_ext4.c:435-488 | writing an inode is one update of a plain array of inodes, also where inodes straddle blocks |
| Ext4Extents.ExtentMap | src/fs_ext4.c:531-599 | the lookup loop computes the map that the leaf stands for, with the code's errors for holes and high block numbers |
| Ext4Extents.MapSpan | src/fs_ext4.c:531-599 | a well-formed leaf maps exactly the logical blocks of its span, each to a block of the disk |
| Ext4Extents.ExtentAppend | src/fs_ext4.c:896-959 | succeeds on a well-formed leaf exactly when the block continues it and fits by merging or in a free entry; a block that continues it is refused only for want of an entry; a failed append changes no byte |
| Ext4Extents.AppendKeepsLeaf | src/fs_ext4.c:919-958 | an append keeps the leaf sorted, contiguous and inside the disk, and moves its end up by one |
| Ext4Extents.AppendRefinesMap | src/fs_ext4.c:896-959 | an append turns the map m into m[l := p] for every logical block, whether it merges, starts the leaf or adds an entry |
| Ext4Extents.AppendAtLastBlockIsLost | src/fs_ext4.c:561-566 | a block appended at the last 32-bit logical block would not be mapped, because the end of its extent wraps to zero; the write loop never gets there (Ext4Write.LoopAppendIsMapped) |
| Ext4Extents.AppendMapsIff | src/fs_ext4.c:896-959 | a successful append maps its logical block if and only if the end of that block fits 32 bits |
| Ext4Alloc.MarkUsedMarksOne | src/fs_ext4.c:715-725 | setting the bitmap bit marks exactly one block and moves no table |
| Ext4Alloc.ScanBitmap | src/fs_ext4.c:715-721 | finds the first clear bit, or shows that every bit the bitmap block has is set |
| Ext4Alloc.AllocInGroup | src/fs_ext4.c:694-730 | claims a block of the group that was free, or shows that the group is full; an error changes nothing |
| Ext4Alloc.AllocBlock | src/fs_ext4.c:681-732 | claims exactly one free block, on a reliable disk one of the inode's own group as long as that has one; no space is reported only when no block of the disk is free |
| Ext4Files.DataWriteKeepsMeta | src/fs_ext4.c:309-319 | rewriting a data block changes no descriptor, no inode and no in-use bit |
| Ext4Growth.GrowWrite | src/fs_ext4.c:1189-1194 | rewriting a block of the file touches no block of anything else |
| Ext4Growth.GrowAlloc | src/fs_ext4.c:1156-1168 | claiming a block and appending it keeps the file dense, its blocks distinct and all old bytes in place |
| Ext4Growth.OverwriteBytes | src/fs_ext4.c:1059-1220 | what the specified result of a write is, byte by byte: the source bytes, else the old bytes, else zero |
| Ext4Growth.GapStep | src/fs_ext4.c:1137-1154 | a zeroed block appended in a gap reads as zeros |
| Ext4Growth.ChunkStep | src/fs_ext4.c:1174-1198 | storing a chunk brings its bytes, and the gap before them, to their final values and disturbs no other byte |
| Ext4Data.InodeWriteKeeps | src/fs_ext4.c:1210-1214 | storing the inode changes no descriptor, no in-use bit, no data block and no other inode |
| Ext4Data.AppendBlock | src/fs_ext4.c:1156-1164 | claims a block and maps it behind the file's last one; a failure loses none of the file's blocks, and on a reliable disk means that no block is free or the leaf is full |
| Ext4Data.OldChunkKeepsInv | src/fs_ext4.c:1170-1198 | storing a chunk in a block the file has keeps what the write loop relies on |
| Ext4Data.NewChunkKeepsInv | src/fs_ext4.c:1156-1198 | storing a chunk in a new block keeps what the write loop relies on |
| Ext4Data.GapKeepsInv | src/fs_ext4.c:1137-1154 | filling a gap block keeps what the write loop relies on |
| Ext4Write.ZeroTail | src/fs_ext4.c:1090-1116 | after it the rest of the last block is zero when the write starts behind that block |
| Ext4Write.WriteChunk | src/fs_ext4.c:1118-1199 | one round of the loop stores a chunk or fills a gap block and makes progress; a failed round keeps every inode and every byte of the file; on a reliable disk a round fails only where it needs a new block and none can be appended |
| Ext4Write.LoopAppendIsMapped | src/fs_ext4.c:1132-1160 | the logical blocks the loop appends, blocks of 32-bit positions, lie below 0x40_0000, so the appended block is always mapped |
| Ext4Write.RecordInode | src/fs_ext4.c:1205-1219 | reports a new size only if the inode on disk has the new size and extents; otherwise the end of file had moved, and the file is as it was up to its old size |
| Ext4Write.WriteData | src/fs_ext4.c:1059-1220 | a write that reports a new size, on whatever disk, made the contents the old ones padded with zeros and overwritten, left every other inode and block as it was and marked exactly the new blocks; a write cut short changes no inode and leaves the file the bytes stored, up to its old size; all bytes stored but no new size reported means that a write moving the end of file failed to store the inode; on a reliable disk a write falls short only past the blocks the file has, when no block is free or the leaf is full |
| Ext4Write.FinishedOrCutShort | src/fs_ext4.c:1205-1219 | a write that moves the end of file is not on disk while the inode is the old one, so such a return value without a new size is no success |
| Ext4Read.ReadData | src/fs_ext4.c:961-1013 | delivers the file's own bytes, holes as zeros; of a file in good order the contents from the offset on, on a reliable disk all up to the length asked for or the end of the file, whichever comes first; an error touches no byte of the buffer |
| Ext4Read.DeliversContents | src/fs_ext4.c:976-982 | a read of a file in good order returns no byte past the end, and stops short of the length asked for only at the end or, on an unreliable disk, at a failed transfer |
| Ext4Read.WholeFileRead | src/fs_ext4.c:961-1013 | a read from the start with a length no smaller than the file delivers the whole contents |
| Ext4Read.LeafBytesAreContents | src/fs_ext4.c:961-1013 | for a file in good order what a read delivers are the contents |
| Ext4Read.ReadsBackWrite | src/fs_ext4.c:961-1220 | reading the range of a finished write returns the bytes written, all of them on a reliable disk and as many as are returned on any other |
| Ext4Dir.ReuseRecord | src/fs_ext4.c:823-830 | reusing a free record keeps the block tiled and adds exactly one entry |
| Ext4Dir.SplitRecord | src/fs_ext4.c:831-841 | splitting a record keeps the block tiled, keeps the old entry and adds exactly one |
| Ext4Dir.AddToBlock | src/fs_ext4.c:815-843 | adds the entry to the block if and only if some record has room, and tells whether a lookup will find it |
| Ext4Dir.RemoveFromBlock | src/fs_ext4.c:875-891 | removes exactly one entry with the name if and only if a lookup finds it, and keeps all others in order |
| Ext4Dir.FindInBlock | src/fs_ext4.c:1251-1264 | the scan finds the first record that passes the code's own comparison |
| Ext4Dir.FindSound | src/fs_ext4.c:1251-1264 | whatever a lookup finds is an entry in use with that name and number |
| Ext4Dir.FindComplete | src/fs_ext4.c:1251-1264 | where no record in use is longer than 263 bytes a lookup finds a name if and only if an entry has it |
| Ext4Dir.MatchesIff | src/fs_ext4.c:882-883 | a record matches its own name if and only if the name fits the record's room cut to eight bits |
| Ext4Dir.AddedNameIsHidden | src/fs_ext4.c:1258-1259 | a name added into a free record of 264 bytes is there but no lookup finds it |
| Ext4Dir.FindAfterReuse | src/fs_ext4.c:823-830 | after reuse the new name is found if and only if it passes the cut comparison |
| Ext4Dir.FindAfterSplit | src/fs_ext4.c:831-841 | after a split the new name is found if and only if it passes the cut comparison |
| Ext4DirOps.BlockChangeKeeps | src/fs_ext4.c:786-894 | changing one block of a directory keeps the directory, all inodes, all in-use bits and all other blocks |
| Ext4DirOps.AddEntry | src/fs_ext4.c:786-846 | adds exactly one entry to the directory; a lookup of its name, if no entry had it, then finds it if and only if the name is no longer than the rest of its record cut to eight bits; no space is reported only when no record of any block has room; errors change nothing |
| Ext4DirOps.RemoveEntry | src/fs_ext4.c:848-894 | removes exactly one entry with that name; not found is reported only when no lookup finds it; errors change nothing |
| Ext4DirOps.Lookup | src/fs_ext4.c:1222-1267 | returns what the first matching record of the directory holds, an entry with that name, or that no block has one a lookup finds |
| Ext4Volume.CallKeepsVolume | src/fs_ext4.c:786-1220 | a write, finished or cut short, and an entry put in or taken out keep all files and directories in good order with no shared block |
| Ext4Volume.CallRefines | src/fs_ext4.c:786-1220 | each call changes the map of files to bytes and directories to entries in one place, as it says, and nowhere else |
| Ext4Volume.RunRefines | src/fs_ext4.c:786-1220 | so does each call of any run that starts from a volume in good order |
| Ext4Volume.FileIsItsWrites | src/fs_ext4.c:1059-1220 | after any run a file's bytes are its old ones with its own writes laid over them in order, whatever else was called |
| Ext4Volume.CallsStayPossible | src/fs_ext4.c:786-1220 | on a volume in good order the next call finds all it needs |
| Ext4Mutex.StepInv | src/fs_ext4.c:267-292 | every step of every thread keeps ownership, queue and wake-up obligations in order |
| Ext4Mutex.RunsAreSafe | src/fs_ext4.c:267-292 | over all interleavings two threads are never in the critical section, and while the mutex is free and threads are queued someone is about to serve them |
| Ext4Mutex.ParkedNeverDeadlock | src/fs_ext4.c:267-292 | while anyone is queued some thread that owns the mutex, holds the spin lock or will serve the queue can step |
| SchedInv.WakeKeeps | src/sched_task.c:942-956 | waking any set of slots keeps run queues, wait queues and states consistent |
| SchedInv.TickKeeps | src/sched.c:677-701 | a tick keeps them consistent and leaves nobody asleep past its time |
| SchedInv.OneSlotKeeps | src/sched_internal.h:159-170 | a step on one slot keeps the invariant if that slot is in order afterwards |
| SchedInv.ZombieKeepsChildren | src/sched_task.c:854-888 | a task that exits leaves no parent waiting for it |
| SchedInv.WaitChildKeeps | src/sched_task.c:1322-1345 | a waitpid parks only when no child asked for has exited |
| SchedInv.ReapKeepsChildren | src/sched_task.c:890-916 | reaping hands out a status not handed out before |
| Sched.Scheduler.ScheduleTick | src/sched.c:677-701 | is exactly the tick transition: every task whose time has come is woken, no other |
| Sched.Scheduler.SchedSpawn | src/sched_task.c:1118-1182 | starts a child of the caller with a number of its own in the first free slot, queued on the next processor in turn, and touches no other task; or fails for want of a slot or a stack |
| Sched.Scheduler.PickLocal | src/sched.c:397-415 | finds a queued slot if there is one, the lowest when it starts from 0 |
| Sched.Scheduler.PickAndRun | src/sched.c:864-902 | executes the lowest queued slot and idles only when nothing is queued |
| Sched.Scheduler.BackFromTask | src/sched.c:906-912 | queues the task again exactly if it was still running |
| Sched.Scheduler.SchedYield | src/sched_task.c:1184-1204 | offers the processor without losing the task |
| Sched.Scheduler.SchedSleepTicks | src/sched_task.c:1255-1276 | puts the task to sleep; how long it sleeps is SchedTimes.SleepLasts |
| Sched.Scheduler.WaitqSleep | src/sched_task.c:1284-1288 | parks the task in the queue; how long it stays there is SchedTimes.WaitLasts |
| Sched.Scheduler.WaitqWakeOne | src/sched_task.c:1290-1305 | wakes the lowest waiter and nobody else |
| Sched.Scheduler.WaitqWakeAll | src/sched_task.c:1307-1320 | wakes every waiter and nobody else |
| Sched.Scheduler.SchedExit | src/sched_task.c:1206-1249 | leaves a zombie with the code; of all others only the parent, if it waits for a child, changes: it can run again |
| Sched.Scheduler.SignalTerminate | src/sched_task.c:872-888 | leaves a zombie with 128 plus the signal, unless the task had already exited; of all others only a waiting parent changes |
| Sched.Scheduler.TryReapChild | src/sched_task.c:890-916 | reaps an exited child of the caller, the one with the number asked for or any, with the status of its exit code in the second byte; 0 means that children asked for exist and none has exited, the error that there are none |
| Sched.Scheduler.SchedWaitpid | src/sched_task.c:1322-1345 | reaps in the same way, or parks the task, recording whom it asked for, when there are children asked for and none has exited |
| SchedRuns.EventKeeps | src/sched.c:858-914 | every transition keeps every invariant |
| SchedRuns.ReachableIsSafe | src/sched.c:620-671 | every state reachable over any run of transitions satisfies them |
| SchedRuns.ReachableSlot | src/sched.c:858-914 | a task is runnable exactly if queued, and then once, on its own processor; running only as its processor's current task; in a wait queue exactly if its pointer names it, and then blocked or asleep; and never asleep past its time |
| SchedRuns.NoExitMissed | src/sched_task.c:1322-1345 | in no reachable state does a task sit in its child queue while a child its waitpid asked for has exited |
| SchedRuns.StatusOnce | src/sched_task.c:890-916 | each exit status is handed out at most once, is (code & 0xFF) << 8 of the code exited with, and stays so |
| SchedTimes.WokenIsReady | src/sched_task.c:942-956 | a woken task can run, is on no wait queue and on its processor's run queue; all others are untouched |
| SchedTimes.SleepLasts | src/sched_task.c:1255-1276 | along every run that does not kill it a task that slept at tick T for n ticks is asleep and on no queue before tick T + max(1, n), and is on its run queue once that tick is taken |
| SchedTimes.WaitLasts | src/sched_task.c:922-940 | so is a task that waits with a timeout and that nobody wakes; without a timeout it waits on |
| SchedTimes.KeepsGoing | src/sched.c:906-912 | a task that runs or can run goes on doing so unless it stops itself or is killed |
| FdState.CloseKeeps | src/sched_fd.c:242-261 | closing a descriptor keeps all reference counts equal to the number of descriptors they count |
| FdState.AttachKeeps | src/sched_fd.c:313-346 | so does duplicating one |
| FdState.OpenKeeps | src/sched_fd.c:554-651 | so does opening a file |
| FdState.OpenPipeKeeps | src/sched_fd.c:653-730 | so does opening a pipe |
| FdState.EndInUse | src/sched_fd.c:51-88 | a pipe end that a descriptor is open on belongs to a pipe in use |
| FdState.OFileIsFree | src/sched_fd.c:229-240 | open-file entries never run out before descriptors do |
| FdTable.TakenIsTail | src/sched_fd.c:901-906 | taking a byte removes the oldest one, across the end of the ring too |
| FdTable.PutIsAppend | src/sched_fd.c:940-945 | putting a byte appends it and overwrites none |
| FdTable.StreamsAfterRead | src/sched_fd.c:884-917 | all bytes sent are still all bytes received followed by the ring |
| FdTable.StreamsAfterWrite | src/sched_fd.c:919-952 | the same after a write |
| FdTable.FdTables.CloseSlotFd | src/sched_fd.c:242-261 | closes that descriptor and nothing else, for exactly the descriptors in use; every other descriptor names the file it named |
| FdTable.FdTables.CloseAllFds | src/sched_fd.c:263-275 | closes all descriptors of the task, no other task's, and frees no pipe still in use |
| FdTable.FdTables.CloseCloexec | src/sched_fd.c:733-752 | closes exactly the marked descriptors; the others name the files they named |
| FdTable.FdTables.DupMin | src/sched_fd.c:313-346 | the lowest free descriptor from the bound on comes to name the same open file, marked close-on-exec exactly if asked for; no other descriptor differs |
| FdTable.FdTables.Dup2 | src/sched_fd.c:348-378 | both descriptors name one open file afterwards, also when the target named the same file or the other end of the same pipe; counts stay exact |
| FdTable.Dup2Works | src/sched_fd.c:348-378 | closing the target first never frees what the source descriptor names |
| FdTable.FdTables.OpenSpecial | src/sched_fd.c:554-608 | the lowest free descriptor names a new open file of the kind asked for, in the access mode asked for and non-blocking exactly if asked for, and nothing else changes; fails exactly for other kinds and when every descriptor is in use |
| FdTable.FdTables.OpenRegular | src/sched_fd.c:610-651 | the lowest free descriptor names a new open file at offset 0 and nothing else changes; fails exactly for a bad access mode and when every descriptor is in use |
| FdTable.FdTables.OpenPipeEnds | src/sched_fd.c:653-730 | the two lowest free descriptors are the ends of a new empty pipe, one to read and one to write, and nothing else changes; fails, changing nothing, only when fewer than two descriptors or no pipe is free |
| FdTable.FdTables.InitStdio | src/sched_fd.c:125-152 | descriptors 0 to 2 and no others are open, on the three standard files |
| FdTable.FdTables.CloneTable | src/sched_fd.c:154-191 | the child has its parent's table, and every pipe counts the child's ends too |
| FdTable.CloneCounted | src/sched_fd.c:154-191 | counting descriptor by descriptor gives the parent's counts |
| FdTable.FdTables.PipeReadFd | src/sched_fd.c:884-917 | reads the oldest bytes, as many as asked for or as there are; returns 0 only when the ring is empty and no task holds a write end |
| FdTable.FdTables.PipeWriteFd | src/sched_fd.c:919-952 | appends all bytes or as many as fill the ring; fails with EPIPE exactly when no task holds a read end |
| Signals.FrameRoundTrip | src/sched_task.c:838-852 | a context stored in a frame is read back exactly |
| Signals.FrameFits | src/sched_task.c:1561-1571 | the frame lies on the user stack, aligned, below the interrupted stack pointer |
| Signals.SignalTask.SignalMask | src/sched_task.c:1408-1439 | blocks, unblocks or sets what was asked for, but never KILL or STOP |
| Signals.SignalTask.SelectSignal | src/sched_task.c:1525-1548 | ends with the lowest deliverable signal that is not ignored; every other signal it drops is unmasked and ignored, so no signal is lost |
| Signals.SignalTask.DeliverPending | src/sched_task.c:1503-1607 | makes the handler of the lowest deliverable signal run, ends the task or changes nothing, and says exactly when; of the pending signals it loses only ignored ones |
| Signals.SignalTask.Sigreturn | src/sched_task.c:1609-1660 | succeeds exactly on the newest frame with sane contents, and then resumes user code on the user stack; a refused one changes nothing |
| Signals.DeliverPushes | src/sched_task.c:1567-1606 | delivery pushes one frame and disturbs none |
| Signals.DeliverEnters | src/sched_task.c:1567-1606 | after delivery the next instruction is the handler's first, with the signal and the frame's address as arguments, a return to the restorer on the call stack, the interrupted context word by word on the user stack, and all else as it was |
| Signals.BlocksExactly | src/sched_task.c:1600 | in a handler exactly the signals blocked before, those of the action's mask and the signal itself are blocked, but never KILL or STOP |
| Signals.NotChosenAgain | src/sched_task.c:1526-1535 | while that mask stands the same signal is not chosen again, unless it is KILL or STOP |
| Signals.ReturnPops | src/sched_task.c:1609-1660 | sigreturn on the newest frame succeeds and restores what it records |
| Signals.FramesDisjoint | src/sched_task.c:1567-1589 | the frames on the user stack are pairwise disjoint, newer ones lower |
| Signals.RunsKeep | src/sched_task.c:1503-1660 | along every run of deliveries, handlers and returns the older frames stay as they were |
| Signals.NestedRestores | src/sched_task.c:1503-1660 | whatever is nested in between, the matching sigreturn restores registers, ip, stack indices and bases, mask and frame chain exactly |
| Signals.NeverMasked | src/sched_task.c:808-810 | KILL and STOP are in no mask, current or saved |
| Calendar.DaysRoundTrip | src/timedate.c:7-22 | every day number becomes a valid proleptic Gregorian date that stands for that day, negatives and era edges included |
| Calendar.SecondsRoundTrip | src/timedate.c:24-32 | every second count in that range becomes a valid time that stands for it, by section 4.16 of POSIX.1-2017 XBD extended to all years |
| Calendar.YearFitsIff | src/timedate.c:7-22 | the year fits a 32-bit int exactly from one given second count to before another |
| Calendar.RoundTripIff | src/timedate.c:7-32 | the conversion is right if and only if the second count lies in that range |
| Calendar.FirstSecondLost | src/timedate.c:7-32 | the first 64-bit second count past the range converts to a time that stands for another second |
| Calendar.ConversionIncreases | src/timedate.c:24-32 | the conversion is strictly increasing |
| Calendar.ConversionIsUnique | src/timedate.c:24-32 | no other valid time stands for the same second |
| Calendar.FloorDiv | include/kernel/timedate.h:16-23 | the corrected C quotient is the floor |
| Calendar.FloorMod | include/kernel/timedate.h:25-31 | the corrected C remainder is never negative and belongs to the floor |
| DivMod.UDivMod | src/compiler_rt_divmod.c:12-48 | quotient and remainder with A = Q*B + R and R < B for every nonzero divisor, with no intermediate value past 64 bits |
| DivMod.DivDi3 | src/compiler_rt_divmod.c:58-68 | the truncated quotient of section 6.5.5 of C11, wrapped to 64 bits |
| DivMod.ModDi3 | src/compiler_rt_divmod.c:70-79 | the remainder of section 6.5.5 of C11, for every pair with a nonzero divisor |
| DivMod.QuotFitsIff | src/compiler_rt_divmod.c:58-68 | wrapping never shows but for INT64_MIN / -1 |
| DivMod.TruncatedIff | src/compiler_rt_divmod.c:58-79 | the truncated quotient and remainder are the one pair that gives the dividend back with a remainder smaller than the divisor and of the dividend's sign |
| Path.AppendComponent | src/syscall.c:252-280 | editing the buffer is one step on a stack of names; it fails only at the length cap |
| Path.NormalizeAbsolute | src/fs_ext4.c:175-210 | gives the fold of the components over a stack; fails exactly for paths not absolute or not below the cap |
| Path.BothNormalize | src/syscall.c:282-314 | the two copies agree below the smaller cap, and differ exactly on absolute paths between the caps |
| Path.ResolvePath | src/syscall.c:316-343 | a relative path resolves to the normal form of cwd + "/" + path; fails exactly when the combined path is too long or empty |
| Path.CanonicalIff | src/syscall.c:282-314 | canonical paths are exactly those that normalisation leaves alone |
| Path.NormalIsIdempotent | src/syscall.c:282-314 | normalising twice is normalising once |
| Path.NormalIsNoLonger | src/syscall.c:282-314 | the normal form of an absolute path is never longer than the path |
| PathLaws.NameStays | src/syscall.c:271-278 | a name at the end of a path stays at the end of its normal form |
| PathLaws.DotDotTakesBack | src/syscall.c:259-270 | ".." takes back the name before it |
| PathLaws.DotDotIsParent | src/syscall.c:259-270 | wherever a path leads, ".." leads to the directory that holds it, and from the root to the root |
| PathLaws.DotIsNothing | src/syscall.c:256-258 | "." and a slash at the end change nothing |
| PathLaws.SlashesAreOne | src/syscall.c:296-301 | two slashes are one |
| Console.Terminal.PopLastEditable | src/console.c:101-114 | erases the newest byte of the edit line and never a committed one |
| Console.Terminal.Enqueue | src/console.c:116-132 | appends, or drops exactly when the ring is full; line and end-of-file counts stay exact |
| Console.Terminal.RxFeed | src/console.c:147-229 | every character does to committed bytes and edit line what the laws of ConsoleLine say, overflow included; a reader is woken exactly when a byte was put in |
| Console.Terminal.CanRead | src/console.c:94-99 | canonical input is called ready exactly when bytes are committed or some earlier raw read returned an end of file |
| Console.Terminal.Read | src/console.c:306-378 | returns the oldest bytes up to a delimiter, takes an end of file out without returning it, and waits otherwise; a raw read leaves one count behind for every end of file it returns |
| Console.CanonicalRead | src/console.c:306-378 | a canonical read returns the oldest committed bytes, stops short of the length asked for only behind a newline or before an end of file, which it takes out, and leaves the edit line alone |
| ConsoleLine.LineIsSurvivors | src/console.c:147-229 | however ordinary keys, erases and kills are mixed, what they leave of the line is what no later key cancels, in order: a kill cancels all before it, each erase the newest byte left |
| ConsoleLine.CommittedLine | src/console.c:147-229 | newline or carriage return then commits exactly those bytes and a newline, as section 11.1.6 of POSIX.1-2017 XBD asks |
| ConsoleLine.KillForgets | src/console.c:181-192 | of a run with a kill in it only the keys behind the kill remain |
| ConsoleLine.ShortRunFits | src/console.c:116-121 | a run no longer than the free places meets no full ring |
| ConsoleLine.KillEmptiesLine | src/console.c:181-192 | kill empties the line and takes no committed byte |
| ConsoleLine.EraseUndoesKey | src/console.c:193-203 | erase gives the terminal back as it was before an ordinary key; on an empty line it does nothing |
| ConsoleLine.InterruptDropsLine | src/console.c:161-180 | an interrupt drops the line and commits an empty one, in raw input too |
| ConsoleLine.DelimiterCommits | src/console.c:204-229 | newline and end of file commit the whole line |
| ConsoleLine.ReturnIsNewline | src/console.c:158-160 | carriage return is newline, and NUL is nothing |
| ConsoleLine.FullDrops | src/console.c:116-121 | with a full ring only kill, erase and interrupt change anything |
| ConsoleLine.RawAppends | src/console.c:214-229 | in raw input every other byte is data |
| Console.ReadStaysInLine | src/console.c:337-362 | a canonical read takes committed bytes only and crosses no delimiter |
| Console.ReadyIff | src/console.c:94-99 | the counters tell whether bytes are committed if and only if no raw read returned an end of file so far, or bytes are committed anyway |
| Console.RawEofIsStray | src/console.c:337-362 | an end of file typed, read raw and followed by canonical mode makes the terminal ready on an empty ring |
| Mmu.IdentityMeans | src/mmu.c:64-91 | a mapped page is reached at its own address with exactly the flags of its own entry |
| Mmu.UnionCovers | src/mmu.c:82-89 | the directory flags grant all that a present page grants |
| Mmu.UnionIsLeast | src/mmu.c:82-89 | and no more than the present pages grant together |
| Mmu.ProtMeans | src/mmu.c:50-62 | each protection asked for is granted by itself |
| Mmu.WordMeans | src/mmu.c:77-78 | the entry the processor reads: present 1, write 2, user 4, execute 8, and the page's own address |
| Mmu.SetPageWorks | src/mmu.c:64-91 | mapping a page gives it the flags asked for and changes no other page |
| Mmu.PageTables.MapIdentityPage | src/mmu.c:64-91 | maps the page, or refuses one past the limit and changes nothing |
| Mmu.PageTables.MapIdentity | src/mmu.c:150-184 | every page that the range touches gets the flags asked for, every other page keeps its own |
| Mmu.PageTables.BuildKernelMap | src/mmu.c:108-130 | every page below the limit is mapped to itself; the user reaches none, none is both writable and executable, exactly the pages with kernel text are executable, and exactly those with neither text nor read-only data are writable |
| Mmu.PageTables.KernelProtection | src/mmu.c:93-106 | that protection, page by page |
| Mmu.LastRequestHolds | src/mmu.c:150-184 | after any run of requests every page has the flags last requested for it |
| Pci.PowerTest | src/pci.c:80-83 | the bit test recognises exactly the powers of two |
| Pci.StartIsLeast | src/pci.c:84-86 | the masked start is the first aligned address of the window |
| Pci.RegionsAreDisjoint | src/pci.c:60-99 | regions given out are pairwise disjoint, inside the window and naturally aligned (section 6.2.5.1 of the PCI Local Bus Specification 3.0) |
| Pci.GrantKeeps | src/pci.c:69-73 | marking a vacant place takes its pages alone and keeps all regions apart |
| Pci.RefusedEverywhere | src/pci.c:75-99 | where a request is refused every naturally aligned place in the window meets a region given out |
| Pci.Window.RangeFree | src/pci.c:60-67 | tells whether every page of the run is free |
| Pci.Window.MarkRange | src/pci.c:69-73 | sets the bits of the run and no others |
| Pci.Window.Allocate | src/pci.c:75-99 | succeeds exactly for powers of two that fit somewhere, and gives out the lowest such place |

## Left out

- Ext4Write.WriteData: a write whose final inode write fails returns the full length (src/fs_ext4.c:1210-1214); the caller can tell by the new size, which stays 0. What the disk then holds is stated for inodes that lie in one block; an inode that straddles two may be half written, about which nothing is claimed.
- Ext4Extents.ExtentMap: extent trees of depth above 0, which the code walks down through index blocks, are not part of this model.
- Ext4Extents.ExtentAppend: roots whose header claims more than the four entries an inode has room for; the code would then write past the root.
- Ext4Write.WriteData: wrap-around of 32-bit file positions is excluded by what the caller must provide; the branch that reports no space after the loop (src/fs_ext4.c:1201-1203) cannot be reached and is not in the model.
- Ext4Read.ReadData: only inodes with an inline leaf; deeper extent trees and legacy block maps are not part of this model.
- Ext4DirOps.AddEntry: the directory's blocks must be tiled by records before; what the code does on damaged directories beyond stopping is not stated.
- Ext4DirOps.RemoveEntry: as for AddEntry, on damaged directories.
- Ext4DirOps.Lookup: as for AddEntry, and directories with holes, which the code skips.
- Ext4Volume.CallRefines: creating, truncating and removing inodes are not part of the model, so the set of files and directories is fixed.
- Sched.Scheduler.PickAndRun: the reschedule flag and the quantum counters are not modelled; the index is 0 whenever the loop picks, so they do not decide what is picked. No fairness is claimed.
- Sched.Scheduler.SchedSpawn: the stack pool is one yes-or-no answer.
- Sched.Scheduler.SignalTerminate: only for a task no processor executes.
- FdTable.FdTables.OpenSpecial: the socket pointer kept beside a socket's open file is not modelled.
- Signals.SignalTask.DeliverPending: the interrupt frame in which the user context is kept is one value; finding no such frame, before or after (src/irq.c:446-506), is not modelled.
- Console.Terminal.RxFeed: echo and the wake-up of readers are output only and are left out; the result tells whether readers are woken.
- Mmu.PageTables.MapIdentity: the flush of translation buffers, which other processors need, is not part of the model.
- vfork, its stack and image copying, and the failure paths that clear a cloned table: raw memory layout.
- Symbolic links, path walks over directories and link counts of ext4: built from the lookups, reads and writes modelled here. Free counters and checksums: this code does not keep them.
- Device drivers, network clients, the window manager, procfs and program loading: device behaviour or plumbing.
- The context switch in assembly: an abstract step.
- PCI configuration space: only the window allocator is modelled.
