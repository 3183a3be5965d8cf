# Verification model of the operating-systems laboratory repository

The repository has three stateful parts: a small UNIX-like file system (`fs/`), a preemptive
user-level thread library (`threads/`), and a web server with a file cache and a bounded request
buffer (`webserver/`). This project models each of them in Dafny and proves what its callers rely on.
`dafny verify dfyconfig.toml` checks everything.

**The file system.** A volume is an array of 8 KB blocks with a free map, a usage counter and a quota.
An inode maps logical blocks through ten direct pointers, an indirect and a double-indirect block.
The functions of `BlockAlloc` and `FileContents` follow `testfs_allocate_block` and
`testfs_write_data` branch by branch, undo paths included; the methods of `ReadWrite` are the same code
on the mutable `Inode` and `SuperBlock` objects and are proved to compute those functions. An ownership
map, which sends each block number to the one slot that holds it, carries the invariant: no aliasing,
no leaks, no empty index block, and a size that covers the tree. From it follow the meaning of every
write as an overwrite of a byte string with holes reading as zero, all-or-nothing allocation, exact
teardown, and, over all inodes and all runs, refinement of an abstract file system. On top of this,
`Dirents` and `Directories` treat a directory as a log of records that refines a finite map, and
`Namespace` shows that names always form a tree, and `NamespaceLaws` says by which name leads where what
each command does, and which commands undo each other. `DirtyFlags` says exactly which failing writes lose
the new size of a file, `WriteSpace` exactly when a whole write finds room, and `InodeTables` proves the
inode cache against the live file system. `Mounts` and `Commands` put these together: each command, run
on the inode table and the current directory, is its step on the tree of names. Adding a name is the one
step that can go wrong, and `Unsynced` and `Adding` state exactly when it fails, when it leaves part of a
record behind, and when it leaves the directory's inode dirty, all in terms of the state before the command.
`Shell` runs the whole: `mktestfs`, mounting, a session, closing and mounting again.

**The thread library.** `ThreadQueues` proves the linked queues, links and stale tails included,
against sequences. `ThreadSystem` is the state machine of all calls: interrupts are off inside a call,
so each call up to its context switch is one step, and preemption is a yield between calls.
`ThreadInvariant` proves its invariant, `ThreadEffects` gives each step's effect on queues and entries
in closed form, `ThreadExact` that on everything else, so that the state after a step is determined, and
`ThreadTheorems` derives what holds in every run. A lock outlives its holder, and
Tids are reused: `ThreadReuse` is a run in which the wrong thread passes the assert of `lock_release`.
`ThreadDestroy` says exactly when a lock may be destroyed, which its assert does not.

**The web server.** `CacheSpec` is the cache as one list of entries in order of use. `LruLists` and
`HashChains` prove the linked list and the chains, pointer by pointer, and `WebCache` is the object built
of them that refines the specification, `CacheRuns` the interleavings of requests, and
`RequestRing` the ring buffer with its wake-ups on transitions only.

Block size, direct count, pointers per block and the other layout sizes are the source's constants.

## Model

| member | source | states |
|---|---|---|
| BitWords.WordCountCovers | fs/bitmap.c:21-54 | the word array covers the bits asked for, by less than a word too many, exactly when rounding up does not wrap around in 32 bits |
| BitWords.WithBitMembers | fs/bitmap.c:103-113 | setting a bit adds exactly that number to the set and leaves the padding in use |
| BitWords.WithoutBitMembers | fs/bitmap.c:116-126 | clearing a bit removes exactly that number and leaves the padding in use |
| BitWords.MembersDetermineWords | fs/bitmap.c:57-66 | two well-formed word arrays hold the same set if and only if they are the same words |
| BitWords.AllocThenUnmark | fs/bitmap.c:70-126 | allocating a free bit and unmarking it restores every word |
| Bitmaps.Bitmap.constructor | fs/bitmap.c:21-54 | a new bitmap is empty for every number of bits, the leftover bits of the last word being in use |
| Bitmaps.Bitmap.Alloc | fs/bitmap.c:70-91 | returns the least free index and marks it and nothing else, and fails, changing nothing, only when every index is in use |
| Bitmaps.Bitmap.FreeBit | fs/bitmap.c:70-91 | the inner loop: the first clear bit of a word that is not full, which it always finds, so the last assert holds |
| Bitmaps.Bitmap.Mark | fs/bitmap.c:103-113 | adds the index; its assert holds for a free one |
| Bitmaps.Bitmap.Unmark | fs/bitmap.c:116-126 | removes the index; its assert holds for one in use |
| Bitmaps.Bitmap.IsMarked | fs/bitmap.c:130-137 | membership in the set |
| Bitmaps.Bitmap.NrAllocated | fs/bitmap.c:147-157 | the number of indices in use, not counting the padding |
| Layout.PtrOfSetPtr | fs/read_write.c:90-205 | a block number stored in an index block reads back, and its neighbours stay as they were |
| SuperBlocks.SuperBlock.Open | fs/super.c:137-173 | memory is loaded from the device so that free maps and counters agree with it |
| SuperBlocks.SuperBlock.Close | fs/super.c:176-196 | closing changes nothing on the device, because every operation wrote through |
| SuperBlocks.SuperBlock.GetBlockFreemap | fs/super.c:52-63 | takes the least free data block and writes back the one freemap block that changed, so that device and memory agree |
| SuperBlocks.SuperBlock.PutBlockFreemap | fs/super.c:67-72 | releases one data block, device and memory still agreeing |
| SuperBlocks.SuperBlock.AllocBlock | fs/super.c:226-239 | refines `BlockAlloc.AllocBlock` under the quota, and leaves the inode side alone |
| SuperBlocks.SuperBlock.FreeBlock | fs/super.c:244-255 | zeroes and releases a block in use; its asserts hold |
| SuperBlocks.SuperBlock.GetInodeFreemap | fs/super.c:199-212 | takes the least free inode number and counts it |
| SuperBlocks.SuperBlock.PutInodeFreemap | fs/super.c:215-223 | gives an inode number back; its assert holds |
| SuperBlocks.MirrorsDetermine | fs/super.c:137-173 | the freemap blocks on the device determine the freemap in memory |
| SuperBlocks.MirrorsAfterWrite | fs/super.c:25-48 | writing back only the block that holds the changed word makes the device agree again |
| SuperBlocks.Remount | fs/super.c:137-196 | closing and opening again recovers both free maps, the counters and the volume |
| BlockTree.LeafSlotBijection | fs/read_write.c:15-54 | logical blocks below the maximum and leaf slots of the tree correspond one to one |
| BlockAlloc.AllocBlockSpec | fs/super.c:226-239 | a block is handed out if and only if quota and free map have one, and it is a fresh one |
| AllocProofs.AllocateBlockSpec | fs/read_write.c:90-205 | allocation succeeds if and only if the block number is in range and every block it needs is available; then exactly that logical block is mapped; otherwise counters, free map, pointers and block contents are as before |
| FileContents.StoreBlock | fs/read_write.c:208-242 | rewriting a data block changes the bytes of one logical block only, and no pointer |
| FileContents.WriteDataSpec | fs/read_write.c:208-242 | a write overwrites exactly [start, start+written) of the contents, zero-filling a gap; on ENOSPC or EFBIG exactly a prefix ending with a block is applied, and which error it is and why; other files' blocks stay |
| FileContents.WriteFills | fs/read_write.c:208-242 | a write that starts inside a file without holes or at its end leaves none |
| ReadWrite.ReadBlock | fs/read_write.c:15-54 | returns the block mapped by the tree, or zeroes for a hole, or EFBIG out of range |
| ReadWrite.ReadData | fs/read_write.c:57-84 | returns exactly the slice of the contents, clipped at the size; EFBIG only when starting at the maximal size |
| ReadWrite.AllocateBlock | fs/read_write.c:90-205 | the method on the inode object computes `BlockAlloc.AllocateBlock` and leaves the block's content, or zeroes, in the buffer |
| ReadWrite.WriteData | fs/read_write.c:208-242 | the method on the inode object computes `FileContents.WriteData`, on every path |
| ReadWrite.FreeBlocks | fs/read_write.c:245-309 | releases exactly the reachable blocks, each once, and clears all pointers and the size; each release meets a block in use |
| Teardown.SizeBoundsTree | fs/read_write.c:245-309 | the loops, bounded by the size alone, meet every block: all leaves lie below the end and the index blocks exist just when the end lies beyond what is before them |
| Teardown.ReleaseNext | fs/read_write.c:245-309 | releasing slot after slot in the loops' order never meets a block twice, and the counters never run out |
| Teardown.EmptiedSpec | fs/inode.c:220-231 | after teardown the inode has no pointer and a zero block count, precisely its own blocks have left the free map, and other blocks are untouched |
| Teardown.ReachableIsOwned | fs/read_write.c:245-309 | the blocks reachable from the inode are those it owns |
| FileSystem.ApplyKeeps | fs/inode.c:199-257 | creating, writing and removing keep the invariant over all inodes, and each is a step of the abstract file system |
| FileSystem.RunKeeps | fs/read_write.c:90-309 | every state of every run is well formed |
| FileSystem.RunRefines | fs/read_write.c:57-309 | every step of every run is a step of a map from inode numbers to byte strings, so no operation changes another file's bytes |
| FileSystem.NoAliasNoLeak | fs/read_write.c:90-309 | in every reachable state a block number is held at most once in the whole file system, the reachable blocks are exactly the set bits of the free map, and all lie in the data area |
| FileSystem.BlocksConserved | fs/inode.c:236-257 | the per-inode block counts add up to the global counter, which is the size of the free map and within the quota |
| FileSystem.FormattedInv | fs/super.c:87-134 | a freshly made volume satisfies the invariant and holds no file |
| FileSystem.SoundApply | fs/inode.c:199-231 | an operation on a sound file system leaves it sound |
| FileSystem.OthersKept | fs/read_write.c:90-309 | an operation leaves the inode, the block numbers, the bytes and the absence of holes of every file it does not name as they were |
| FileSystem.ResizedSound | fs/inode.c:164-171 | a file system in which one inode has lost its new size is sound if and only if the old size fits that file: all its leaves below the end and no byte but zero beyond it |
| Inodes.Inode.AllocBlock | fs/inode.c:236-246 | takes a block and counts it for the inode |
| Inodes.Inode.FreeBlock | fs/inode.c:250-257 | gives a block back and counts it off, ignoring block 0 |
| DirtyFlags.WriteAlike | fs/read_write.c:208-242 | a write does the same to the inode and the volume whatever the dirty flag was |
| DirtyFlags.SizeLostIff | fs/read_write.c:208-242 | a failing write changes the inode without marking it if and only if the file ends inside a block, the write begins in it or earlier and goes beyond it, no hole lies between, and not even one block is left for the next |
| DirtyFlags.SizeIsLost | fs/read_write.c:218-224 | a concrete volume and write where that happens |
| DirtyFlags.LostSizeSound | fs/read_write.c:218-224 | after such a write the old size fits the file if and only if the bytes written between the old end and the end of its block were all zero |
| DirtyFlags.UnmarkedIsSize | fs/read_write.c:208-242 | whatever a write leaves unmarked is the size alone: pointers and count agree with the disk |
| DirtyFlags.RewriteSucceeds | fs/read_write.c:208-242 | writing inside a file without holes needs no block and cannot fail |
| WriteSpace.IndexFromLeaves | fs/read_write.c:90-205 | which index blocks exist is determined by which logical blocks are mapped |
| WriteSpace.WriteSucceedsIff | fs/read_write.c:90-242 | a whole write succeeds if and only if its range ends within the maximal size and the blocks it takes, missing index blocks counted once, are available |
| WriteSpace.WriteTakes | fs/read_write.c:90-242 | a whole write that succeeds takes exactly the blocks that its range needed before it |
| Unsynced.AddFailsIff | fs/dir.c:66-114 | appending a directory entry fails if and only if there is too little space for the whole record |
| Unsynced.AddLeavesDirtyIff | fs/dir.c:222-227 | appending an entry to a clean directory fails and leaves it dirty, so that the assert at fs/inode.c:166 fails when it is next put, if and only if the record needs more than there is and yet a block is left for the directory's next one |
| Unsynced.AddTearsIff | fs/dir.c:222-227 | a failing append leaves part of the record behind if and only if the record goes beyond a block up to whose end there was enough space |
| Unsynced.AddLeavesDirty | fs/dir.c:222-227 | it happens: on the smallest file system that `mktestfs` makes, of 128 blocks, in a directory of ten full blocks that begins with `.` and `..`, with one block left, adding any entry |
| InodeTables.PatchedBlock | fs/inode.c:148-160 | reading an inode's block, replacing the inode in it and writing it back changes that inode on the device and no other in the block |
| InodeTables.InodeTable.Get | fs/inode.c:118-144 | returns the one object for the number, from memory or from its place in its inode block, with one more reference; the live file system is unchanged |
| InodeTables.InodeTable.Sync | fs/inode.c:148-160 | writes a dirty inode to its place in its block on the device and changes no other; the live file system is unchanged |
| InodeTables.InodeTable.Put | fs/inode.c:164-171 | drops a reference to an inode that is not dirty, as its assert demands (`Unsynced.AddLeavesDirtyIff` and `Commands.Context.CreateFileOrDir` say when that fails); dropping the last one loses nothing exactly when the inode equals the one on disk, and what is lost leaves a sound file system exactly when the size on disk fits the file |
| InodeTables.InodeTable.CreateInode | fs/inode.c:199-216 | is the abstract creation on the live file system, which stays sound, with the least free number; numbers beyond the inode blocks are given back |
| InodeTables.InodeTable.RemoveInode | fs/inode.c:220-231 | is the abstract removal on the live file system, which stays sound; its assert that no block is left holds |
| InodeTables.InodeTable.WriteData | fs/read_write.c:208-242 | is the abstract write on the live file system, which stays sound; what is not marked dirty still agrees with the disk but for the size |
| Dirents.DecodeEncode | fs/dir.c:66-82 | what is read from a record is what was written: length, inode number and name |
| Dirents.BytesDetermineLog | fs/dir.c:17-42 | bytes that hold a log of records hold only that one: if one log's bytes begin another's, the one log begins the other |
| Dirents.RecordAt | fs/dir.c:17-42 | record boundaries: record k lies between its offset and the next |
| Dirents.AddedLookup | fs/dir.c:87-114 | adding an absent name changes the lookup of that name only, and keeps live names unique |
| Dirents.RemovedLookup | fs/dir.c:146-176 | removing a name makes it absent and changes no other lookup |
| Dirents.AddedUniqueIff | fs/dir.c:87-114 | adding alone keeps live names unique if and only if the name is absent or comes before every tombstone of its length |
| Dirents.AddedAloneDuplicates | fs/dir.c:201-213 | a directory where adding without the preceding lookup yields the same name twice |
| Dirents.BytesReplace | fs/dir.c:87-114 | writing a record over one of the same length replaces that entry and moves no other |
| Directories.NextDirent | fs/dir.c:17-42 | reading goes from one record boundary to the next and ends exactly at the directory size; its assert holds |
| Directories.FindDirent | fs/dir.c:48-61 | returns the first record with that inode number, or none |
| Directories.AddDirent | fs/dir.c:87-114 | EEXIST at a live entry of that name, else the log with the entry in the first tombstone of that length or at the end; only appending can fail, with part of the record written; its assert holds |
| Directories.CheckEmpty | fs/dir.c:119-138 | ENOTEMPTY exactly for a directory with a live entry other than `.` and `..` |
| Directories.DirNameToInodeNr | fs/dir.c:325-340 | returns the inode number of the first live entry of that name, or ENOENT |
| Mounts.EntryApplied | fs/dir.c:87-114 | adding an absent name on a volume that holds the names: the name is added, or nothing has changed, or the log is followed by part of the record, up to the end of a block; every other file and directory is as it was |
| Mounts.TombstoneApplied | fs/dir.c:168-173 | removing a name on such a volume always succeeds, and changes that entry only |
| Adding.EntryExact | fs/dir.c:66-114 | on a mounted volume, before the entry is added: exactly when adding fails, when part of the record is left, and when the directory is left dirty |
| Adding.EmptyDirSpace | fs/dir.c:182-197 | making a new directory takes exactly one block, or fails with ENOSPC exactly if none is left, and every other file keeps its inode and its block numbers |
| Namespace.CommandKeeps | fs/dir.c:343-424 | create, mkdir, rm and cd, as steps on the names, keep the tree, and none but cd changes the current directory, which is never freed |
| Namespace.SessionKeepsTree | fs/dir.c:201-424 | after any sequence of such steps from a tree the names form a tree and the current directory is in it |
| Namespace.OneName | fs/dir.c:201-238 | every inode in use but the root has exactly one live name apart from `.` and `..`, the root none, and each directory's `..` is the directory that names it |
| Namespace.ParentEntry | fs/dir.c:242-265 | in the parent, the first entry with a directory's number is the one that names it, and the parent is nearer to the root |
| NamespaceLaws.EnterExact | fs/dir.c:343-362 | `cd` succeeds if and only if a live entry of that name leads to a directory, which then is the current one, while no log and no file changes; otherwise it is ENOTDIR for a file and ENOENT for no such entry, and nothing changes |
| NamespaceLaws.EnterAndBack | fs/dir.c:343-362 | after `cd` by a name other than `.` and `..`, `cd ..` leads back to exactly the state before |
| NamespaceLaws.UnlinkExact | fs/dir.c:119-176 | `rm` is refused for `.` and `..` (EINVAL), a name without a live entry (ENOENT) and a directory with an entry besides those two (ENOTEMPTY), and nothing changes; otherwise exactly that name is gone, all other names in all other directories lead where they led, and exactly the number it led to is free |
| NamespaceLaws.MakeExact | fs/dir.c:201-238 | `create` and `mkdir` are refused for a name with a live entry (EEXIST), when no number is free or when there is no room, and nothing changes; otherwise the least free number is in use for a file or a directory, exactly the new name leads to it, and a new directory has exactly `.` and `..` |
| NamespaceLaws.CommandExact | fs/dir.c:343-424 | every command that fails changes nothing; `create` makes a file, `mkdir` a directory, `rm` removes one, `cd` moves to one |
| NamespaceLaws.UnlinkUndoesMake | fs/dir.c:389-424 | `rm` after `create` or `mkdir` succeeds and restores every name, every number in use and the current directory |
| NamespaceLaws.MakeUndoesUnlink | fs/dir.c:389-424 | `create` after `rm` of a file succeeds, and restores everything if and only if the file had the least number |
| Commands.Context.Start | fs/testfs.c:194 | at the start of the shell the root is the current directory and is not dirty, and memory and device agree |
| Commands.CreateEmptyDir | fs/dir.c:182-197 | on the inode table: on success the new directory holds exactly `.` and `..`; on failure every other inode is as it was |
| Commands.Context.CreateFileOrDir | fs/dir.c:201-238 | on the objects, is the step of `create` or `mkdir` on the names, and the tables are ready for the next command, unless it fails with part of the record left at the end of the directory; exactly when it fails, when part is left, and when the directory stays dirty, in terms of the file system before the call, `mkdir` having one block less for the entry; no other file changes, and a new file is empty |
| Commands.Context.RemoveDirentAllowed | fs/dir.c:119-138 | gets the inode and puts it back: ENOTEMPTY exactly for a directory with a name in it, and nothing has changed; the assert of the put holds |
| Commands.Context.RemoveDirent | fs/dir.c:146-176 | EINVAL, ENOENT or ENOTEMPTY without a change, else the entry becomes a tombstone in place, which never fails for lack of space |
| Commands.Context.Rm | fs/dir.c:408-424 | on the objects, is the step of `rm` on the names; the directory is written back; no file but the one removed changes |
| Commands.Context.Cd | fs/dir.c:343-363 | on the objects, is the step of `cd` on the names; the live file system stays as it is; the assert on the directory that is left fails exactly when that is dirty and the command would leave it |
| Commands.Context.Handle | fs/testfs.c:194-221 | each request is its step on the names; files that were there and still are keep type, size, blocks and bytes, and new ones are empty |
| Commands.Context.Pwd | fs/dir.c:242-265 | on the inode table, getting each parent and putting it again: its asserts hold, it ends at the root, every count of references is as before, and the text is the path that leads from the root back to the directory |
| Commands.MakeRootDir | fs/dir.c:317-321 | on an empty file system, makes a root that is its own parent if and only if one block is left, else fails with ENOSPC and leaves it empty |
| Commands.Context.Session | fs/testfs.c:194-221 | the shell goes on, over commands that fail for lack of space too, until its requests are done, part of a record is left in a directory, or the assert on a dirty directory fails; from any mounted tree; so long the volume holds the names that the steps make, and everything in memory but a dirty current directory is on the device; at the end every file is one that was there all along with its bytes, or empty |
| Commands.Context.Quit | fs/testfs.c:221-222 | the final assert holds exactly when the current directory is not dirty, and then the device alone holds the names |
| Shell.MakeFileSystem | fs/mktestfs.c:66-79 | makes a file system whose root is empty if and only if it has one block, else leaves one without a name; the device alone holds it |
| Shell.MakeAndRun | fs/testfs.c:189-222 | from a fresh device over `mktestfs`, a mount, a session and a close to the next mount: the device holds the tree of names that the steps of the session make of an empty root, unless the session stops early or the last assert fails |
| ThreadQueues.ThreadQueue.FindWithPrev | threads/thread.c:63-78 | finds the first thread with that id and its predecessor |
| ThreadQueues.ThreadQueue.Append | threads/thread.c:81-91 | the node joins the end of the sequence, whatever the tail of an empty queue was |
| ThreadQueues.ThreadQueue.Pop | threads/thread.c:130-136 | takes the first node out; size and head follow, the tail may be left stale |
| ThreadQueues.ThreadQueue.MoveHeadToEnd | threads/thread.c:105-113 | rotates the sequence by one |
| ThreadQueues.ThreadQueue.MoveToHead | threads/thread.c:116-127 | the target comes first and the others keep their order |
| ThreadQueues.ThreadQueue.Remove | threads/thread.c:140-158 | exactly the target leaves the sequence |
| ThreadQueues.ThreadQueue.DirectedYield | threads/thread.c:316-334 | the target first, the others in order, the yielder last, although the predecessor was found before the rotation |
| ThreadQueues.Wakeup | threads/thread.c:505-524 | the first waiter, or all of them in order, move to the end of the ready queue and become ready unless killed; the other waiters keep their status |
| ThreadInvariant.StepKeeps | threads/thread.c:194-689 | every call, switch back and preemption keeps the invariant of queues, table, killed threads, locks and waiters |
| ThreadEffects.QueuesStep | threads/thread.c:297-524 | closed form of a step: woken threads join the ready queue in order, the running thread joins the end of its destination, a thread back from a switch empties the exit queue, every other queue stays |
| ThreadEffects.EntriesStep | threads/thread.c:161-188 | no thread changes its id, killed and exited threads stay so, only the running thread changes where it continues |
| ThreadExact.LocksStep | threads/thread.c:586-689 | closed form of a step on the locks: after a release the lock is free and the caller not inside; `lock_acquire` of a free lock, going on with it when it is free, and `cv_wait` with nobody to switch to make the caller the holder; every other lock stays, and no other step changes any |
| ThreadExact.ThreadsStep | threads/thread.c:161-430 | closed form of a step on the threads: who is there, and the id, status, place and continuation of each; only `thread_kill` marks a thread and only the one named, a new thread is ready, woken ones are ready unless killed, and all others but the running one stay |
| ThreadExact.TableStep | threads/thread.c:231-399 | closed form of a step on the table: an exit frees the Tid, a creation takes the least free one, and nothing else changes it |
| ThreadExact.AfterDetermines | threads/thread.c:194-689 | with the queues these closed forms determine the whole state after a step |
| ThreadExact.HaltsIff | threads/thread.c:358-399 | the program ends in a step if and only if the running thread exits in it, nobody else is ready, and nobody waits for it |
| ThreadExact.AcquireSucceeds | threads/thread.c:585-601 | `lock_acquire` of a free lock, at once or after sleeping, returns to user code with the caller as holder |
| ThreadExact.HeldUntilGivenUp | threads/thread.c:586-665 | over any stretch of a run without a release of it or a wait with it, a taken lock stays taken by the same thread |
| ThreadExact.DiesByKillOnly | threads/thread.c:401-430 | over any stretch of a run, a thread that is there at both ends has become marked as exited if and only if a `thread_kill` between them has named it |
| ThreadTheorems.ThreadsConserved | threads/thread.c:51-188 | in every run each thread is in exactly one queue at one place, and `threads` names exactly those ready or waiting, by unique ids |
| ThreadTheorems.OnlyExitedAreFreed | threads/thread.c:161-180 | only a node of the exit queue is ever freed, by a thread that has just been switched to |
| ThreadTheorems.KilledNeverRuns | threads/thread.c:403-430 | after a kill, whenever the killed thread is scheduled its only step is to exit |
| ThreadTheorems.MutualExclusion | threads/thread.c:572-617 | of the threads that have not exited at most one is between acquiring and releasing a lock; a free lock has no sleepers, so destroying it discards nobody, and no such thread inside |
| ThreadTheorems.OnlyHolderReleases | threads/thread.c:604-689 | whoever passes the asserts of release, wait, signal and broadcast, which compare Tids, is the thread that acquired the lock if and only if that thread has not exited |
| ThreadReuse.ReusedTidReleases | threads/thread.c:604-617 | a run in which a thread returns holding a lock and a new thread with its Tid passes the assert of `lock_release` |
| ThreadTheorems.ReturnsHolding | threads/thread.c:586-665 | `lock_acquire` and `cv_wait` return only with the caller holding the lock |
| ThreadTheorems.CvWaitAtomic | threads/thread.c:653-665 | releasing the lock and joining the waiters is one step; a caller that is alone does not wait and keeps the lock |
| ThreadTheorems.CvStep | threads/thread.c:668-689 | a signal wakes the first waiter, a broadcast all in order, and no other step takes a waiter away |
| ThreadTheorems.CvFifo | threads/thread.c:653-689 | over any stretch of a run, a waiter moves one place forward per signal and is there until its turn: no wakeup is lost |
| ThreadTheorems.WaitsForExit | threads/thread.c:360-399 | a sleeper in `thread_wait` leaves only in the exit of the thread that owned the Tid when it began to wait; all its waiters go in order and the Tid becomes free |
| ThreadTheorems.PlaceStep | threads/thread.c:297-356 | no ready thread moves back; a directed yield keeps the order of the others |
| ThreadTheorems.BoundedWait | threads/thread.c:297-399 | a thread with k before it runs after at most k successful yield-any, sleep or exit steps |
| ThreadDestroy.DestroySafeIff | threads/thread.c:572-583 | when its assert holds, `lock_destroy` discards no sleeper; and no run from there ever reads the freed lock if and only if no thread that has not been killed is inside `lock_acquire` of it, a woken thread or a waiter of a condition variable included |
| ThreadDestroy.CvsStayEmpty | threads/thread.c:640-650 | in every run a destroyed condition variable has no waiters and gets none |
| CacheSpec.ReachingIsLeast | webserver/server_thread.c:326-347 | the number of entries evicted is the least that reaches the amount |
| CacheSpec.EvictIsExact | webserver/server_thread.c:326-347 | eviction removes exactly the shortest run of unpinned entries in list order that reaches the amount, or all of them; pinned ones stay in order |
| CacheSpec.InsertSucceedsIff | webserver/server_thread.c:349-395 | insertion succeeds if and only if the name is absent and the file fits beside the pinned entries |
| CacheSpec.InsertExact | webserver/server_thread.c:349-395 | exactly which entries survive: all, if the name is there or the file is larger than the cache; else all but the first k unpinned ones, k being the least number for which the file fits beside the rest, or all of them if none suffices; and the file is added just if it fits |
| CacheSpec.InsertKeeps | webserver/server_thread.c:349-395 | the byte budget is kept, the pinned entries stay in order, and a new entry is last |
| CacheSpec.LookupExact | webserver/server_thread.c:265-288 | a miss changes nothing; a hit moves the first entry of that name behind all others, which keep their order, with one more pin |
| CacheRuns.PinSafety | webserver/server_thread.c:455-513 | in every interleaving an entry's use count is the number of its holders, and held entries are never unlinked |
| CacheRuns.StepExact | webserver/server_thread.c:455-513 | what one request's step does to the cache and to the other requests: nothing to these, a hit exactly if an entry has the name, an insertion only after a miss, and one pin less of just the entry held at the end |
| CacheRuns.HeldEntryIsLive | webserver/server_thread.c:499-508 | the decrement at the end of a request meets its entry in the cache with a positive count, so its assert holds |
| CacheRuns.LeastRecentlyUsedFirst | webserver/server_thread.c:109-161 | in every interleaving the list is in order of last insertion or hit |
| WebCache.Cache.CacheLookup | webserver/server_thread.c:265-288 | refines the list: a hit is pinned and becomes last; chains, list and size stay coherent |
| WebCache.Cache.CacheEvict | webserver/server_thread.c:326-347 | refines the list's eviction, keeping chains and list over the same entries |
| WebCache.Cache.CacheInsert | webserver/server_thread.c:349-395 | refines the list's insertion, with the result |
| WebCache.Cache.CacheRelease | webserver/server_thread.c:499-508 | the count of one entry goes down by one and stays non-negative |
| LruLists.LruList.FindWithPrev | webserver/server_thread.c:94-107 | finds the node of an entry and its predecessor through the links |
| LruLists.LruList.Add | webserver/server_thread.c:109-126 | the new node is linked after the tail and becomes it |
| LruLists.LruList.MoveHeadToEnd | webserver/server_thread.c:128-140 | rotates the list by one, tail included |
| LruLists.LruList.MoveNodeToEnd | webserver/server_thread.c:142-161 | the entry's node becomes last and the others keep their order, wherever it stood |
| LruLists.LruList.RemoveNode | webserver/server_thread.c:211-237 | unlinks exactly the node that follows `prev`, or the head, and the tail follows; what is returned is the node after it, and `prev` is still its predecessor |
| HashChains.Chain.Find | webserver/server_thread.c:265-301 | walks the chain behind its header to the entry of that name, or to its end |
| HashChains.Chain.Remove | webserver/server_thread.c:303-324 | exactly the entry leaves the chain, from behind the header or from further on |
| HashChains.Chain.Append | webserver/server_thread.c:349-395 | the entry is linked behind the last of its chain |
| WebCache.Cache.RemoveHere | webserver/server_thread.c:326-347 | in the walk of `cache_evict`, takes the current entry out of chain and list, and `prev` stays the predecessor of the node that follows |
| WebCache.Cache.RemoveFromCache | webserver/server_thread.c:303-324 | the entry leaves its chain and no other entry leaves any |
| RequestRing.RequestBuffer.TestsMean | webserver/server_thread.c:517-550 | the index tests for full and empty say that max_size-1 and no requests are pending |
| RequestRing.RequestBuffer.Add | webserver/server_thread.c:517-539 | the request joins the end, in the slot that its number takes modulo max_size; workers are woken exactly when none was pending |
| RequestRing.SlotsAllocatedIff | webserver/server_thread.c:582-590 | the indices go round max_size slots, one more than are allocated: the first n requests lie in the allocated ones if and only if n is less than max_size |
| RequestRing.RequestBuffer.Take | webserver/server_thread.c:541-566 | the oldest request is taken; the producer is woken exactly when the buffer was full |
| RequestRing.RequestBuffer.AddSection | webserver/server_thread.c:517-539 | the locked section on the array is the protocol's step: the request joins the end just if there is room, else the producer sleeps |
| RequestRing.RequestBuffer.TakeSection | webserver/server_thread.c:541-566 | the locked section on the array is the protocol's step: the oldest request is taken just if there is one, else the worker sleeps |
| RequestRing.NeverAllStuck | webserver/server_thread.c:517-566 | in every reachable state some thread is awake and its next section takes or adds a request |
| RequestRing.FifoOnce | webserver/server_thread.c:517-566 | in every interleaving the requests for which there was room are, in that order, those taken and then those pending, each once, and never more than the capacity is pending |

## Left out

- The stdio device, options and output of `mktestfs`, parsing and output of the shell, `ls`, `stat`, `testfs_ls` and the commands on file contents: the device is a value with one region per kind of block.
- The byte layout of inode blocks and of the superblock: an inode block holds 128 inodes, the superblock the counters.
- A read that starts beyond the size, which the callers exclude and where the unsigned subtraction at fs/read_write.c:69 would wrap.
- Widths of C integers other than the bitmap's size computation and the stored 32-bit fields: counts, sizes and the `int offset` of a directory write are unbounded.
- Running out of memory, except where `thread_create` reports it.
- InodeTables.InodeTable.Get: the hash chains of the inode table are a map, and inodes of several file systems in one table are not modelled.
- Directories.AddDirent: when appending fails after some bytes, the partial record is stated but no further operation on that directory is.
- Commands.CreateEmptyDir: the removal of `.` after a failure is the call's EINVAL, which changes nothing.
- Commands.Context.Session: the commands that change names only; a session ends at a directory with part of a record in it, or at an assert that fails.
- The reference that `ls` keeps on a file that is not a directory (fs/dir.c:310-311).
- Saved contexts, signals and stacks of threads: a switch changes the running thread, and `thread_stub` clears the exit queue in one step with its test.
- ThreadInvariant.StepKeeps: the calls are steps on values; only the queue functions are methods on linked nodes. Destroying a wait queue of the user's with sleepers, and calls on a lock or condition variable that has been destroyed, are excluded.
- ThreadExact.ThreadsStep: what the calls return to their callers, thread ids, counts and error codes.
- ThreadTheorems.ReturnsHolding: not that `lock_acquire` returns; alone on a held lock it spins.
- WebCache.Cache.CacheInsert: the file's bytes are its size; who frees them, and that the request which inserted a file goes on sending it without a pin, are not modelled.
- RequestRing.RequestBuffer.Add: the array has max_size slots as its indices assume, while webserver/server_thread.c:587 allocates one fewer; `RequestRing.SlotsAllocatedIff` says when that is enough.
- Server start-up, `exiting`, shutdown, HTTP, clients and file sets; unused list helpers; everything under `warmup/`.
