# Verified model of the kernel's accounting code

This project models, in Dafny, the parts of the repository in which a counter, an index, a cache, a
chain or a log has to agree with something simpler over every run, and proves that it does:

* **Memory** - four-level page tables with a reference count for every frame, the shared zero page,
  copy-on-write fork, fault resolution and teardown (`kernel/memory/paging.c`), the kernel heap
  (`kernel/memory/mman.c`) and the user break (`kernel/usermode/break.c`).
* **Processes and descriptors** - descriptor tables and pipes under fork, spawn, execve and exit
  (`kernel/usermode/fd.c`, `kernel/usermode/scheduler.c`), process groups and sessions, the ring of
  tasks, and the pipe buffer (`kernel/usermode/pipe.c`).
* **Storage** - the write-back cache and undo log of the BIOS installer (`limine/limine.c`), byte
  access over sectors and partitions (`kernel/drivers/block.c`, `kernel/drivers/partitions.c`), FAT
  chains (`kernel/fs/fat.c`) and files in memory (`kernel/fs/ramfs.c`).
* **Algorithms** - path normalisation (`kernel/vfs.c`) and the calendar (`kernel/drivers/timer.c`).

`dafny verify dfyconfig.toml` checks everything.

## How the models are built

Code that changes state is modelled by classes and methods with loops, each proved against functions
or predicates on values; what the code promises is then proved about those. A `panic` is a result
(`None`, or a status) after which nothing is promised.

*Paging.* `Place` names a slot of a paging tree by its path, `Shape` is the ghost picture of all
tables and leaf entries, and `PageTables.Inv` ties the picture to the words in memory and to the
counts: a frame's count is its permanent pins plus the entries that name it. `PageMachine` works on
the words alone, with the carried index and the cached table pointers of the original loops, and
re-establishes the picture. `AddressSpaces.ViewOf` is what programs see: for every mapped page its
contents and permissions, with no frames in it. `SpaceRuns` states isolation on views. The three
mapping loops of `paging.c` differ only in the frame they map, so one method with a `Backing`
parameter stands for them.

*Expensive invariants* are written `forall z :: Gate(z) ==> Body`. This is just `Body`; it keeps the
solver from unfolding it where a lemma already says what is needed, and `assert Gate(0)` opens it. Invariants of
different kinds that meet in one proof have gates of their own.

## Where the code does not do what one might expect

Each of these is a theorem of the project.

* `fat_truncate` follows the chain without masking the four reserved bits of a table entry, although
  `next_cluster` masks them. The table it leaves is stated for every chain (`FatFiles.Final`); the
  clusters kept and freed are the right ones if and only if no link of the chain has a reserved bit set
  (`FatFiles.ShortensExactly`). Otherwise the clusters behind the walk's end stay allocated, and if the
  walk was shorter than the number of clusters to give up, entry 0 of the table is overwritten
  (`FatFiles.ReservedBitLoses` shows both on a chain of two clusters).
* `fat_truncate` counts the old clusters in 32 bits and the new ones in 64. Both counts are right if and
  only if neither sum wraps (`FatTables.CountsRight`). A file of 4 GiB less one byte that is cut to 100
  bytes takes the growing branch (`FatTables.LargestFileGrows`), a small file that is to have 2^64 - 1
  bytes loses its clusters (`FatTables.LargestSizeShrinks`). A file is cut to fewer clusters rightly if
  and only if its old count does not wrap and no link has a reserved bit (`FatFiles.TruncatesExactly`).
* `ramfs_truncate` counts blocks in 64 bits. It leaves a consistent file with the common prefix if and
  only if the new size plus 4087 is less than 2^64 (`RamFiles.File.Truncate`); at 2^64 - 1 it frees every
  block and keeps that size (`RamFiles.TruncatedToTop`).
* `ramfs_read` and `fat_read` clip a request to the file by a sum that wraps. They give what they should
  if and only if the sum does not wrap or the file has nothing stored behind its size
  (`RamFiles.File.Read`, `FatFiles.Volume.Read`).
* A time survives packing into a FAT stamp (down to an even second) if and only if its year is from
  1980 to 2107 (`Calendar.StampRoundTrip`). A stamp is read behind the table of months exactly if its
  month field is 14 or 15 (`Calendar.FatTimestampToUnix`).
* A spawn or an execve that fails after its table was copied leaves the references of the abandoned
  table behind. If an action of a spawn fails, the counts are exact for the other tasks if and only if
  the parent had nothing open; if the program cannot be loaded, if and only if everything open after the
  actions is close-on-exec (`Descriptors.Files.AddTask`; `Descriptors.SpawnOfMissingProgram` is a case).
  For an execve of a program that cannot be loaded they are exact if and only if everything open is
  close-on-exec (`Descriptors.Files.Execve`).
* An `fd_open` whose path opens but cannot be truncated, with a free entry and a free description,
  hands out a handle that is never closed; the model collects exactly these in `leaked`
  (`Descriptors.Files.OpenDescription`; `Descriptors.OpenOfUntruncatable` is a case). All others are
  closed exactly once.
* `block_read` and `block_write` return a size cut to an `int`. Their answer to a transfer of at least one
  byte is the right one if and only if the range exists and has less than 2^31 bytes, or does not exist
  and does not wrap around 2^64, or wraps and its size cut to an `int` is negative
  (`BlockAccess.Disk.BlockRead`, `BlockAccess.Disk.BlockWrite`). Transfers of 2 GiB and 4 GiB succeed and
  are reported as an error and as 0 bytes (`BlockAccess.LargeTransfers`); a wrapped range can report
  success after moving nothing (`BlockAccess.WrappedRange`).
* `make_absolute` writes one byte behind its buffer exactly for a relative path from a working
  directory of 4095 characters without a slash at the end (`Paths.MakeAbsolute`, `Paths.Task.Chdir`), and
  `chdir` can lead to such a directory with no name longer than 255 (`Paths.NoRoomIsReachable`).
* Replaying the undo log in recording order would be wrong; the order of `reverse_uninstall_data`
  matters (`UndoLog.ForwardReplayIsWrong`).
* The initial size of the kernel heap comes out of a subtraction that wraps and is cut to 32 bits. For
  kernel images below 2 GiB it is what it should be, and positive if and only if the image has at most
  0x7FFFE000 bytes (`KernelHeap.InitialRange`).
* A writer of a pipe gets `EINTR` if and only if it still has bytes to write, may block, has a reader and
  has a signal pending when the pipe is full (`PipeRing.Pipe.WriteTo`); what went in before stays
  accepted. With a signal pending at the first wait, an error is reported although bytes were accepted if
  and only if the write may block, there is a reader, and there is room, but not enough
  (`PipeRing.InterruptedWrite`). `fd.c` passes `flags & O_NONBLOCK` as the parameter `blocking`; the model
  is of `pipe_write` and takes that parameter as it comes.

## Model

| member | source | states |
|---|---|---|
| PageTables.LeafReferenced | kernel/memory/paging.c:208-213 | A frame named by a leaf entry has a positive count |
| PageTables.FreeFrameUnnamed | kernel/memory/paging.c:108-116 | A frame with count zero is named by no table and no leaf entry and is not pinned, so handing it out is safe |
| PageTables.SoleReference | kernel/memory/paging.c:657-672 | A frame that some entry maps writable has count exactly one and that entry is its only name |
| PageTables.ZeroPageNeverWritable | kernel/memory/paging.c:406-411 | No entry maps the zero page writable |
| PageTables.NewTableInv | kernel/memory/paging.c:118-125 | Making a cleared, not yet linked table keeps the whole invariant |
| PageTables.SameNamesSameCounts | kernel/memory/paging.c:108-125 | Two consistent memories whose entries name the same frames have the same counts |
| PageTables.MoveLeafStep | kernel/memory/paging.c:657-672 | Moving one entry to a fresh frame keeps the invariant: one count down, one up |
| PageTables.ShareStep | kernel/memory/paging.c:560-575 | Copying an entry to another table while both turn copy-on-write keeps the invariant |
| Places.PageOfInjective | kernel/memory/paging.c:97-106 | Two leaf places of one space with the same page number are the same place |
| Places.AdvanceIsNextPage | kernel/memory/paging.c:215-227 | The carried index of the mapping loops is the index that get_page_entry computes for the next page |
| Places.SlotFacts | kernel/memory/paging.c:97-106 | The four indices of a user address lead to the one leaf place of that page |
| PageMachine.Machine.GetAvailableAddress | kernel/memory/paging.c:108-116 | Finds the first frame with count zero from first_usable on, or proves that there is none |
| PageMachine.Machine.AllocatePhysicalPage | kernel/memory/paging.c:118-125 | Takes the first free frame, counts it and clears its words and nothing else |
| PageMachine.Machine.EnsureTable | kernel/memory/paging.c:140-192 | Returns the table below a slot, making and linking it if it is absent, without changing any mapping |
| PageMachine.Machine.MapPage | kernel/memory/paging.c:203-213 | Maps one page and counts its frame, or finds it mapped already |
| PageMachine.RegionIsAs | kernel/memory/paging.c:203-413 | Permissions, other flags and frame of every new entry, stated apart from the word that is written |
| PageMachine.Machine.Descend | kernel/memory/paging.c:146-196 | The cached table pointers, refreshed only where the carry reached, are the tables on the path of the current index |
| PageMachine.Machine.AllocRegion | kernel/memory/paging.c:134-430 | Maps exactly the pages of the region, each new, with the permissions asked for (on the zero page copy-on-write instead of writable), on a frame of its own, the device frame of its place or the zero page; changes no other mapping and keeps all counts exact; reports a clash only if a page of the region was mapped, and lack of memory only with no frame free |
| PageMachine.Machine.FindTables | kernel/memory/paging.c:18-34 | The four-level walk succeeds exactly on mapped pages |
| PageMachine.Machine.GetPhysicalAddress | kernel/memory/paging.c:18-34 | Gives the frame of the flat map, None exactly for unmapped pages |
| PageMachine.Machine.ClearEntry | kernel/memory/paging.c:460-475 | Clears one entry, drops one reference of its frame, lowers first_usable if it became free |
| PageMachine.Machine.Reap | kernel/memory/paging.c:476-516 | Frees a table exactly when all its entries are absent |
| PageMachine.Machine.FreePage | kernel/memory/paging.c:432-519 | Unmaps exactly one page and frees the tables on its way that become empty; -1 and no change for unmapped pages and address 0 |
| AddressSpaces.CopyPage | kernel/memory/paging.c:652-668 | The copying branch of a write fault gives the page its own frame with the same contents; no view changes |
| AddressSpaces.ReclaimPage | kernel/memory/paging.c:669-672 | The sole-reference branch only changes flags; no view changes |
| AddressSpaces.CowHandler | kernel/memory/paging.c:631-677 | True exactly for copy-on-write pages, which then are writable; no page of any space changes its contents; it gives up only on a shared page with no frame free |
| AddressSpaces.StoreView | kernel/memory/paging.c:657-672 | A store through a writable entry changes one word of one page in one space |
| AddressSpaces.Store | kernel/memory/paging.c:631-677 | The same through the page tables, whose entries must allow it at every level: it succeeds exactly on writable user pages |
| PageFork.CloneLeaf | kernel/memory/paging.c:556-572 | One leaf entry of the clone loop: shared frame, count plus one, both sides copy-on-write if writable |
| PageFork.CloneEntries | kernel/memory/paging.c:528-585 | The loops over a table copy everything below it and nothing else |
| PageFork.ClonePageTables | kernel/memory/paging.c:528-585 | Every page of the original has its copy on the same frame, writable turned into copy-on-write on both sides, the upper half shared, everything else unchanged; it gives up only with no frame free |
| PageFork.FreePageTables | kernel/memory/paging.c:587-629 | Exactly one space disappears; counts stay exact |
| PageFork.ForkThenFree | kernel/memory/paging.c:528-629 | Conservation: after clone and free all counts, tables and frames are the old ones, and write permission is at most traded for copy-on-write |
| PageFork.ForkAndDiscard | kernel/memory/paging.c:528-629 | The same by running both operations on the machine, leaf entries included |
| SpaceRuns.StepIsolation | kernel/memory/paging.c:631-677 | A step that does not act on a space changes none of its pages |
| SpaceRuns.RunIsolation | kernel/memory/paging.c:528-677 | A space keeps every page over any run that does not act on it |
| SpaceRuns.ForkIsSnapshot | kernel/memory/paging.c:528-585 | A child reads the parent's pages of the moment of the fork, whatever happens to the parent later |
| SpaceRuns.Fork | kernel/memory/paging.c:528-585 | Cloning is a copy step of the private-page machine |
| SpaceRuns.UserWrite | kernel/memory/paging.c:631-677 | A user write, with a fault if needed, is a write step to one page of one space |
| SpaceRuns.MapPages | kernel/memory/paging.c:134-430 | Mapping is a step that adds exactly the region's pages, writable and for user programs as the flags say |
| SpaceRuns.UnmapPages | kernel/memory/paging.c:521-526 | Unmapping is a step that removes exactly the region's pages |
| SpaceRuns.MapThenWrite | kernel/memory/paging.c:134-677 | A page just mapped writable for user programs, fresh or zero page, can be written |
| SpaceRuns.Perform | kernel/memory/paging.c:134-677 | Each operation brings about its one event: a write is made exactly if the page is writable and for user programs, a mapping, unmapping, fork or discard of a space that is there takes place |
| SpaceRuns.Execute | kernel/memory/paging.c:134-677 | Any sequence of kernel operations on any set of spaces is a run of the private-page machine in which each operation brings about its event, and spaces not acted on keep every page; it stops early only at a clash or with no frame free |
| Boot.BootInv | kernel/memory/paging.c:36-95 | The memory that init_paging leaves satisfies the whole invariant |
| Boot.HighestReached | kernel/memory/paging.c:43-53 | The number of frames is the end of some usable region |
| Boot.HomeFits | kernel/memory/paging.c:54-69 | The bitmap lies in the first usable region that is large enough |
| Boot.BitmapFrames | kernel/memory/paging.c:87-91 | The frames taken for the bitmap are those that hold one of its counters |
| Boot.BitmapUsable | kernel/memory/paging.c:54-69 | The bitmap lies in usable frames |
| Boot.MarkUsable | kernel/memory/paging.c:72-86 | A frame is free exactly if some usable region of the memory map holds it |
| Boot.InitPaging | kernel/memory/paging.c:36-95 | Starts a consistent machine whose free frames are exactly the usable ones outside the bitmap, without the zero page, which is the first of them; panics exactly if the bitmap has no home or nothing is left |
| UserBreak.FreeRegion | kernel/memory/paging.c:521-526 | Unmaps exactly the pages of the region |
| UserBreak.ClearRegion | kernel/usermode/break.c:32-32 | Clears exactly the pages of the region |
| UserBreak.Task.SetBrk | kernel/usermode/break.c:14-39 | The mapped heap pages stay exactly those from initial_brk to the page-aligned break; new pages are zero, kept ones unchanged |
| UserBreak.Task.Sbrk | kernel/usermode/break.c:41-67 | Returns the old break and moves it, or returns -1 with nothing changed, exactly by the range checks |
| KernelHeap.InitialRange | kernel/memory/mman.c:18-24 | For images below 2 GiB the wrapped and truncated page count is what lies up to one page below the end of the address space, and it is positive iff the image has at most 0x7FFFE000 bytes |
| KernelHeap.Heap.constructor | kernel/memory/mman.c:18-24 | One free region covers the whole range |
| KernelHeap.SplitPartition | kernel/memory/mman.c:125-143 | Cutting a region keeps the table a partition of the range |
| KernelHeap.SplitTotal | kernel/memory/mman.c:125-143 | Cutting a region conserves the total number of pages |
| KernelHeap.SplitLive | kernel/memory/mman.c:125-143 | The new allocation is apart from all live ones |
| KernelHeap.MallocSound | kernel/memory/mman.c:145-151 | No page of the chosen region is mapped, and mapped pages stay exactly those of allocated regions |
| KernelHeap.FreeSound | kernel/memory/mman.c:114-122 | The same for freeing |
| KernelHeap.LiveIsMapped | kernel/memory/mman.c:100-151 | Live allocations do not overlap and are together exactly the mapped heap pages |
| KernelHeap.Heap.FindAvailable | kernel/memory/mman.c:125-143 | First fit, and the exact condition for a panic |
| KernelHeap.Heap.KMalloc | kernel/memory/mman.c:145-151 | One more live allocation, apart from the others, at the first free region that is large enough, on pages that were not mapped |
| KernelHeap.Heap.KFree | kernel/memory/mman.c:100-123 | One live allocation less, with its pages; nothing below the heap |
| Descriptors.OpenWhileNamed | kernel/usermode/fd.c:86-98 | A description has a positive count exactly while some table entry names it |
| Descriptors.PipeWhileEnds | kernel/usermode/pipe.c:14-22 | A pipe exists exactly while an open description is one of its ends; every pipe made is released exactly once, when its last end is closed |
| Descriptors.ClosedOnce | kernel/usermode/fd.c:68-98 | Every handle not lost by a failed open is closed exactly once, when its last reference goes |
| Descriptors.AbandonedTable | kernel/usermode/scheduler.c:402-436 | Without a task that nobody can reach the counts are exact iff its table is empty |
| Descriptors.LeftUnused | kernel/usermode/scheduler.c:409-448 | An abandoned child's table is empty iff the parent had nothing open (failing action) or all that is open after the actions is close-on-exec (failing loading) |
| Descriptors.ActedAllJoins | kernel/usermode/scheduler.c:409-436 | Spawn actions are carried out in their order |
| Descriptors.ActedPartStops | kernel/usermode/scheduler.c:409-436 | Nothing is done behind the first action that fails |
| Descriptors.SpawnOfMissingProgram | kernel/usermode/scheduler.c:402-478 | One open file and a program that cannot be loaded: the counts are no longer exact |
| Descriptors.OpenOfUntruncatable | kernel/usermode/fd.c:46-54 | One failing truncation: a handle is handed out and never closed |
| Descriptors.KeepsPromises | kernel/usermode/fd.c:19-98 | The invariant implies the three results above for all descriptions, pipes and handles |
| Descriptors.Files.constructor | kernel/usermode/fd.c:19-66 | One task with nothing open satisfies the invariant |
| Descriptors.Files.Run | kernel/usermode/fd.c:19-403 | Over every run of open, dup, dup2, pipe, close, fork, spawn, execve and exit, each state follows from the one before by the effect of its call, keeps the three results, and what was closed, freed or lost stays so |
| Descriptors.Files.Perform | kernel/usermode/fd.c:19-403 | One call has its effect on the tables, descriptions, pipes and handles |
| Descriptors.DropSlotInv | kernel/usermode/fd.c:86-98 | Dropping one entry keeps counts, pipe ends and closings exact |
| Descriptors.ShareSlotInv | kernel/usermode/fd.c:227-244 | Naming an open description once more keeps them exact |
| Descriptors.OpenSlotInv | kernel/usermode/fd.c:19-66 | A new description in an empty entry keeps them exact |
| Descriptors.OpenPipeInv | kernel/usermode/fd.c:290-322 | A new pipe with two descriptions keeps them exact |
| Descriptors.Files.FdClose | kernel/usermode/fd.c:86-98 | Empties one entry, drops one reference and closes the description with the last; EBADF and no change otherwise |
| Descriptors.Files.Dup | kernel/usermode/fd.c:227-244 | The lowest free entry from minfd on names the same description; each error exactly under its condition |
| Descriptors.Files.Dup2 | kernel/usermode/fd.c:273-288 | The target entry names the source's description, after closing what it named |
| Descriptors.Files.OpenDescription | kernel/usermode/fd.c:37-65 | A free description and the lowest free entry; each error exactly under its condition; a handle is lost exactly if the open succeeds and the truncation fails |
| Descriptors.Files.OpenPipeEnds | kernel/usermode/fd.c:290-322 | The lowest free entry gets the read end and the next one the write end of a new pipe, neither close-on-exec; nothing else changes; each error exactly if fewer than two are free |
| Descriptors.Files.AddTask | kernel/usermode/scheduler.c:402-478 | The child's table after success and after failure, failure exactly if an action or the loading fails, nothing close-on-exec left open after success, and the exact condition under which an abandoned child costs no references |
| Descriptors.Files.Fork | kernel/usermode/scheduler.c:289-293 | The child's table is the parent's; every reference is counted; nothing is closed |
| Descriptors.Files.Execve | kernel/usermode/scheduler.c:563-589 | The surviving entries move to the new task, the old table is released; if the program cannot be loaded, the counts are exact for the other tasks iff all that was open is close-on-exec |
| Descriptors.Files.Exit | kernel/usermode/scheduler.c:248-266 | The table of the exiting task is released |
| Descriptors.Files.ReleaseTable | kernel/usermode/fd.c:398-403 | All entries of one table are dropped, those of others stay |
| Sessions.RunGood | kernel/usermode/scheduler.c:268-307 | In every state of every run all live tasks of a group are in one session, leaders lead, ids are unique |
| Sessions.LeaderKeeps | kernel/usermode/scheduler.c:954-998 | A group leader keeps its group and session over any run, through execve, until its pid is gone |
| Sessions.StepGood | kernel/usermode/scheduler.c:395-437 | Every step keeps the session invariant |
| Sessions.FoundInv | kernel/usermode/scheduler.c:954-981 | A group founded by setpgid was empty before |
| Sessions.SessionInv | kernel/usermode/scheduler.c:993-998 | The group and session made by setsid were unused before |
| Sessions.EnteredGroup | kernel/usermode/scheduler.c:964-979 | The group entered lies in the caller's session, and was empty if it was founded |
| Sessions.Tasks.FindGroup | kernel/usermode/scheduler.c:965-976 | Finds a live member of the group exactly if there is one |
| Sessions.Tasks.GetChild | kernel/usermode/scheduler.c:664-671 | Finds a live child with that pid exactly if there is one |
| Sessions.Tasks.SetPgid | kernel/usermode/scheduler.c:954-981 | Succeeds exactly if the target exists and may enter the group, then sets its group to the one named, or to its own pid for 0; setpgid(0, 0) always does; ESRCH exactly for a missing target or group, EPERM for a target of another session |
| Sessions.Tasks.SetSid | kernel/usermode/scheduler.c:993-998 | Refused exactly to group leaders; otherwise a session nobody was in |
| Sessions.Tasks.Fork | kernel/usermode/scheduler.c:268-307 | The child has a pid nobody had, its parent's group and session |
| Sessions.Tasks.Execve | kernel/usermode/scheduler.c:563-589 | The new record takes over ids and children, the old one is deleted and nobody's parent any more |
| Sessions.Tasks.Exit | kernel/usermode/scheduler.c:248-266 | A zombie keeps its ids, its children and no others go to init_task |
| RoundRobin.NextUnique | kernel/usermode/scheduler.c:105-112 | The task to run next is determined by the run states and the last choice |
| RoundRobin.Closer | kernel/usermode/scheduler.c:105-112 | A ready task that is not chosen comes strictly closer |
| RoundRobin.BoundedWaiting | kernel/usermode/scheduler.c:105-112 | A task that stays ready on a ring of n is chosen within n calls |
| RoundRobin.WithoutExactly | kernel/usermode/scheduler.c:38-71 | What collection keeps is exactly the tasks not deleted, without repetition |
| RoundRobin.WithoutJoins | kernel/usermode/scheduler.c:38-71 | The tasks that stay keep their order |
| RoundRobin.Scheduler.GetNextTask | kernel/usermode/scheduler.c:105-112 | The first ready task after the last one in ring order, nobody in between being ready; None exactly if no task is ready |
| RoundRobin.Scheduler.LinkBehind | kernel/usermode/scheduler.c:295-296 | A new task goes directly behind a given one and the ring stays a ring |
| RoundRobin.Scheduler.Collect | kernel/usermode/scheduler.c:38-71 | Unlinks exactly the deleted tasks; the round-robin pointer stays on the ring |
| PipeRing.Fifo | kernel/usermode/pipe.c:24-83 | Over any run the bytes read followed by those held are the bytes accepted, and at most 8183 are held |
| PipeRing.PutTakes | kernel/usermode/pipe.c:49-83 | When a pass of a writer takes nothing and when everything |
| PipeRing.RingDrop | kernel/usermode/pipe.c:24-47 | Advancing the read head drops exactly the bytes read, also around the end |
| PipeRing.RingGrow | kernel/usermode/pipe.c:69-79 | Copying a chunk in one or two pieces appends it to the ring |
| PipeRing.Pipe.constructor | kernel/usermode/pipe.c:7-12 | An empty pipe with one reader and one writer |
| PipeRing.Pipe.ReadFrom | kernel/usermode/pipe.c:24-47 | Gives the oldest bytes up to the request; EAGAIN exactly if empty with writers left |
| PipeRing.Pipe.PerformOne | kernel/usermode/pipe.c:14-83 | Every operation on the ring is the operation on the queue; the counts of ends change only by an end that is dropped |
| PipeRing.Pipe.WriteTo | kernel/usermode/pipe.c:49-83 | A write that waits any number of times is a run of atomic acts in which its bytes go in once each and in order and others have a turn only when the pipe is full; every result, EINTR included, exactly under its condition |
| PipeRing.InterruptedWrite | kernel/usermode/pipe.c:59-66 | With a signal pending at the first wait, an error is reported although bytes were accepted iff the write may block, a reader is there, and the room is more than none and less than needed |
| DeviceCache.Device.FlushCache | limine/limine.c:268-294 | Afterwards the disk is what readers see |
| DeviceCache.Device.CacheBlock | limine/limine.c:296-324 | Another block is cached, what readers see stays; fails exactly for missing blocks |
| DeviceCache.Device.ReadRaw | limine/limine.c:467-487 | Exactly the logical bytes, across any block boundaries; fails exactly out of range |
| DeviceCache.Device.WriteRaw | limine/limine.c:489-546 | Changes exactly its range of the logical bytes and logs what was there |
| DeviceCache.Device.WriteBack | limine/limine.c:518-546 | The same without logging while undoing |
| UndoLog.ReplayReversed | limine/limine.c:340-346 | Replaying in reverse gives each byte the value of its earliest save |
| UndoLog.UndoRestores | limine/limine.c:340-346 | From any point of an installation the reversed log restores the original, whatever part of the cache was flushed |
| UndoLog.ForwardReplayIsWrong | limine/limine.c:340-346 | In recording order it would not |
| UndoLog.JournalWrite | limine/limine.c:489-546 | A logged write keeps the journal invariant |
| UndoLog.ReverseSaved | limine/limine.c:340-346 | Reverses the log in place |
| UndoLog.Uninstall | limine/limine.c:548-598 | Drops the cache, replays the log and flushes; succeeds exactly if every entry fits |
| UndoLog.Perform | limine/limine.c:467-546 | An access succeeds exactly if it lies on the device and the log has room; a write then changes its range, a read gives the bytes of its range |
| UndoLog.Install | limine/limine.c:1036-1799 | Any sequence of reads, overlapping writes and flushes, up to the first impossible one, makes exactly its writes and keeps the journal invariant |
| UndoLog.InstallAndUndo | limine/limine.c:1802-1813 | Whatever was done before the abort, the device ends with exactly its original bytes |
| BlockAccess.PartIsWindow | kernel/drivers/partitions.c:182-200 | What a partition shows is the parent disk shifted by its start |
| BlockAccess.Disk.Locate | kernel/drivers/partitions.c:182-200 | The window check and shift, with unsigned wrap-around, name a sector of the window or none, and the error for it |
| BlockAccess.Disk.WriteSector | kernel/drivers/partitions.c:192-200 | Changes one sector inside the window or nothing |
| BlockAccess.Disk.BlockRead | kernel/drivers/block.c:37-66 | What is read and returned for every offset and size; for at least one byte the answer is the range and its size, or an error if it does not exist, iff an existing range has less than 2^31 bytes and a missing one does not wrap or has a size that is negative as an int |
| BlockAccess.Disk.BlockWrite | kernel/drivers/block.c:68-101 | Puts a prefix of the buffer in place, for every offset and size; all of it with its size returned, or an error, iff the same condition holds; nothing outside the window changes |
| BlockAccess.TransferExact | kernel/drivers/block.c:41-62 | Which sectors the loops ask for and how much they move: the whole of a range that does not wrap if it exists; a wrapped range never exists, yet runs unless it wraps to its own first sector and that is missing |
| BlockAccess.LargeTransfers | kernel/drivers/block.c:65-65 | Transfers of 2^31 and 2^32 bytes move everything and return -2^31 and 0 |
| BlockAccess.WrappedRange | kernel/drivers/block.c:41-65 | A wrapped range that moves nothing and returns 4096 |
| FatTables.WordAt | kernel/fs/fat.c:103-106 | An entry written into a sector reads back, the other entries stay |
| FatTables.LittleEndian | kernel/fs/fat.c:103-106 | Words lie least significant byte first |
| FatTables.EntryAddress | kernel/fs/fat.c:95-101 | Entry c of a copy lies 4 * c bytes behind its beginning, copies follow each other behind the reserved sectors |
| FatTables.ClusterAddress | kernel/fs/fat.c:111-115 | Cluster 2 is the first one behind the copies of the table, each later one has its sectors behind the one before |
| FatTables.EntriesApart | kernel/fs/fat.c:95-101 | Entries of different clusters or copies do not overlap |
| FatTables.WriteCopiesEntry | kernel/fs/fat.c:92-109 | After n rounds exactly the first n copies have changed, in one entry, in its low 28 bits |
| FatTables.WriteFatMirrors | kernel/fs/fat.c:92-109 | The cached table stays equal to every copy in the low 28 bits, the high 4 bits on disk stay |
| FatTables.CountsRight | kernel/fs/fat.c:928-929 | Both cluster counts are right iff neither the 32-bit nor the 64-bit sum wraps |
| FatTables.CountsComputed | kernel/fs/fat.c:928-929 | The counts are what the wrapped sums and divisions give |
| FatTables.LargestFileGrows | kernel/fs/fat.c:928-936 | A file of the largest size, cut to 100 bytes, takes the growing branch |
| FatTables.LargestSizeShrinks | kernel/fs/fat.c:929-977 | A file of 100 bytes, grown to 2^64 - 1, takes the shrinking branch and gives up its cluster |
| FatFiles.StopsAtEnd | kernel/fs/fat.c:980-986 | The unmasked walk reaches the end of the chain iff no link has a reserved bit set |
| FatFiles.ShortensExactly | kernel/fs/fat.c:974-1008 | In the table that shortening leaves, the clusters before the last difference ones form the chain and those are free, and nothing else changed, iff no link has a reserved bit set |
| FatFiles.TruncatesExactly | kernel/fs/fat.c:928-1008 | A file whose chain fits its size is cut to the clusters of a smaller size iff the old count does not wrap and no link has a reserved bit |
| FatFiles.StoppedEarly | kernel/fs/fat.c:980-1008 | Behind the place where the walk stopped nothing is kept in the file or freed |
| FatFiles.ReservedBitLoses | kernel/fs/fat.c:980-1008 | On a table of one sector, a two-cluster chain with a reserved bit, truncated to nothing: the second cluster is lost and entry 0 overwritten |
| FatFiles.OthersUntouched | kernel/fs/fat.c:974-1008 | No other chain and no byte of another file changes, wherever the walk stopped |
| FatFiles.PrefixKept | kernel/fs/fat.c:987-1000 | The bytes up to the new size stay and the rest of the last cluster is zero |
| FatFiles.ReadsAsBefore | kernel/fs/fat.c:476-519 | Reading the shortened file gives what reading the old one up to the new size gave |
| FatFiles.ReadRight | kernel/fs/fat.c:485-486 | The clipped read is the right one iff the sum does not wrap or the chain ends with the file |
| FatFiles.SectorByte | kernel/fs/fat.c:502-509 | Byte i of a run of sectors is byte i % 512 of sector i / 512 of the run |
| FatFiles.Volume.constructor | kernel/fs/fat.c:50-70 | Mounting a volume whose table copies agree caches the first copy, after which every copy mirrors the cached table |
| FatFiles.Volume.WriteFat | kernel/fs/fat.c:92-109 | One cached entry changes, every copy follows, data and reserved bits stay |
| FatFiles.Volume.Skip | kernel/fs/fat.c:493-499 | Finds the cluster of an offset, or the end of the chain |
| FatFiles.Volume.Read | kernel/fs/fat.c:476-519 | For every offset and size, the bytes of the chain from the offset, cut to request, size and chain, iff the sum does not wrap or nothing of the chain lies behind the size; -3 exactly behind the chain |
| FatFiles.Volume.FindTail | kernel/fs/fat.c:976-986 | The ring holds the tail of the chain walked |
| FatFiles.Volume.FreeTail | kernel/fs/fat.c:1005-1008 | Frees exactly the last clusters walked, and entry 0 if there were fewer |
| FatFiles.Volume.Truncate | kernel/fs/fat.c:928-1008 | The branch taken for every pair of sizes; in the shrinking one the exact table left for every chain, the first cluster, and that only the last kept cluster is cleared behind the new size |
| TailRing.Push | kernel/fs/fat.c:984-985 | The ring of n slots holds the last n links visited |
| TailRing.Oldest | kernel/fs/fat.c:987-987 | The slot after the head holds the oldest of them, or was never used |
| TailRing.Moduli | kernel/fs/ramfs.c:442-458 | The two modulo steps go one slot forwards and one backwards |
| RamFiles.File.Read | kernel/fs/ramfs.c:152-167 | For every offset and count what is read, and when a null pointer is followed; in a consistent file it is the slice clipped to the size iff the sum does not wrap or the blocks end with the file |
| RamFiles.File.Write | kernel/fs/ramfs.c:325-355 | The blocks, grown by blank ones, are overwritten exactly at the range; size and chain length keep in step; it panics exactly if the blocks do not suffice |
| RamFiles.File.Truncate | kernel/fs/ramfs.c:410-462 | The chain, the size and the blocks freed for every new size below 2^64, and the clearing of the last block kept; the file is consistent and keeps the common prefix iff the new size plus 4087 does not wrap |
| RamFiles.CountedRight | kernel/fs/ramfs.c:413-414 | The count of blocks is right iff the sum does not wrap |
| RamFiles.TruncatedToTop | kernel/fs/ramfs.c:410-462 | A file of 10 bytes, truncated to 2^64 - 1, has no block and that size |
| RamFiles.File.Run | kernel/fs/ramfs.c:135-462 | Any interleaving of reads, writes and truncations whose sums do not wrap behaves as on a sequence of bytes, until the blocks run out |
| RamFiles.HoldsLastWritten | kernel/fs/ramfs.c:135-462 | In every run the file holds at each place what was last written there, unless it was cut off since |
| RamFiles.File.NextOrNew | kernel/fs/ramfs.c:332-337 | The next block, made blank if there is none |
| RamFiles.WriteOverwrites | kernel/fs/ramfs.c:325-355 | Bytes of the range are the buffer's, other bytes of the file stay |
| RamFiles.CutPrefix | kernel/fs/ramfs.c:433-456 | What shrinking clears lies behind the new size, even when the chain has spare blocks |
| RamFiles.StorePatch | kernel/fs/ramfs.c:339-344 | Overwriting a part of one block overwrites the file at the block's place |
| Paths.ResolvePath | kernel/vfs.c:118-186 | The output begins with a slash and has no empty inner component; if the input fits, its components are the walk along the input's from the root |
| Paths.TakeComponent | kernel/vfs.c:164-181 | Copying a component keeps the walk on its way |
| Paths.GoUp | kernel/vfs.c:141-162 | Backtracking removes exactly the last component of the output, nothing at the root |
| Paths.WalkLaws | kernel/vfs.c:118-186 | A name and the ".." behind it cancel, ".." at the root and "." anywhere are nothing, names stay |
| Paths.ResolvedIsFixed | kernel/vfs.c:118-186 | A resolved path has no "." and "..", and resolving it again changes nothing |
| Paths.WalkOn | kernel/vfs.c:90-186 | Resolving wd + "/" + path is continuing the walk from wd |
| Paths.ComponentsJoin | kernel/vfs.c:164-181 | A slash separates components |
| Paths.MakeAbsolute | kernel/vfs.c:90-115 | The path itself or the working directory, one slash and the path, cut to the buffer; the byte behind the buffer is written exactly if there is no room for the slash |
| Paths.Task.Chdir | kernel/vfs.c:803-818 | The working directory is always a resolved path and moves exactly where the path leads from it; undefined exactly if there is no room for the slash |
| Paths.NoRoomIsReachable | kernel/vfs.c:90-115 | A directory of 4095 characters can be entered, and a relative chdir from it writes behind the buffer |
| Calendar.UnixIsPosix | kernel/drivers/timer.c:42-59 | Timestamps are those of the formula in section 4.16 of POSIX.1-2017 Base Definitions, with the day of the year in closed form |
| Calendar.MonthsBefore | kernel/drivers/timer.c:48-56 | The days before a month are those of a closed formula, without the table |
| Calendar.ValidDates | kernel/drivers/timer.c:61-95 | Valid dates, described without the table of months |
| Calendar.UnixInjective | kernel/drivers/timer.c:42-59 | Different valid dates have different timestamps |
| Calendar.ToUnixTimestamp | kernel/drivers/timer.c:42-59 | The loops compute the days of the date; they leave the table of months exactly for months above 13 |
| Calendar.ToDatetime | kernel/drivers/timer.c:61-95 | The one valid date with that timestamp; the month index stays within the table |
| Calendar.RoundTrips | kernel/drivers/timer.c:42-95 | Both conversions invert each other |
| Calendar.FatTimestampToUnix | kernel/fs/fat.c:12-24 | The timestamp of the unpacked fields; undefined exactly for month fields 14 and 15 |
| Calendar.UnixToFatTimestamp | kernel/fs/fat.c:26-41 | The packed date of the timestamp |
| Calendar.UnpackPack | kernel/fs/fat.c:12-41 | What packing loses: years before 1980, years modulo 128, odd seconds |
| Calendar.StampLayout | kernel/fs/fat.c:12-41 | Years, months and days, and hours, minutes and half seconds in their bit fields, both ways |
| Calendar.StampRoundTrip | kernel/fs/fat.c:12-41 | The time rounded down to an even second iff the year is from 1980 to 2107 |

## Left out

- Reference counts and pipe end counts are unbounded; the 32-bit and 16-bit wrap-around of the C types is not modelled.
- The upper half of the address space is shared by all spaces and outside the page-table invariant; the kernel heap sees it as a flat set of mapped pages.
- The hardware's accessed and dirty bits, TLB flushes, CR3 loads and inline assembly.
- The nested loops of `clone_page_tables` and `free_page_tables` are one method per level, called for the levels in turn.
- PageMachine.Machine.AllocRegion: device memory in the user half is modelled only where its frames are pinned and mapped read-only, as the kernel maps its time page.
- Boot.InitPaging: the HHDM offset and the memory the boot loader itself occupies are not modelled.
- UndoLog.InstallAndUndo: assumes, like the installer, that device input and output succeed; storing the log in a file is left out.
- KernelHeap.Heap.constructor: kernel images that leave no heap are outside the contract.
- BlockAccess.Disk.BlockRead: disks have less than 2^63 bytes, the range of `get_device_size`.
- KernelHeap.Heap.KMalloc: a size of zero is outside the contract; the clearing of the new memory is not modelled. The page count of a size above 2^64 - 4096 wraps to zero in the code, which then panics for want of frames, in the model for want of a region.
- KernelHeap.Heap.KFree: a pointer that is not the start of a live region is outside the contract.
- Descriptors.Files.OpenDescription: path lookup and the file system's own open are a parameter; close callbacks succeed.
- Sessions.Tasks.Execve: the record goes on as the current one; which ready task runs next is the business of `RoundRobin`.
- Spawn actions on groups and sessions are the steps `Join`, `Found` and `NewSession` of the run model after `Birth`; a failed spawn is not a live task.
- Signals, stopping and continuing, both blocking paths of `waitpid`, kernel workers, the idle task and execve by `init_task`.
- RoundRobin.Scheduler.Collect: where the round-robin pointer lands when its own task is unlinked is only stated as a task of the ring.
- The order of a task's children, and their sibling pointers.
- PipeRing.Pipe.WriteTo: the reading loop of `read` in `fd.c`, which retries on an empty pipe, is left out.
- FatFiles.Volume.Truncate: the growing branch is only named, not carried out; writing the directory entry back is left out, and so are files with a size but no chain.
- FatFiles.Volume.constructor: the fields of the boot sector are parameters, and the sectors can be read.
- `fat_write_to_file`, directories and the search for free clusters.
- RamFiles.File.constructor: the memory that `kmalloc` has for blocks is a number of blocks set beforehand, less than 2^19; running out of it is the panic, and other files take nothing from it.
- RamFiles.File.Truncate: bytes that a later growth exposes again are whatever the blocks hold; zero fill is not promised by the code either.
- Ramfs directories, devices and times; the mount tree.
- Calendar.ToDatetime: years are unbounded, where the code counts them in an `int`.
- `kernel/fs/glfs.c`, `kernel/fs/devfs.c`, sockets and the network stack, the terminal, consoles, the shell and user programs.
