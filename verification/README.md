# nanaos: the kernel's core, modelled and proved

A Dafny model of the parts of the nanaos kernel that have an abstract meaning to agree with: page
tables, the kernel heap, processes with their scheduler and context switch, the physical frame
allocator and the Multiboot2 walk that feeds it, the in-memory filesystem with its file descriptors
and FAT32 reader, the event ring, the ELF loader and the decimal printer and parser.

`dafny verify dfyconfig.toml` checks everything.

## How the model is built

Each component has two layers.

* A specification on values: datatypes for the state, one function per operation with the source's
  branches, constants, error codes and 64-bit or 32-bit wrap-around, and the lemmas that say what the
  operations mean, over single calls and over whole runs.
* Where the source changes state step by step, a class (or a method with loops) that does the same:
  linked lists with `next` pointers, arrays of regions, tables in memory words, character buffers.
  Each method's contract ties the new state to the specification function, so every lemma about the
  function is a statement about the loop.

| files | source | contents |
|---|---|---|
| `Words`, `Bytes` | | 64-bit arithmetic, little-endian fields |
| `Heap` | kernel/memory/heap.c | the bump allocator |
| `Paging`, `PageTree`, `PageMapping`, `PageLimits`, `PageCodes`, `PageSpaces`, `Vmm` | kernel/memory/vmm.c | tables in raw memory against the four-level walk of the Intel SDM, Volume 3A, section 4.5 |
| `Scheduling`, `SchedulerRuns`, `RunQueue` | kernel/scheduler/scheduler.c, kernel/process/process.c | run queue, zombies, process creation, whole runs, liveness |
| `ProcessMemory` | kernel/process/process.c | what runs of process creation do to the heap, the level 4 tables and the stacks |
| `ContextSwitch`, `SwitchMachine` | kernel/arch/x86_64/context_switch.S, kernel/process/process.c | saved frames, instruction by instruction and over whole runs |
| `Frames`, `FrameRuns`, `Coalescing`, `FramePool`, `Multiboot` | kernel/memory/pmm.c, kernel/memory/memory_map.c | the region table against a set of free frames; the tag walk of the Multiboot2 Specification, section 3.6.8 |
| `Vfs`, `VfsLaws`, `VfsWrites`, `VfsLongPaths`, `VfsTree` | kernel/fs/vfs.c | the node tree, path laws, nodes linked in memory |
| `Descriptors`, `DescriptorTable` | kernel/syscall/syscall.c, kernel/core/shell.c | open, read, lseek, close and the `cat` loop |
| `Fat32`, `FatLayout`, `FatNesting`, `FatDisk`, `FatNames`, `FatReader`, `FatTree`, `FatPaths` | kernel/fs/fat32.c | a volume as a finite tree and when it is one, the reader's loops, the tree's image in the filesystem |
| `EventRing`, `EventCalls` | kernel/core/events.c | producer and consumer as interleaved micro-steps, and whole calls among them |
| `Elf`, `ElfFiles` | kernel/exec/elf.c, kernel/exec/loader.c | the files that are taken, the codes for the others, the loaded image byte by byte |
| `Strings` | kernel/lib/string.c | strcmp, itoa, atoi |

## Where the code is not what one would expect

The model follows the code. These are proved, each with its exact condition or a concrete family of
inputs:

* kmalloc adds without checking for overflow; a block is real if and only if rounding and adding stay
  inside 64 bits (`Heap.KmallocHonest`).
* Tables come from an allocator that aligns to 8 bytes, but entries keep bits 51:12. A map that
  reports success is seen by the hardware if and only if there is no large page on the path and either
  it made no table, or the heap pointer was page-aligned and the flags had no bit 7
  (`PageLimits.MapSeenExactly`). Its premises leave out two lookups whose outcome the call does not
  decide: a misaligned new table read in memory older than it (`ReadsCleared`), and, under a large page,
  a misaligned heap or a real table met in the page's data (`StraysApart`).
* A map under a large page of any level changes no translation of any space, whatever it reports
  (`PageLimits.MapUnderLarge`); over a 2 MiB boot page it reports success and writes into the mapped
  memory (`PageLimits.MapOverLargePage`).
* A new space has a usable cr3 if and only if its level 4 table lands on a page boundary
  (`PageSpaces.CreateSpaceCorrect`). Created back to back, processes advance the heap by 22920 bytes, 8
  times an odd number, so in every run of the scheduler's operations in which nothing else uses the heap at
  most one process has such a table (`ProcessMemory.OneUsableSpace`).
* pick_next does not wrap at the tail: repeated yields stop at the last process
  (`SchedulerRuns.YieldsStopAtTail`); its loop ends if and only if current is on the queue or some
  member is READY (`SchedulerRuns.PickNextLoop`). Every process still finishes if each yields finitely
  often and exits (`SchedulerRuns.EveryoneFinishes`).
* After a successful kill the pid is found again if and only if it was the current process's
  (`Scheduling.KillFound`); one killed while not running is on neither list (`Scheduling.KillOther`).
* Adding a range stops at the first region it joins: a table without adjacent regions keeps that
  property if and only if the range does not bridge two of them (`Coalescing.AddRangeCoalesced`). With the
  property an allocation fails exactly when there are no n consecutive free frames
  (`Coalescing.CoalescedAlloc`); without it three free frames in a row may not be had together
  (`Coalescing.AdjacentRegionsStayApart`).
* What arrives when all 64 slots are in use and nothing merges is dropped: initialisation frees every
  usable frame if and only if that never happened (`FrameRuns.FillExact`), and dropped frames are counted
  in every law.
* vfs_create keeps trailing slashes in the name and cuts the parent part of the path to 255 characters.
  With a parent part below 256 characters, what it returns is found under the same path if and only if the
  path is good in the sense of `VfsLaws.GoodPath` (`VfsLaws.CreateThenResolve`). Longer paths have their own
  exact condition on the filesystem before the call (`VfsLongPaths.CreateThenResolveLong`); for good paths of
  any length it is that the parent part fits or its first 255 characters lead to the directory that all of it
  will lead to (`VfsLongPaths.GoodPathFound`). Otherwise the node is made in the wrong directory
  (`VfsLongPaths.WrongDirectory`), also when the right one does not exist (`VfsLongPaths.Misplaced`). "/"
  makes a child with an empty name (`VfsLaws.CreateSlash`).
* A descriptor remembers 127 characters of its path. After a successful open, reads do not fail if and only
  if the path has at most 127 characters or its first 127 name a file (`Descriptors.OpenedReads`), and the
  bytes are those of the path if and only if the remembered path has the same contents
  (`Descriptors.OpenedReadsPath`).
* The FAT32 reader enters every directory entry that has a cluster, "." and ".." included. A directory has a
  finite tree if and only if, within as many levels as the FAT has links, cluster chains end, files are long
  enough and that recursion comes to an end (`FatNesting.TreeExactly`); one that goes deeper goes on as long as
  chains and files are sound (`FatNesting.DeepIsEndless`). With a tree, and names that are distinct, ordinary and fit the path buffer
  (`FatTree.Fits`), it is mounted as proved. An entry that leads back to its directory, as "." does, allows any
  depth (`FatNesting.SelfEntryNests`). Unless kmalloc runs out before (kernel/fs/fat32.c:98-99), the call stack
  gives out first: every level keeps a 256-byte path on it, so 64 levels exceed the 16 KiB boot stack
  (kernel/boot.s:192) on which kernel/core/kernel.c:78 mounts at "/disk". The path buffer alone would last, from a path of n characters,
  for (255 - n) / 2 levels of "." (`FatNesting.DotPathOverruns`). A volume label is treated as a file by the
  source and therefore by the model.
* A 64-bit number in base 3 overflows itoa's 32-byte scratch array; from base 4 on it fits
  (`Strings.BaseThreeOverflows`, `Strings.ScratchSuffices`).

## Model

| member | source | states |
|---|---|---|
| `Heap.KmallocHonest` | kernel/memory/heap.c:25-39 | a granted block lies between the old and the new heap pointer, inside the limit, if and only if rounding up and adding do not leave 64 bits |
| `Heap.KmallocGrants` | kernel/memory/heap.c:29-39 | a request that cannot wrap is either refused, with only the first initialisation done, or granted at the heap pointer with room for it |
| `Heap.KmallocExactly` | kernel/memory/heap.c:16-39 | such a request is granted at the heap pointer, which is the end of the kernel at first, if and only if the size rounded up to a multiple of 8 fits, and the pointer moves on by that much; a request for 0 bytes is refused |
| `Heap.BlocksDisjoint` | kernel/memory/heap.c:29-39 | over every run of requests that cannot wrap 64 bits, from the first use of the heap on, the granted blocks are in order, pairwise disjoint and inside the reserved range |
| `Heap.BumpHeap.Allocate` | kernel/memory/heap.c:16-39 | the static heap pointers after kmalloc are those of the specification; NULL is 0 |
| `Paging.IndexSplitInjective` | kernel/memory/vmm.c:53-56 | two addresses have the same four table indices exactly when bits 47:12 agree |
| `Paging.PageNumberByIndex` | kernel/memory/vmm.c:53-56 | the four indices are the base-512 digits of the page number, that of level 1 the lowest |
| `PageTree.EntryRoundTrip` | kernel/memory/vmm.c:42-47 | an entry gives its address back if and only if that is page-aligned and below 2^52; it is present, and its bit 7 and low bits are those of the flags |
| `PageTree.NextTableFresh` | kernel/memory/vmm.c:24-49 | with a page-aligned heap pointer and no bit 7 in the flags: when vmm_next_table has to allocate, the new zeroed table takes exactly its place in the tree, and NULL leaves memory alone |
| `PageTree.NextTableWalks` | kernel/memory/vmm.c:39-49 | with a page-aligned heap pointer and no bit 7 in the flags: hanging a fresh empty table into an empty slot changes no translation of any page in any space |
| `PageTree.WalkFrame` | kernel/memory/vmm.c:39-66 | a hardware walk depends only on the entries on its own path in the tree of tables |
| `PageMapping.MapFromKeeps` | kernel/memory/vmm.c:51-66 | under the premises of MapPageCorrect, below any table: a map reaches exactly the wanted leaf on success, leaves every other walk alone and keeps the tree |
| `PageMapping.UnmapFromKeeps` | kernel/memory/vmm.c:68-82 | without a large page on the path, below any table: an unmap removes exactly one page, and on failure changes nothing because the page was not mapped |
| `PageMapping.MapPageCorrect` | kernel/memory/vmm.c:51-66 | with aligned fresh tables, a tree of tables and no large page on the path: the walk of virt gives exactly the frame and flags on success; every page differing in bits 47:12 in every space, and on -2, -3, -4 every page, translates as before; the tree is kept |
| `PageMapping.UnmapPageCorrect` | kernel/memory/vmm.c:68-82 | without a large page on the path: after an unmap the page is gone whatever the code, every other page of every space is unchanged, and a failing call changed nothing |
| `PageMapping.MapThenUnmap` | kernel/memory/vmm.c:51-82 | under the premises of MapPageCorrect: map followed by unmap leaves the page unmapped and every other translation as before both |
| `PageLimits.MapSeenExactly` | kernel/memory/vmm.c:24-66 | a successful map is seen by the hardware walk if and only if there is no large page on the path and either no table was made, or the heap pointer was page-aligned and the flags had no bit 7; premises ReadsCleared without and alignment and StraysApart with a large page |
| `PageLimits.MapSeenWithoutLarge` | kernel/memory/vmm.c:24-66 | without a large page on the path and with ReadsCleared, a successful map is seen if and only if no table was made, or the heap pointer was page-aligned and the flags had no bit 7 |
| `PageLimits.MapUnderLarge` | kernel/memory/vmm.c:39-66 | with a large page on the path at any level, a page-aligned heap and no real table in that page's data where the kernel looks for tables, a map changes no translation of any space, whatever it returns |
| `PageLimits.MapOverLargePage` | kernel/memory/vmm.c:39-66 | over a 2 MiB page whose written slot is none of the three entries on the path, a map returns 0, the translation stays the large page, and the entry is written into the memory it maps |
| `PageLimits.MapWithoutAllocation` | kernel/memory/vmm.c:39-66 | where all tables exist and none of the entries is a large page, a map works whatever the alignment of the heap |
| `PageLimits.WritesBelowEmptySlot` | kernel/memory/vmm.c:39-66 | below an empty slot a map writes that slot and memory at or above the old heap pointer only |
| `PageCodes.MapCode` | kernel/memory/vmm.c:51-66 | without a large page on the path a map returns 0 if and only if the heap has room for every missing table, and otherwise -2, -3 or -4 by the level of the first one it has no room for |
| `PageCodes.UnmapCode` | kernel/memory/vmm.c:68-82 | without a large page on the path an unmap returns 0 if and only if all tables exist, and otherwise -2, -3 or -4 by the level of the first missing one |
| `PageCodes.NullSpace` | kernel/memory/vmm.c:51-69 | for a NULL space both return -1 and change nothing |
| `PageCodes.SpaceWithoutKernel` | kernel/memory/vmm.c:84-97 | before vmm_init a new space has an empty table, and older memory is untouched |
| `PageCodes.LargeBaseIs` | kernel/boot.s:88-130 | the base of a large page entry, such as the boot tables hold, is what its bits 51:21, at level 3 its bits 51:30, give |
| `PageSpaces.CreateSpaceCorrect` | kernel/memory/vmm.c:84-97 | a new space's cr3 is its table exactly when the table is page-aligned; it then translates every address as the kernel does and no other space notices; it fails only for lack of heap |
| `PageSpaces.ApplyKept` | kernel/memory/vmm.c:51-82 | one map (under the premises of MapPageCorrect) or unmap (without a large page on the path) in any live space keeps the tree and what spaces share, and changes no space that does not share the entry |
| `PageSpaces.Isolation` | kernel/memory/vmm.c:39-97 | over every run of such maps and unmaps in other spaces through entries not shared with a space, no translation of that space changes |
| `PageSpaces.Sharing` | kernel/memory/vmm.c:39-97 | two spaces that share an entry agree on every address below it after every such run, whoever maps |
| `PageSpaces.NewSpaceApart` | kernel/memory/vmm.c:84-97 | for a page-aligned new table and flags without bit 7: what a new space maps through entries the kernel left empty, while only it maps, stays invisible to every older space; where the kernel had a table the two agree |
| `Vmm.Manager.Clear` | kernel/memory/vmm.c:27-27 | the zeroing loop clears exactly the table's 512 words |
| `Vmm.Manager.NewTable` | kernel/memory/vmm.c:24-29 | memory and heap after vmm_alloc_table are those of the specification |
| `Vmm.Manager.Next` | kernel/memory/vmm.c:39-49 | memory, heap and result of vmm_next_table are those of the specification, NULL being 0 |
| `Vmm.Manager.Map` | kernel/memory/vmm.c:51-66 | the three lookups and the leaf write compute the specified memory and code, -1 for a NULL space |
| `Vmm.Manager.Unmap` | kernel/memory/vmm.c:68-82 | the lookups and the clearing write compute the specified memory and code |
| `Vmm.Manager.Copy` | kernel/memory/vmm.c:91-93 | the copy loop makes the new table word by word equal to the kernel's |
| `Vmm.Manager.Create` | kernel/memory/vmm.c:84-97 | the new space object and memory are those of the specification |
| `Scheduling.PickNextInv` | kernel/scheduler/scheduler.c:89-105 | under the invariant pick_next returns the successor in the queue, the tail itself at the tail, and the head when the caller is off the queue |
| `Scheduling.FindByPidIs` | kernel/scheduler/scheduler.c:64-78 | lookup finds exactly the queued process or the zombie with that pid |
| `Scheduling.YieldInv` | kernel/scheduler/scheduler.c:107-132 | a yield keeps the invariant, the lists and the pids |
| `Scheduling.YieldLeaves` | kernel/scheduler/scheduler.c:107-132 | after a yield the CPU is with the successor in the queue, with the tail itself at the tail, with the head for a caller off the queue; only the states of the two change |
| `Scheduling.RemoveCurrentInv` | kernel/scheduler/scheduler.c:43-58 | removing the current process keeps the invariant; it is then among the zombies and off the queue |
| `Scheduling.KillInv` | kernel/scheduler/scheduler.c:167-187 | a kill keeps the invariant, only adds zombies and reassigns no pid |
| `Scheduling.KillCode` | kernel/scheduler/scheduler.c:167-187 | kill returns 0 exactly for a queued process or the current one, and otherwise -1 with nothing changed |
| `Scheduling.KillQueued` | kernel/scheduler/scheduler.c:177-186 | a kill of the process at position i of the queue that has not got the CPU takes exactly that position out and makes it TERMINATED; current, zombies and every other state stay |
| `Scheduling.KillCurrent` | kernel/scheduler/scheduler.c:170-176 | a kill of the current process at position i puts it at the head of the zombies, takes position i out, and gives the CPU to the head of what is left; of a current process that is a zombie already it is just a yield |
| `Scheduling.ExitLeaves` | kernel/scheduler/scheduler.c:43-58 | its own exit leaves exactly the same |
| `Scheduling.KillOther` | kernel/scheduler/scheduler.c:177-186 | a process killed while not current is TERMINATED, on neither list, and not found again |
| `Scheduling.KillFound` | kernel/scheduler/scheduler.c:167-187 | after a kill with code 0 the pid is found again if and only if it was the current process's |
| `SchedulerRuns.CreateInv` | kernel/process/process.c:26-72 | process_create is all or nothing, keeps the invariant, and its process and pid are new |
| `SchedulerRuns.CreatedLast` | kernel/process/process.c:41-71 | a created process is READY at the tail of the queue and found under the next pid; current, zombies and all other states stay |
| `SchedulerRuns.StepInv` | kernel/scheduler/scheduler.c:31-187 | create, yield, exit and kill keep: lists duplicate-free and disjoint, members READY except the RUNNING current, zombies TERMINATED, pids unique; zombies are only added |
| `SchedulerRuns.RunSafe` | kernel/scheduler/scheduler.c:31-187 | over every run the invariant holds, zombies stay findable by pid for ever, pids are never reassigned, and at most 446 processes are ever created |
| `SchedulerRuns.GoneForever` | kernel/scheduler/scheduler.c:31-187 | over every run a process that is neither queued nor on the CPU stays so: it never runs again |
| `SchedulerRuns.LeavesForGood` | kernel/scheduler/scheduler.c:43-187 | a queued process is in that state after a kill by another and after its exit with anybody left in the queue |
| `SchedulerRuns.BootInv` | kernel/scheduler/scheduler.c:22-29 | the state after boot satisfies the invariant of every run |
| `SchedulerRuns.YieldsStopAtTail` | kernel/scheduler/scheduler.c:89-132 | j yields from index k of n leave index min(k + j, n - 1) running and the queue unchanged |
| `SchedulerRuns.TurnProgress` | kernel/scheduler/scheduler.c:43-132 | each turn of the running process keeps the invariant and strictly lowers the remaining work |
| `SchedulerRuns.EveryoneFinishes` | kernel/scheduler/scheduler.c:43-132 | if every queued process yields finitely often and then exits, all of them reach the zombie list, from any state of the invariant |
| `SchedulerRuns.PickNextLoop` | kernel/scheduler/scheduler.c:89-105 | for arbitrary member states the loop ends if and only if current is queued or some member is READY, and then yields the first READY process in cyclic order after current, else current, at the tail current |
| `ProcessMemory.SpaceHeapIs` | kernel/memory/vmm.c:84-97 | the heap traffic of process creation's address space is that of vmm_create_address_space |
| `ProcessMemory.TableOfIs` | kernel/process/process.c:29-50 | the space process_create gets has the level 4 table whose place the runs follow, and the address an entry keeps of it as its cr3 |
| `ProcessMemory.TablesAt` | kernel/process/process.c:26-50 | in every run of create, yield, exit and kill, with process creation the only user of the heap, the level 4 tables lie 22920 bytes apart |
| `ProcessMemory.OneUsableSpace` | kernel/process/process.c:29-50 | in every such run no two processes have page-aligned level 4 tables, so at most one has a cr3 that is its table |
| `ProcessMemory.SpawnIsLegal` | kernel/process/process.c:29-68 | the first two blocks of process_create hold a stack and a saved stack pointer that are well placed and apart from those of all existing threads, as ContextSwitch requires; after the whole call, address space included, that holds again for the next; without the blocks there is no process |
| `ProcessMemory.CreationsAreLegal` | kernel/process/process.c:26-72 | over every run of threads that keep to their stacks, creations and other allocations, every creation is a legal step of ContextSwitch, so its theorems hold of the run |
| `RunQueue.Scheduler.Append` | kernel/scheduler/scheduler.c:31-41 | walking to the tail and linking appends to the queue |
| `RunQueue.Scheduler.Add` | kernel/process/process.c:41-70 | a new READY process joins the queue as specified |
| `RunQueue.Scheduler.Locate` | kernel/scheduler/scheduler.c:47-52 | the walk ends at the process with its predecessor, or at NULL exactly when it is not queued |
| `RunQueue.Scheduler.Snip` | kernel/scheduler/scheduler.c:54-54 | the pointer write takes exactly one node out of the linked queue |
| `RunQueue.Scheduler.Unlink` | kernel/scheduler/scheduler.c:178-184 | unlinking removes the process from the queue and changes nothing else |
| `RunQueue.Scheduler.SetState` | kernel/scheduler/scheduler.c:45-45 | one state field changes |
| `RunQueue.Scheduler.Bury` | kernel/scheduler/scheduler.c:56-57 | the node becomes the head of the zombie list |
| `RunQueue.Scheduler.MoveToZombies` | kernel/scheduler/scheduler.c:46-57 | a queued process moves from the queue to the front of the zombies |
| `RunQueue.Scheduler.RemoveCurrent` | kernel/scheduler/scheduler.c:43-58 | the linked lists after the call are those of the specification |
| `RunQueue.Scheduler.FindByPid` | kernel/scheduler/scheduler.c:64-78 | the three searches return the specified process |
| `RunQueue.Scheduler.PickNext` | kernel/scheduler/scheduler.c:89-105 | the two loops terminate and return the specified process whenever some choice exists |
| `RunQueue.Scheduler.Scan` | kernel/scheduler/scheduler.c:98-104 | the candidate loop returns the first READY process of what is left of the round, else current |
| `RunQueue.Scheduler.Switch` | kernel/scheduler/scheduler.c:109-125 | the states and current change as specified up to the context switch |
| `RunQueue.Scheduler.Yield` | kernel/scheduler/scheduler.c:107-132 | the linked state after a yield is that of the specification |
| `RunQueue.Scheduler.Finish` | kernel/scheduler/scheduler.c:170-176 | terminate, unlink and yield compute the specified state |
| `RunQueue.Scheduler.Drop` | kernel/scheduler/scheduler.c:177-186 | the other branch of kill unlinks without burying, -1 when the process is not queued |
| `RunQueue.Scheduler.Kill` | kernel/scheduler/scheduler.c:167-187 | state and code of scheduler_kill are those of the specification |
| `RunQueue.Scheduler.Exit` | kernel/process/process.c:74-92 | process exit computes the specified state |
| `ContextSwitch.InitialFrameIs` | kernel/process/process.c:58-68 | the sixteen words process_create writes are popped as entry address, rdi = arg, zero elsewhere, on an empty stack |
| `ContextSwitch.SwitchParks` | kernel/arch/x86_64/context_switch.S:12-34 | a switch parks the caller with its own registers and return address, writes only its stack and save cell, and loads the frame at the new pointer |
| `ContextSwitch.StepInv` | kernel/scheduler/scheduler.c:119-126 | any legal step keeps every parked thread's frame intact and a switch resumes exactly the context due |
| `ContextSwitch.RunInv` | kernel/arch/x86_64/context_switch.S:12-53 | over every run in which threads write only their own stacks, each switched-out thread keeps an intact sixteen-word frame |
| `ContextSwitch.ResumeRestores` | kernel/arch/x86_64/context_switch.S:12-53 | a thread resumed after any run of the others continues right after its call with all fifteen registers and its stack pointer, and with every word of its stack except the fifteen the call pushed |
| `ContextSwitch.StackKept` | kernel/arch/x86_64/context_switch.S:12-53 | in every run in which a thread stays switched out no word of its stack changes |
| `ContextSwitch.FirstResume` | kernel/process/process.c:58-68 | the first resume after any run enters entry with rdi = arg and the stack empty |
| `SwitchMachine.Machine.Push` | kernel/arch/x86_64/context_switch.S:14-28 | one push extends the saved frame by one register |
| `SwitchMachine.Machine.Pop` | kernel/arch/x86_64/context_switch.S:37-51 | one pop restores one more register of the frame |
| `SwitchMachine.Machine.SaveRegisters` | kernel/arch/x86_64/context_switch.S:14-28 | the fifteen pushes in the file's order store the registers as the frame layout says |
| `SwitchMachine.Machine.RestoreRegisters` | kernel/arch/x86_64/context_switch.S:37-53 | the fifteen pops and ret give the context of the frame |
| `SwitchMachine.Machine.ContextSwitch` | kernel/arch/x86_64/context_switch.S:12-53 | the instruction sequence computes the specified switch |
| `SwitchMachine.Machine.PrepareStack` | kernel/process/process.c:58-68 | the loop and the two stores write the specified frame at the aligned stack top |
| `Frames.AddRangeAdds` | kernel/memory/pmm.c:44-64 | adding a range that is not free makes exactly its frames free, or nothing when the table is full and nothing merges; regions stay aligned, non-empty and disjoint |
| `Frames.AddRangeBytes` | kernel/memory/pmm.c:44-64 | the free byte count grows by exactly the range, or not at all when it is dropped |
| `Frames.AllocTakes` | kernel/memory/pmm.c:164-180 | an allocation returns frames that were all free and removes exactly those; it fails exactly when no region is large enough |
| `Frames.AllocFirstFit` | kernel/memory/pmm.c:164-180 | the frames come off the front of the first region that is large enough; the other regions keep their places |
| `Frames.FreeRefuses` | kernel/memory/pmm.c:140-187 | an address off a page boundary, or a count of 0, frees nothing |
| `FrameRuns.AddFreeAdds` | kernel/memory/pmm.c:34-65 | add_free_region gains exactly the whole pages of its range, or nothing when no region merges with it and all 64 slots are in use |
| `FrameRuns.CallbackAdds` | kernel/memory/pmm.c:67-104 | one memory map entry gains only its usable pages outside the kernel, and all of them if and only if no addition was dropped |
| `FrameRuns.FillExact` | kernel/memory/pmm.c:67-104 | for entries that neither overlap nor wrap: after init every free frame lies wholly in one usable entry at or above 1 MiB outside kernel and heap; all such frames are free if and only if no addition found the table full, as with fewer than 64 regions; free never exceeds total |
| `FrameRuns.TotalIs` | kernel/memory/pmm.c:67-104 | for entries that do not wrap, the reported total is the length of the usable entries that end above 1 MiB |
| `FrameRuns.StepKeeps` | kernel/memory/pmm.c:123-187 | each call that frees only frames held conserves the frames, and what it hands out was free |
| `FrameRuns.RunConserves` | kernel/memory/pmm.c:123-187 | over every run in which callers free what they hold, free, held and dropped frames partition the same set with the same byte total, and what is handed out at any point is neither held nor dropped then |
| `FrameRuns.BootRun` | kernel/memory/pmm.c:82-203 | from boot on, for memory maps and runs as above, pmm_used_memory never underflows, and no free or held frame overlaps the kernel image or any kernel heap block |
| `Coalescing.AddRangeCoalesced` | kernel/memory/pmm.c:43-64 | a table in which no region ends where another begins keeps that property if and only if the range added does not bridge two regions |
| `Coalescing.AllocCoalesced` | kernel/memory/pmm.c:164-180 | an allocation keeps that property |
| `Coalescing.CoalescedAlloc` | kernel/memory/pmm.c:164-180 | on such a table an allocation fails if and only if none is asked for or there are no n consecutive free frames |
| `Coalescing.AdjacentRegionsStayApart` | kernel/memory/pmm.c:140-162 | the smallest failing input: freeing the frame between two regions leaves three consecutive free frames that cannot be allocated together |
| `FramePool.Allocator.Insert` | kernel/memory/pmm.c:44-64 | the merge loop and the append change the array as specified |
| `FramePool.Allocator.AddFreeRegion` | kernel/memory/pmm.c:34-65 | the array after add_free_region is that of the specification |
| `FramePool.Allocator.FreeFrame` | kernel/memory/pmm.c:140-162 | the array after pmm_free_frame is that of the specification |
| `FramePool.Allocator.FreeFrames` | kernel/memory/pmm.c:182-187 | the array after pmm_free_frames is that of the specification |
| `FramePool.Allocator.Compact` | kernel/memory/pmm.c:130-133 | the compaction loop removes exactly one region and keeps the order |
| `FramePool.Allocator.TakeAt` | kernel/memory/pmm.c:168-176 | cutting frames off a region, with compaction, is the specified update |
| `FramePool.Allocator.AllocFrames` | kernel/memory/pmm.c:164-180 | array and address are those of the specification |
| `FramePool.Allocator.AllocFrame` | kernel/memory/pmm.c:123-138 | one frame is the case of one of the general allocation |
| `FramePool.Allocator.FreeMemory` | kernel/memory/pmm.c:193-199 | the summing loop returns the free bytes |
| `FramePool.Allocator.Callback` | kernel/memory/pmm.c:67-104 | the callback's clipping and additions compute the specified pool |
| `FramePool.Allocator.Init` | kernel/memory/pmm.c:106-121 | on a well-formed block with these tags, pmm_init computes the specified pool |
| `Multiboot.VisitEntries` | kernel/memory/memory_map.c:58-65 | the inner loop reports each entry of one memory map tag once, in order |
| `Multiboot.ParseMmap` | kernel/memory/memory_map.c:45-73 | on every well-formed block the walk terminates and reports exactly the entries of all memory map tags, in order |
| `Multiboot.EntriesInOrder` | kernel/memory/memory_map.c:51-73 | the entries reported for one tag list behind another are those of both, in order |
| `VfsLaws.TokensAppend` | kernel/fs/vfs.c:90-104 | tokens of two paths joined at a slash are the tokens of one and then the other |
| `VfsLaws.TokensJoin` | kernel/fs/vfs.c:90-104 | splitting names joined with slashes gives the names back |
| `VfsLaws.ResolveComposes` | kernel/fs/vfs.c:56-111 | resolving p/q is resolving q from the result of p, while the tokens total at most 64 |
| `VfsLaws.FindChildIs` | kernel/fs/vfs.c:47-53 | in a tree lookup finds exactly the child with that name |
| `VfsLaws.PathRoundTrip` | kernel/fs/vfs.c:194-223 | vfs_resolve of vfs_get_path gives the node back from any start, for depth at most 64, good names and a large enough buffer |
| `VfsLaws.CreateTree` | kernel/fs/vfs.c:117-158 | creation keeps the tree: parent and child links agree, no cycles, sibling names unique |
| `VfsLaws.CreateKeepsOthers` | kernel/fs/vfs.c:117-158 | every path that resolved still resolves to the same node; a new result passes through the new node |
| `VfsLaws.CreateTwice` | kernel/fs/vfs.c:147-149 | a second create of the same path returns the same node and changes nothing |
| `VfsLaws.CreateThenResolve` | kernel/fs/vfs.c:117-158 | with a parent part below 256 characters, the node returned is found under the same path if and only if the path is good |
| `VfsLaws.CreateSlash` | kernel/fs/vfs.c:121-128 | where the root has no child with an empty name, creating "/" makes one, and "/" still resolves to the root |
| `VfsLaws.WriteThenRead` | kernel/fs/vfs.c:160-180 | with a parent part below 256 characters, a successful write is read back under the same good path |
| `VfsLaws.WriteKeepsOthers` | kernel/fs/vfs.c:160-180 | a write changes no other file's resolution or contents |
| `VfsWrites.CreateSucceeds` | kernel/fs/vfs.c:117-146 | vfs_create succeeds if and only if the parent part leads to a directory, and changes nothing when it fails |
| `VfsWrites.CreateExactly` | kernel/fs/vfs.c:147-158 | a child with the last name is returned as it is; otherwise a new empty node of the kind asked for becomes the first child and nothing else changes |
| `VfsWrites.WriteExactly` | kernel/fs/vfs.c:160-173 | a write returns 0 if and only if the parent part leads to a directory in which the last name is free or a file; then that file holds exactly the new data, whatever it held before, and no other contents change; on -1 nothing changes |
| `VfsWrites.DataStaysInFiles` | kernel/fs/vfs.c:33-44 | directories hold no data, at the start and after every creation and write |
| `VfsWrites.ReadExactly` | kernel/fs/vfs.c:175-180 | so a read delivers what the node at the path holds, and fails at directories and where nothing was written |
| `VfsWrites.RootPaths` | kernel/fs/vfs.c:76-77 | a slash alone, and anything that begins with a slash and a newline, is the root |
| `VfsWrites.OnlyFirstNames` | kernel/fs/vfs.c:81-104 | of a path with more than 64 names only the first 64 count |
| `VfsWrites.NearestNames` | kernel/fs/vfs.c:194-223 | of a node more than 64 levels down the nearest 64 names are printed |
| `VfsWrites.PathCut` | kernel/fs/vfs.c:194-223 | what does not fit the buffer with its NUL is cut off |
| `VfsLongPaths.CreateThenResolveLong` | kernel/fs/vfs.c:133-158 | for every path with a parent part of 256 characters or more, the exact condition on the filesystem before the call under which the node returned is found under it; from 64 tokens on, and for a last name ".", it is that the walk to the parent part will end at that very node |
| `VfsLongPaths.GoodPathFound` | kernel/fs/vfs.c:117-158 | on a good path of any length the node is found again if and only if the parent part fits the buffer or, seen from before the call, its first 255 characters lead to the directory to which all of it will lead |
| `VfsLongPaths.CreatedUnderCut` | kernel/fs/vfs.c:136-149 | what a long path creates is the child, by its last name, of where the first 255 characters lead, before and after the call |
| `VfsLongPaths.Misplaced` | kernel/fs/vfs.c:136-158 | on a long good path whose parent part resolves before the call, or does not contain the new name, the node is found again if and only if the parent part and its first 255 characters lead to one directory; a missing parent is never found |
| `VfsLongPaths.WriteThenReadAny` | kernel/fs/vfs.c:160-180 | under the condition of GoodPathFound a successful write is read back under a good path of any length |
| `VfsLongPaths.WrongDirectory` | kernel/fs/vfs.c:136-138 | a failing family: behind a name of 200 characters a file is made in the directory named by the first 53 characters of the one meant, and not found |
| `VfsTree.Tokenize` | kernel/fs/vfs.c:90-104 | the splitting loops give the first 64 tokens |
| `VfsTree.HoldsInsert` | kernel/fs/vfs.c:151-156 | the link writes keep memory a true picture of the tree with the node inserted |
| `VfsTree.WriteNames` | kernel/fs/vfs.c:214-222 | the printing loops leave the joined names, cut to the buffer, with a NUL and nothing else changed |
| `VfsTree.Filesystem.constructor` | kernel/fs/vfs.c:225-228 | vfs_init starts with nothing but the root directory |
| `VfsTree.Filesystem.FindChild` | kernel/fs/vfs.c:47-53 | the walk over the sibling links returns the specified child, 0 for NULL |
| `VfsTree.Filesystem.ResolveTokens` | kernel/fs/vfs.c:56-70 | the loop over the tokens returns the specified node |
| `VfsTree.Filesystem.Resolve` | kernel/fs/vfs.c:72-111 | vfs_resolve returns the specified node for every path and start, NULL meaning the root |
| `VfsTree.Filesystem.LastNameAt` | kernel/fs/vfs.c:121-128 | the two loops find the specified start of the last name |
| `VfsTree.Filesystem.WriteLinks` | kernel/fs/vfs.c:151-156 | the four writes link the node at the head of its parent's list |
| `VfsTree.Filesystem.Create` | kernel/fs/vfs.c:117-158 | nodes in memory and result are those of the specification, on every path |
| `VfsTree.Filesystem.WriteFile` | kernel/fs/vfs.c:160-173 | tree, contents and code are those of the specification |
| `VfsTree.Filesystem.ReadFile` | kernel/fs/vfs.c:175-180 | returns the specified contents |
| `VfsTree.Filesystem.Ancestors` | kernel/fs/vfs.c:196-203 | collecting parents gives the nearest 64 names |
| `VfsTree.Filesystem.GetPath` | kernel/fs/vfs.c:194-223 | the buffer shows the specified path and NUL, bytes behind unchanged |
| `Descriptors.Independence` | kernel/syscall/syscall.c:57-132 | in any run an open descriptor's replies and final state are those of its own operations run alone |
| `Descriptors.ReadIs` | kernel/syscall/syscall.c:57-80 | from any offset a read delivers exactly data[offset..offset + k], fewer than asked only at or past the end, and advances that descriptor alone |
| `Descriptors.ReadsReproduce` | kernel/syscall/syscall.c:57-80 | in any run that only reads a descriptor, interleaved with anything on others, the bytes read are the file from the first offset to the last; from past the end nothing is read and nothing moves |
| `Descriptors.OpenIs` | kernel/syscall/syscall.c:94-115 | open takes the lowest free descriptor from 3 on at offset 0, and fails exactly for an empty or unreadable path or a full table |
| `Descriptors.StandardDescriptors` | kernel/syscall/syscall.c:57-71 | reads from 0 deliver nothing, from 1 and 2 fail |
| `Descriptors.CloseRefuses` | kernel/syscall/syscall.c:117-124 | close of 0, 1, 2 or a number outside the table fails and changes nothing |
| `Descriptors.NotOpen` | kernel/syscall/syscall.c:57-71 | read and lseek fail on what is not an open descriptor; a read of 0 bytes succeeds |
| `Descriptors.ArgumentsAre` | kernel/syscall/syscall.c:67-110 | a descriptor is the int in the low 32 bits; of a path the first 127 characters are remembered |
| `Descriptors.OpenedReads` | kernel/syscall/syscall.c:57-115 | after a successful open a read does not fail if and only if the path has at most 127 characters or its first 127 name a file |
| `Descriptors.OpenedReadsPath` | kernel/syscall/syscall.c:57-115 | reading everything gives the file at the path if and only if the remembered path has the same contents |
| `Descriptors.LongPathLost` | kernel/syscall/syscall.c:105-110 | a failing family: behind 127 slashes a file opens and every read through its descriptor fails |
| `Descriptors.SeekThenRead` | kernel/syscall/syscall.c:126-132 | a seek decides where the next read starts, past the end too, and changes nothing else |
| `Descriptors.ClosedFails` | kernel/syscall/syscall.c:117-124 | after close, read and lseek on the descriptor fail and the others are untouched |
| `Descriptors.OpenReadClose` | kernel/syscall/syscall.c:94-124 | open, reading and close free the slot and leave no trace in the table |
| `DescriptorTable.Process.constructor` | kernel/process/process.c:13-24 | a new table has 0, 1 and 2 in use and the rest free |
| `DescriptorTable.Process.Open` | kernel/syscall/syscall.c:94-115 | table and result of the slot search are those of the specification |
| `DescriptorTable.Process.CopyPath` | kernel/syscall/syscall.c:105-110 | the copy loop keeps at most 127 characters |
| `DescriptorTable.Process.Read` | kernel/syscall/syscall.c:57-80 | table, result and buffer are those of the specification, bytes behind the result unchanged |
| `DescriptorTable.Process.Lseek` | kernel/syscall/syscall.c:126-132 | table and result are those of the specification |
| `DescriptorTable.Process.Close` | kernel/syscall/syscall.c:117-124 | table and result are those of the specification |
| `DescriptorTable.Process.Drain` | kernel/core/shell.c:86-91 | for every chunk size the loop emits exactly the file the descriptor remembers |
| `DescriptorTable.Process.Cat` | kernel/core/shell.c:80-93 | cat emits the whole file at the remembered path, or nothing if it cannot be opened, and gives the descriptor back |
| `Fat32.ClustersApart` | kernel/fs/fat32.c:35-37 | cluster 2 is the first, and clusters follow each other in order without overlap |
| `FatLayout.BootFields` | kernel/fs/fat32.c:160-170 | the fields written at the FAT32 specification's offsets are the fields read, the 16-bit FAT size before the 32-bit one, root cluster 0 meaning 2 |
| `FatLayout.FatsBehindEachOther` | kernel/fs/fat32.c:35-37 | the FATs lie one after the other behind the reserved sectors, and cluster 2 begins exactly where the last one ends |
| `FatLayout.FatIsFirst` | kernel/fs/fat32.c:40-50 | the FAT in memory is, byte by byte, the volume's first |
| `FatLayout.ClusterAt` | kernel/fs/fat32.c:60-75 | the bytes of cluster c are those of the sectors from the last FAT's end plus (c - 2) clusters on |
| `FatLayout.FlatAt` | kernel/fs/fat32.c:60-75 | the bytes of a chain are those of its clusters, in order |
| `FatLayout.LinkAt` | kernel/fs/fat32.c:52-57 | a FAT entry is the low 28 bits of its word |
| `FatLayout.EntryCases` | kernel/fs/fat32.c:106-112 | an entry that begins with 0 ends the cluster's list, 0xE5 and attribute 0x0F are passed over, every other entry is listed |
| `FatLayout.SpacesVanish` | kernel/fs/fat32.c:78-93 | a decoded name part keeps its bytes in order and loses every space |
| `FatLayout.ListedInOrder` | kernel/fs/fat32.c:96-152 | a directory's entries are those of its clusters, one after the other |
| `FatLayout.DirectoryBit` | kernel/fs/fat32.c:124-124 | bit 4 of the attribute byte marks a directory |
| `Fat32.ShortNameRoundTrip` | kernel/fs/fat32.c:78-93 | a name and extension padded with spaces as the standard stores them are read back with their dot |
| `Fat32.EntryNumbers` | kernel/fs/fat32.c:113-116 | start cluster and size written at the standard's offsets are the ones read |
| `Fat32.ChainUnique` | kernel/fs/fat32.c:52-57 | the FAT determines a cluster chain |
| `FatNesting.SelfEntryNests` | kernel/fs/fat32.c:124-129 | from a directory with an entry that leads back to it, the recursion goes deeper than any bound |
| `FatNesting.TreeNests` | kernel/fs/fat32.c:124-129 | from a directory with a finite tree the recursion goes exactly as deep as the tree |
| `FatNesting.SelfEntryHasNoTree` | kernel/fs/fat32.c:124-129 | so a directory with an entry that leads back to it has no finite tree |
| `FatNesting.BoundedHasTree` | kernel/fs/fat32.c:96-152 | where chains and files are sound for n levels and the recursion goes less than n levels deep, it walks a finite tree |
| `FatNesting.TreeExactly` | kernel/fs/fat32.c:96-152 | a directory has a finite tree if and only if chains and files are sound and the recursion ends within as many levels as the FAT has links |
| `FatNesting.TreeShallow` | kernel/fs/fat32.c:96-152 | a tree has fewer levels than the FAT has links |
| `FatNesting.WellFormedExactly` | kernel/fs/fat32.c:154-195 | a volume is one of those for which mounting is proved, names aside, if and only if its boot sector and, within that many levels, its directories pass these tests |
| `FatNesting.DeepIsEndless` | kernel/fs/fat32.c:124-129 | a recursion as deep as the FAT has links goes as deep as chains and files are sound |
| `FatNesting.DotName` | kernel/fs/fat32.c:78-93 | the entry the standard puts first into every subdirectory is decoded as "." |
| `FatNesting.DotPathOverruns` | kernel/fs/fat32.c:119-122 | the path buffer alone: going down "." from a path of n characters, the call k levels down stays inside its 256 bytes if and only if k < (255 - n) / 2 |
| `FatDisk.Disk.constructor` | kernel/fs/fat32.c:40-50 | the whole FAT is loaded, sector by sector, inside its buffer |
| `FatDisk.Disk.GetNext` | kernel/fs/fat32.c:52-57 | for clusters of the loaded FAT, returns the 28-bit link of the cluster |
| `FatDisk.Disk.ReadCluster` | kernel/fs/fat32.c:65-69 | the sector loop writes the cluster's bytes at the position and nothing else |
| `FatDisk.Disk.ReadClusters` | kernel/fs/fat32.c:60-75 | the first n clusters of the chain are in the buffer in order, and nothing behind them is written |
| `FatDisk.Disk.LoadFile` | kernel/fs/fat32.c:135-143 | rounding up, reading and cutting give exactly the first filesize bytes of the chain |
| `FatDisk.NeededIs` | kernel/fs/fat32.c:136-138 | the number of clusters read suffices for the size and does not exceed the chain |
| `FatNames.DecodeName` | kernel/fs/fat32.c:78-93 | the loops leave the 8.3 name with its dot and a NUL in the 32-byte array |
| `FatNames.BuildPath` | kernel/fs/fat32.c:119-122 | directory path, slash and name are joined inside the 256-byte buffer |
| `FatReader.ProcessEntry` | kernel/fs/fat32.c:107-145 | a live entry changes the filesystem as the item it holds prescribes |
| `FatReader.ProcessCluster` | kernel/fs/fat32.c:106-146 | the live entries of a cluster are processed in order up to the first that begins with 0 |
| `FatReader.ProcessDirectory` | kernel/fs/fat32.c:96-152 | on a directory with a finite tree the walk terminates and populates the filesystem with exactly its entries |
| `FatReader.MountPartition` | kernel/fs/fat32.c:154-195 | for every well-formed volume mounting returns 0 and has the specified effect; without a sector or cluster size it returns -3 and changes nothing |
| `FatTree.CreateEntry` | kernel/fs/fat32.c:119-127 | creating an entry's path inserts it in its directory, and a new directory is found under its path |
| `FatTree.OneSlash` | kernel/fs/fat32.c:119-122 | a full path has exactly one slash between directory and name |
| `FatTree.Populated` | kernel/fs/fat32.c:96-152 | after a directory is processed the mirror image of its tree is under its node, nothing else has changed and no path is lost |
| `FatTree.ItemPopulated` | kernel/fs/fat32.c:124-145 | one entry, with all below it, adds exactly its image as the youngest child |
| `FatPaths.Walk` | kernel/fs/fat32.c:96-152 | walking names down the image is walking them down the volume's tree, both ways |
| `FatPaths.MountAt` | kernel/fs/fat32.c:154-195 | at a new mount point or an existing directory without any of the names, the image comes in front of what was there and every earlier path leads where it led |
| `FatPaths.MountNew` | kernel/fs/fat32.c:183-191 | at a new mount point the image is all that the mount point holds, and every earlier path leads where it led |
| `FatPaths.MountIsFaithful` | kernel/fs/fat32.c:96-152 | every file on the volume is read back under its path with exactly its bytes, every directory resolves to a directory |
| `FatPaths.NothingElseAppears` | kernel/fs/fat32.c:96-152 | under a new mount point a path that is not on the volume leads nowhere |
| `FatPaths.MountKeepsTheRest` | kernel/fs/fat32.c:96-152 | paths that resolved before resolve to the same nodes with the same contents |
| `EventRing.WriteIsFree` | kernel/core/events.c:14-20 | the slot the producer writes never holds an event still to be delivered, whatever the consumer is doing |
| `EventRing.RunInv` | kernel/core/events.c:14-28 | the ring invariant holds in every interleaving of the micro-steps |
| `EventRing.EveryInterleaving` | kernel/core/events.c:14-28 | in every interleaving the delivered events are a prefix of the accepted ones and at most 127 are held |
| `EventRing.RefusalsAreHonest` | kernel/core/events.c:14-24 | a refused enqueue found 127 events held, a refused dequeue none |
| `EventCalls.EnqueueAccepts` | kernel/core/events.c:14-20 | with any consumer moves in between, an enqueue accepts exactly its event if fewer than 127 were held when it looked at the head, and nothing otherwise |
| `EventCalls.DequeueDelivers` | kernel/core/events.c:22-28 | with any producer moves in between, a dequeue delivers exactly the oldest event held when it began, and nothing if there was none |
| `EventCalls.EnqueueAlone` | kernel/core/events.c:14-20 | alone, the micro-steps of an enqueue do to head, tail and slots what the call in one piece does |
| `EventCalls.DequeueAlone` | kernel/core/events.c:22-28 | and so do those of a dequeue |
| `EventCalls.HeldIs` | kernel/core/events.c:14-28 | the slots from head to tail are the accepted events not yet delivered |
| `EventRing.Queue.Enqueue` | kernel/core/events.c:14-20 | appends, or refuses exactly when 127 events are held |
| `EventRing.Queue.Dequeue` | kernel/core/events.c:22-28 | removes the oldest, or refuses exactly when empty or given NULL |
| `Elf.HeaderIs` | kernel/exec/elf.c:10-18 | a file header written at the offsets of the System V gABI is read back |
| `Elf.PhdrIs` | kernel/exec/elf.c:25-28 | a program header written at its place in the table is read back |
| `ElfFiles.ValidatesExactly` | kernel/exec/elf.c:6-20 | with a header table that does not wrap, exactly the files pass that have 64 bytes, the magic, class 2, machine 62, type 2 or 3, and program headers that are there and in the file |
| `ElfFiles.ValidateCode` | kernel/exec/elf.c:6-20 | the code is that of the first of these faults, in this order |
| `ElfFiles.LoadCodes` | kernel/exec/loader.c:12-55 | for a non-empty file the loader gives -2 exactly for files that do not pass, then -3 for a header outside the file, -4 for no image, -5 for no room, -7 for a segment outside the file |
| `ElfFiles.EmptyFile` | kernel/exec/loader.c:13-13 | an empty file gives -1 |
| `ElfFiles.ImageSizeIs` | kernel/exec/loader.c:37-38 | the image is the whole pages between the lowest start and the highest end, and no more |
| `Elf.ImageBounds` | kernel/exec/loader.c:21-31 | the bounds are the lowest start and the highest end of the loadable segments |
| `Elf.SegmentFits` | kernel/exec/loader.c:37-53 | with p_filesz at most p_memsz and no wrapping range, every file part lies inside the image |
| `Elf.ImageByteCovered` | kernel/exec/loader.c:45-55 | an image byte is the file byte of the highest-indexed segment whose file part covers it |
| `Elf.ImageByteUncovered` | kernel/exec/loader.c:42-55 | an image byte no file part covers is zero |
| `Elf.ReadPhdr` | kernel/exec/elf.c:22-30 | returns the header or the specified code |
| `Elf.BoundsPass` | kernel/exec/loader.c:21-31 | the first pass computes the bounds, or stops at the first unreadable header |
| `Elf.CopySegment` | kernel/exec/loader.c:51-53 | the copy loop writes exactly the file part of one segment |
| `Elf.ZeroedBlock` | kernel/exec/loader.c:40-43 | the zeroing loop clears the whole new block |
| `Elf.CopyPass` | kernel/exec/loader.c:45-55 | the second pass fills the image as specified or stops with -7; its header reads never fail |
| `Elf.Load` | kernel/exec/loader.c:12-61 | the code is that of the first failing check and never -6; on 0 every image byte is the specified one and the entry is base + (e_entry - min_vaddr) |
| `Strings.Strcmp` | kernel/lib/string.c:11-17 | 0 exactly for equal strings, else the difference at the first place they differ |
| `Strings.NumeralValue` | kernel/lib/string.c:28-48 | a numeral is made of digits, has no leading zero, and stands for its number |
| `Strings.NumeralFits` | kernel/lib/string.c:28-48 | a number fits n digits exactly when it is below base^n |
| `Strings.ScratchSuffices` | kernel/lib/string.c:30-42 | 20 digits suffice for any 64-bit value in base 10, the 32-byte array for every base from 4 to 10 |
| `Strings.BaseThreeOverflows` | kernel/lib/string.c:30-42 | in base 3 the largest 64-bit value needs 41 digits |
| `Strings.DigitsBackwards` | kernel/lib/string.c:39-42 | the digit loop leaves the numeral backwards in the array, in bounds |
| `Strings.Itoa` | kernel/lib/string.c:28-48 | the buffer holds the numeral and NUL, nothing else changed |
| `Strings.Accumulate` | kernel/lib/string.c:57-60 | the digit loop computes the number without leaving the range of an int |
| `Strings.Atoi` | kernel/lib/string.c:50-62 | returns the number after spaces and one sign |
| `Strings.SignedRoundTrip` | kernel/lib/string.c:50-62 | after white space and an optional sign a printed number, whatever follows it, parses to the signed number |
| `Strings.NoNumber` | kernel/lib/string.c:50-62 | white space is blank, tab, line feed and carriage return; without a digit behind it and the sign the value is 0 |
| `Strings.DecimalRoundTrip` | kernel/lib/string.c:28-62 | printing in decimal and parsing gives the number back for every v up to INT_MAX, without overflow on the way |

## Left out

What the model does not say about the modelled code:

- Heap exhaustion in the filesystem and in the FAT32 reader: kmalloc is taken to succeed there, and an address it returns is only known to lie beyond all earlier ones. Page tables, address spaces, processes and the ELF loader do model NULL.
- The word-level layout of nodes and processes: a vfs_node is a record at an address in a memory map, a process_t an object; page tables, stacks, regions and buffers are modelled to the word or byte.
- Heap.BlocksDisjoint: requests large enough to wrap 64 bits; Heap.KmallocHonest says exactly when their blocks are not real.
- PageMapping.MapPageCorrect: assumes a page-aligned heap pointer wherever a table is made, no bit 7 in the flags and no large page on the path; so do MapFromKeeps, MapThenUnmap, PageSpaces.ApplyKept, Isolation and Sharing. PageLimits has the exact condition and the large-page case.
- PageMapping.UnmapPageCorrect: no large page on the path; with one, an unmap clears a word of the mapped memory.
- PageLimits.MapSeenExactly: leaves out a misaligned new table whose lookup lands in memory older than the table, and under a large page a misaligned heap or a real table among the page's data, because the call does not decide what is there.
- PageSpaces.NewSpaceApart: assumes a level 4 table on a page boundary and that only the new space maps in the run; ProcessMemory.OneUsableSpace says how rarely process creation gives such a table, and Isolation covers runs of several spaces.
- ProcessMemory.OneUsableSpace: process creation is the only user of the heap in the run, as in TablesAt; other allocations move the tables.
- Switching address spaces: cr3 and current_as writes in scheduler_yield, vmm_init's reading of cr3 and the TLB are not modelled; nor are permissions combined over levels.
- SchedulerRuns.RunSafe: operations are atomic steps; scheduler_start, the tick counter and need_resched, which nothing consumes, are left out.
- ContextSwitch.RunInv: RFLAGS and floating-point state are not saved by the source and not modelled.
- Process names, priorities, exit codes and image fields.
- FrameRuns.RunConserves: callers free only frames they hold; a double free is outside the law.
- FrameRuns.FillExact: memory map entries that neither overlap nor wrap 64 bits, and a total below 2^64.
- Multiboot.ParseMmap: well-formed blocks only; the callback is the caller's loop over the result. Tags and entries of size 0, on which the source's walk does not advance, are not well-formed.
- VfsLaws.CreateThenResolve: the parent part of the path fits the 256-byte buffer, as in WriteThenRead; VfsLongPaths has the exact condition for longer ones.
- NULL paths and names, directory listing, and the directories and files vfs_init creates.
- Descriptors.ReadsReproduce: the filesystem does not change during the run; console output of sys_write is the sequence of emitted bytes.
- FatReader.MountPartition: volumes as in Fat32.WellFormed: 512-byte sectors, a device that never fails, a FAT below 4 GiB, acyclic chains that are long enough, directories that form a finite tree, distinct ordinary names without NUL or slash, paths that fit the 256-byte buffer. A subdirectory with "." or ".." entries is outside it; FatNesting says exactly which directories have a tree. The call stack and its size are not modelled.
- FatDisk.Disk.GetNext: clusters of the loaded FAT; the source reads outside its buffer for others.
- FatNames.BuildPath: path and name fit the 256-byte buffer; the source writes behind it otherwise.
- FatPaths.MountIsFaithful: the volumes of MountPartition, at a mount point whose parent part fits the buffer.
- Elf.Load: segments with p_filesz <= p_memsz, and segment ranges and a header table that do not wrap 64 bits.
- Elf.ReadPhdr: a header table that does not wrap 64 bits, as in ElfFiles.ValidatesExactly and LoadCodes.
- EventRing.EveryInterleaving: sequentially consistent memory; a record is copied in one step.
- Strings.Atoi: numbers that fit an int.

Components that are not modelled:

- User interface, window manager, framebuffer, VGA text, logging and login: what they draw and print is their only effect, and nothing in the repository says what it should be.
- ATA, PIC, PIT, serial, keyboard and mouse drivers: their correctness is a statement about hardware outside the repository; the block device is a function from sector number to 512 bytes.
- GDT, IDT, interrupt stubs and the system call entry path: tables of constants and register moves whose meaning lies in the processor.
- kernel/fs/mbr.c, the Rust helper and shell command parsing: the first matching entry of a table of four, an ASCII comparison, the words of a line; none keeps state or has an inverse, and what each returns can only be said by repeating its test.
