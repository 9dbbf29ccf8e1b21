# AmongOS: a verified model

This project models the parts of AmongOS that carry state, and proves what they keep over whole
runs. It covers six components, each in the form of its source: classes and loops over arrays where
the C and assembly code updates memory, functions and lemmas for what is said about them.

| files | component |
|---|---|
| `Heap`, `HeapRuns` | the kernel heap: a first-fit list of blocks with headers inside the memory |
| `Scheduling`, `ProcessTable`, `KernelScheduler`, `KernelRuns`, `ProcessFrame`, `ProcessStart` | the round-robin scheduler as a state machine; the same scheduler in memory, all of whose structs, stacks and nodes are heap blocks; the register frame a process starts from, and both together up to its first instruction |
| `Bytes`, `Bmfs`, `BmfsSweep`, `BmfsImage`, `BmfsCommands`, `BmfsCreate`, `BmfsRuns`, `BmfsTool` | BMFS, the file system of contiguous files, from records as bytes on the disk up to runs of commands |
| `DiskSize`, `Packer`, `BootDisk`, `BootStages`, `PageTables`, `MemoryMap`, `Boot` | packed image, disk image, boot sector, page tables, last copy, module loading: from files to running memory |
| `Snake`, `SnakeSteps`, `SnakeRounds`, `SnakeGame` | the snake board, on which no body is stored |
| `Line`, `Digits`, `Madt` | line drawing, numbers as text, the ACPI processor table |

How the layers hang together:

- `Heap.MemoryManager` changes headers in memory. Its methods are tied to `Heap.Alloc` and
  `Heap.Free`, and `HeapRuns` proves tiling, disjointness and replay about those.
- `KernelScheduler.Scheduler` changes objects by address. Its methods are tied to the transitions of
  `Scheduling`, where run invariant, exact accounting, round robin and context preservation are
  proved. `ProcessTable.Good` says that the memory image stands for the abstract state and that
  every struct, stack and node in use is a live heap block of its own. `KernelRuns.PlayFromStart`
  plays whole runs of events from `init_scheduler` on.
- `BmfsTool.Utility` changes the directory buffer and the disk bytes. Its methods are tied to the
  commands of `BmfsCommands`, `BmfsCreate` and `BmfsRuns`, whose meaning is given on a map from
  names to files.
- `SnakeGame.Game` changes the board and the players. Its methods are tied to functions of board,
  players, keys and random numbers in `SnakeSteps` and `SnakeRounds`, down to the whole game
  (`SnakeRounds.Played`), and what a game keeps is proved about those.
- The boot stages are loops over one byte array. Each one states its whole effect as an overlay
  (`Bytes.Blit`), and `Boot.InstallAndBoot` composes them with `initialize` and the module packer.

## Where the code differs from what it is for

Where a property fails, a lemma gives the exact condition under which it holds, an input that shows the
failure, or both.

- **BMFS `create` and deleted records.** Once no gap between files fits, the sweep goes on to deleted
  records and measures from the ends of their old extents to the last block, right across live
  files. `BmfsCreate.CreateIff` gives the exact condition under which `create` does what the file
  system promises; `BmfsCreate.UnsafeOverlaps` shows that outside of it, as long as the directory has a
  terminator, the new file always lies across an existing one; `BmfsRuns.StaleExample` is such a
  directory, and `BmfsRuns.StaleDisk` puts it on a disk. The condition is decided by the directory
  before the call, and does not depend on the order in which `qsort` leaves the deleted records, on
  which the comparator is no order.
- **BMFS `create` and names.** A name that is empty or starts with byte 1 makes a record that is the
  end of the list or deleted. `BmfsCreate.CreateIff` covers all names of at most 31 characters.
- **BMFS `create` in a full directory.** Without a 0x00 record the count of used records stays 0. The
  file is placed at block 1 unchecked, and if slot 0 was the deleted one, slot 1 becomes the end of the
  list. The same condition covers this case.
- **Heap room check.** The sum of top, size and header wraps at 64 bits. Tiling survives an allocation
  exactly when that does not happen (`Heap.AllocTilesIff`, `HeapRuns.WrapExample`).
- **Process ids.** No code assigns `pid`. The value that happens to be in the fresh struct is a
  parameter, assumed to be an unused index below `MAX_PROCESSES`.
- **Unblocking** keeps the ready list right exactly for BLOCKED processes (`Scheduling.UnblockIff`).
  When there is no memory for the list node, the process is marked READY, is not queued, and the call
  still answers 0 (`KernelScheduler.LostWakeup`). It also never counts: `process_count` is off by the
  number of unblocks, exactly (`Scheduling.RunKeepsInv`).
- **Removing a process before the first tick.** `remove_process` reads through `current` without a test.
  That is a read through NULL exactly when the process is queued and `current` is NULL
  (`ProcessTable.RemoveReadsNullIff`), so kill and block are safe exactly when the pid is not queued
  or `current` is not NULL. `Scheduling.BeforeFirstTick` is the bad case.
- **Removing the running process.** `Scheduling.RemovingCurrentIff` says of every allowed event
  whether all later ticks, however the run goes on with care, find every process's own stack pointer
  stored: exactly if it does not remove the running process, or kills it while no other is ready.
  Otherwise a kill lets the next tick store a stack pointer with the successor
  (`Scheduling.KilledRunner`), and a blocked process is resumed where it stood before it last ran
  (`Scheduling.BlockedRunner`, `Scheduling.BlockedExample`).
- **Exceptions** do not return to the interrupted code: the dispatcher writes the restore point into
  the saved frame (`ProcessFrame.Cpu.ExceptionToRestorePoint`).
- **Packed modules of 4 GiB or more** lose the upper bits of their size (`Packer.UnpackIff`).
- **The disk size argument** is tested for overflow by whether the product shrank. Some sizes beyond
  2^64 pass and are taken for smaller ones (`DiskSize.SizeRightIff`, `DiskSize.TooLargeAccepted`).
- **A MADT record** whose length field is not the one of its type makes the read cursor and the byte
  counter part. `Madt.WalkIff` says for which tables they stay together, and `Madt.PhantomProcessor`
  gives one in which a processor is found that is not there.
- **A dead snake** is moved on in later rounds and stamps cells without a check.
  `SnakeSteps.FruitKeptIff` and `SnakeSteps.BodyKeptIff` say exactly when such a move leaves the fruit
  and the survivor's snake alone, and `SnakeSteps.DeadSnakeTakesFruit` gives two rounds after which the
  only fruit has disappeared. Over whole games, deaths included, `SnakeRounds.GameKeepsIff` says that the
  invariants hold all along exactly when every round is harmless, which board, players, keys and random
  numbers decide beforehand.
- **Two players in one struct.** `main_menu` passes null for both players. Then nobody has the first
  snake (`SnakeRounds.FirstIsControlledIff`), and the one struct moves twice between two redraws, so
  that the board does not show its moves (`SnakeRounds.SharedIsNotShown`).

## Model

| member | source | states |
|---|---|---|
| `Heap.MemoryManager.constructor` | Kernel/drivers/memman.c:27-34 | an empty heap between the manager's own struct and the end address |
| `Heap.MemoryManager.SearchFree` | Kernel/drivers/memman.c:49-60 | the walk over headers in memory finds the first free block that is large enough, and the node before it |
| `Heap.MemoryManager.MemAlloc` | Kernel/drivers/memman.c:45-80 | address and new heap are those of first fit, the header chain in memory spells out the new block list, and the heap stays valid unless the room check wraps |
| `Heap.MemoryManager.TailAddress` | Kernel/drivers/memman.c:63-63 | a new block starts exactly where the tiled prefix ends |
| `Heap.MemoryManager.MemFree` | Kernel/drivers/memman.c:91-100 | the heap stays valid and becomes `Free` of the old one |
| `Heap.AllocTilesIff` | Kernel/drivers/memman.c:62-80 | headers and payloads still tile the heap without gap or overlap exactly when the 64-bit room check does not wrap |
| `Heap.HeadersDistinct` | Kernel/drivers/memman.c:62-80 | blocks lie in address order, none reaching into another, all below the top |
| `HeapRuns.AllocMeaning` | Kernel/drivers/memman.c:45-80 | NULL exactly for size 0 or when no free block fits and the tail has no room; otherwise a block that was not live, is large enough, lies inside the heap and is apart from every other block |
| `HeapRuns.FreshHeap` | Kernel/drivers/memman.c:27-34 | a fresh heap reaches to the last address given, and its first allocation succeeds exactly when it and its header fit behind the manager's struct |
| `HeapRuns.FreeMeaning` | Kernel/drivers/memman.c:91-100 | exactly the block with that payload address becomes free; any other address changes nothing |
| `HeapRuns.WrapExample` | Kernel/drivers/memman.c:64-66 | with the kernel's own heap bounds, a huge request is granted a block that ends beyond the heap |
| `HeapRuns.RunKeepsHeap` | Kernel/drivers/memman.c:45-100 | over every run of allocations and frees: tiling holds, no block moves or changes size, and a live block stays live and in place until its address is freed |
| `HeapRuns.AllocAllMeaning` | Kernel/drivers/memman.c:45-80 | after a list of allocations the blocks handed out are live and were not before, and every other block is as it was |
| `HeapRuns.Replay` | Kernel/drivers/memman.c:45-100 | from any heap: allocate a list, free exactly those blocks in any order (NULLs may be left out), allocate the list again, and the same addresses, the same NULLs and the same heap come out |
| `HeapRuns.ReplayFromFreed` | Kernel/drivers/memman.c:45-80 | the same allocations with the added blocks already present but free give the same addresses and end in the same heap |
| `Scheduling.RemoveMeaning` | Kernel/drivers/scheduler.c:145-175 | exactly the pid leaves the list, `current` stays on its process unless that is the one removed, and count and list length drop together |
| `Scheduling.StepKeepsInv` | Kernel/drivers/scheduler.c:56-222 | each event keeps the ready list free of duplicates and equal to the READY processes of the table, and `current` NULL or in the list |
| `Scheduling.BeforeFirstTick` | Kernel/drivers/scheduler.c:103-175 | a process created before the first tick is queued while `current` is NULL, so it must not be killed or blocked yet; after one tick it may |
| `Scheduling.UnblockIff` | Kernel/drivers/scheduler.c:210-222 | unblocking keeps that invariant exactly when the process is BLOCKED |
| `Scheduling.RunKeepsInv` | Kernel/drivers/scheduler.c:77-222 | over every disciplined run the invariant holds and `process_count` is the list length minus the number of successful unblocks |
| `Scheduling.RunFromInitial` | Kernel/drivers/scheduler.c:35-49 | the same from the state `init_scheduler` leaves |
| `Scheduling.SelectedAt` | Kernel/drivers/scheduler.c:68-74 | the k-th of a row of ticks selects the process k + 1 places behind `current`, going round |
| `Scheduling.RoundRobin` | Kernel/drivers/scheduler.c:56-75 | with n ready processes and no change of the list, n ticks select each of them exactly once |
| `Scheduling.NewcomerIsLast` | Kernel/drivers/scheduler.c:77-100 | a new or woken process runs right after the processes that stand behind `current`, each of which runs first |
| `Scheduling.CreateRefusedIff` | Kernel/drivers/scheduler.c:107-110 | a creation changes nothing exactly when 4096 processes are counted |
| `Scheduling.FaithfulStep` | Kernel/drivers/scheduler.c:56-222 | an event that loses no stack pointer keeps every other process's saved one, and a tick resumes with the saved one |
| `Scheduling.ContextPreserved` | Kernel/drivers/scheduler.c:56-222 | after any run without an event that `RemovingCurrentIff` rules out, a tick resumes the selected process with the stack pointer it had when it was last preempted, or its first frame, across block and unblock, and leaves every process's pointer stored |
| `Scheduling.RemovingCurrentIff` | Kernel/drivers/scheduler.c:145-208 | an allowed event lets all careful continuations find every stack pointer stored exactly when it does not take the running process off the list, or kills it while it is the only ready one |
| `Scheduling.KilledRunner` | Kernel/drivers/scheduler.c:161-166 | after a kill of the running process among others, the next tick stores its stack pointer, whatever it is, with the successor |
| `Scheduling.BlockedRunner` | Kernel/drivers/scheduler.c:196-222 | after block and unblock of the running process, a tick stores its stack pointer nowhere, and the stored one is still the old one |
| `Scheduling.BlockedExample` | Kernel/drivers/scheduler.c:56-222 | one process, preempted at 90 after block and unblock, is resumed at the 100 of before |
| `ProcessTable.BlocksDisjoint` | Kernel/drivers/scheduler.c:103-142 | two blocks in use by the scheduler never overlap, whatever they serve for |
| `ProcessTable.BlocksOfProcess` | Kernel/drivers/scheduler.c:112-136 | struct and stack of every process of the table, blocked or ready, and the node of every queued one are live heap blocks of sufficient size, each with its own owner |
| `ProcessTable.FreeIgnores` | Kernel/drivers/scheduler.c:187-190 | freeing a stack pointer inside a block, or an argument vector outside the heap, changes nothing |
| `ProcessTable.RemoveReadsNullIff` | Kernel/drivers/scheduler.c:150-161 | the walk over the nodes in memory finds the pid while `current` is NULL, and reads through it, exactly when the process is queued and nothing was dispatched yet |
| `ProcessTable.UnlinkedGood` | Kernel/drivers/scheduler.c:153-171 | unlinking and freeing a node leaves a well-formed chain that stands for the list without the pid, and every remaining block accounted for |
| `ProcessTable.QueuedGood` | Kernel/drivers/scheduler.c:77-100 | a node from the heap chained behind the last one stands for the longer list, the new block being its node |
| `ProcessTable.EnteredGood` | Kernel/drivers/scheduler.c:126-141 | filling a fresh struct, queueing it and entering it into the table stands for the created process, its three blocks owned by it |
| `ProcessTable.ForgottenGood` | Kernel/drivers/scheduler.c:187-191 | clearing the table entry and freeing its blocks leaves all other processes' blocks live and accounted for |
| `KernelScheduler.Scheduler.constructor` | Kernel/drivers/scheduler.c:35-49 | an empty table and list, in order |
| `KernelScheduler.Scheduler.Tick` | Kernel/drivers/scheduler.c:56-75 | through the pointers in memory: the stack pointer is stored with the process of `current` if there is one, `current` moves to its successor, whose pointer is returned |
| `KernelScheduler.Scheduler.AddProcess` | Kernel/drivers/scheduler.c:77-100 | the node is chained behind the last one, or nothing changes and the answer is -1 |
| `KernelScheduler.Scheduler.LastNode` | Kernel/drivers/scheduler.c:92-95 | the walk ends at the last node of the chain |
| `KernelScheduler.Scheduler.RemoveProcess` | Kernel/drivers/scheduler.c:145-175 | the list without the pid; exactly its node goes back to the heap and out of the chain; no table entry changes |
| `KernelScheduler.Scheduler.UnlinkAt` | Kernel/drivers/scheduler.c:154-170 | the matched node is taken out wherever it is, `current` is moved on if it was there |
| `KernelScheduler.Scheduler.CreateProcess` | Kernel/drivers/scheduler.c:103-142 | a READY process with struct, stack and node at the first three addresses the heap gives, its stored pointer one initial frame (`ProcessStart.CreateWithFrame`) below the top of its stack; or -1, the same processes, and a heap in which the allocations before the failed one stay |
| `KernelScheduler.Scheduler.Enter` | Kernel/drivers/scheduler.c:126-141 | the part behind the allocations: queued and in the table, or neither |
| `KernelScheduler.Scheduler.KillProcess` | Kernel/drivers/scheduler.c:177-194 | the process leaves list and table; the heap is the old one with exactly its node, stack and struct freed; an unknown pid changes nothing |
| `KernelScheduler.Scheduler.BlockProcess` | Kernel/drivers/scheduler.c:196-208 | BLOCKED and off the list, its node back in the heap, or -1 and no change |
| `KernelScheduler.Scheduler.UnblockProcess` | Kernel/drivers/scheduler.c:210-222 | READY and at the end of the list with a new node; without memory for the node, READY but not in the list, the heap as before, the invariant broken, and the answer is still 0 |
| `KernelScheduler.Scheduler.CreateKillCreate` | Kernel/drivers/scheduler.c:103-194 | create, kill, create: the second process has struct, stack and node at the addresses of the first, and the heap is the same |
| `KernelScheduler.ProcessReplay` | Kernel/drivers/scheduler.c:103-194 | the three allocations of a process, its blocks freed in the order of `kill_process`, and again: same addresses, same heap |
| `KernelScheduler.FailedCreateLeaks` | Kernel/drivers/scheduler.c:112-136 | when a later allocation of a creation fails, the blocks it had got before stay in use |
| `KernelScheduler.LostWakeup` | Kernel/drivers/scheduler.c:219-221 | a process marked READY whose node could not be allocated breaks the invariant |
| `KernelRuns.PlayEvent` | Kernel/drivers/scheduler.c:56-222 | each call in memory takes heap, table, list and nodes to the state the event describes |
| `KernelRuns.PlayFromStart` | Kernel/drivers/scheduler.c:35-222 | from `init_scheduler` over every disciplined run whose allocations succeed: the kernel in memory is in the state of the state machine, and struct and stack of every process and the node of every queued one are live blocks of which no two overlap |
| `KernelRuns.OwnedApart` | Kernel/drivers/scheduler.c:103-142 | in every consistent state the blocks in use, each for one purpose, are live and apart |
| `KernelRuns.FirstDispatch` | Kernel/drivers/scheduler.c:56-142 | the premises are met by the kernel's own heap: a process is created with the stored pointer 0x1000FE8, dispatched by a tick that preempts code with any stack pointer, and preempted |
| `ProcessStart.CreateWithFrame` | Kernel/drivers/scheduler.c:103-142 | the stack pointer stored for the new process is the one that the frame code leaves in `rax`, and a frame with its entry point and arguments ends there |
| `ProcessStart.StackTop` | Kernel/drivers/scheduler.c:131-131 | the frame is built from 4096 bytes above the stack base that the struct in memory holds |
| `ProcessStart.FirstRun` | Kernel/drivers/scheduler.c:56-75 | a tick that selects a process which has not run returns a pointer through which the processor gets to its entry point, on its empty stack |
| `ProcessStart.StartFirst` | Kernel/drivers/scheduler.c:56-142 | the first process of all, from `create_process` over the next tick to its entry point with its arguments in `rdx` and interrupts enabled |
| `ProcessFrame.Cpu.PushState` | Kernel/asm/interrupts.asm:19-35 | the fifteen registers lie below the old stack top in order, the rest of memory as it was |
| `ProcessFrame.Cpu.PopState` | Kernel/asm/interrupts.asm:37-53 | brings back exactly the registers that were pushed |
| `ProcessFrame.Cpu.CreateProcessStackFrame` | Kernel/asm/interrupts.asm:185-203 | the frame of twenty words on the new stack and nowhere else; the caller's stack and base pointers are as before |
| `ProcessFrame.Cpu.BuildFrame` | Kernel/asm/interrupts.asm:185-203 | `rax` is left 160 bytes below the stack top, where a frame ends through which the process can be started |
| `ProcessFrame.Cpu.Dispatch` | Kernel/asm/interrupts.asm:37-53 | a processor that takes the stored pointer as `rsp` pops every register and the five words of the interrupt and is at the entry point, code segment 8, flags 0x202 |
| `ProcessFrame.SavedAt` | Kernel/asm/interrupts.asm:19-35 | every saved register and interrupt word by its distance from the stack pointer |
| `ProcessFrame.Cpu.StartProcess` | Kernel/asm/interrupts.asm:185-203 | leaving an interrupt through a fresh frame starts at the entry point, on the empty stack, with interrupts enabled and the arguments in `rdx` |
| `ProcessFrame.Cpu.ExceptionToRestorePoint` | Kernel/asm/interrupts.asm:80-89 | whatever the dispatcher does to registers and to words outside the frame, the processor goes on at the restore point with its stack and base pointer, and with all other registers and flags as they were |
| `ProcessFrame.Restored` | Kernel/idt/exceptions.c:104-121 | the three words that `restore_state` writes are those of `rip`, `rsp` and `rbp` in the saved frame, and the frame is intact otherwise |
| `Bmfs.FindFile` | Bootloader/BMFS/bmfs.c:205-231 | the slot of the listed record with that name; none means that no listed record has it |
| `Bmfs.FreeSlot` | Bootloader/BMFS/bmfs.c:636-651 | the first record that is deleted or ends the list |
| `BmfsSweep.ComparatorOrders` | Bootloader/BMFS/bmfs.c:597-608 | the difference truncated to `int` still orders live records by starting block when blocks are below 2^31 |
| `BmfsSweep.Qsort` | Bootloader/BMFS/bmfs.c:659-661 | each record once, the live ones first and by starting block, the deleted ones in an order that is not determined |
| `BmfsSweep.SweepIsFirstFit` | Bootloader/BMFS/bmfs.c:663-685 | over live records the sweep finds exactly the lowest run of blocks in the data area that meets no file; only without one does it come to the deleted records |
| `BmfsSweep.SweepStep` | Bootloader/BMFS/bmfs.c:677-684 | the unsigned gap never underflows, and one round either takes the gap or moves behind the next file |
| `BmfsSweep.StaleChoiceMeaning` | Bootloader/BMFS/bmfs.c:672-684 | behind the live records the sweep takes the old end of some deleted record with room up to the last block, or nothing when none has it |
| `BmfsSweep.ChoiceMeaning` | Bootloader/BMFS/bmfs.c:659-691 | sort and sweep together: the lowest free run; without one, a start exactly when some deleted record has room behind it |
| `BmfsImage.EntryRoundTrip` | Bootloader/BMFS/bmfs.c:14-21 | a record of 64 bytes reads back as it was written |
| `BmfsImage.EncodeOffsets` | Bootloader/BMFS/bmfs.c:14-21 | name, starting block, reserved blocks and size stand at bytes 0, 32, 40 and 48 of the record |
| `BmfsImage.DirRoundTrip` | Bootloader/BMFS/bmfs.c:107-108 | so does the whole directory |
| `BmfsImage.AbsAt` | Bootloader/BMFS/bmfs.c:241-256 | every listed record is the file of its name |
| `BmfsCommands.RewriteSlot` | Bootloader/BMFS/bmfs.c:790-793 | one record rewritten and flushed: the disk stays consistent, only that slot's file changes, and of block 0 only the directory |
| `BmfsCommands.DeleteMeaning` | Bootloader/BMFS/bmfs.c:802-821 | exactly the named file is gone and no other listed record differs, or it was not there and nothing changed |
| `BmfsCommands.WriteMeaning` | Bootloader/BMFS/bmfs.c:754-799 | the named file has exactly the given bytes and reads back as them; all other files and listed records, the boot payload and the reservation stay; refused without a change exactly when there is no such file or it reserved too little |
| `BmfsCommands.WrittenAt` | Bootloader/BMFS/bmfs.c:784-793 | the bytes stand on the disk from 2097152 times the starting block on, and the record has their number as its size |
| `BmfsCommands.ReadMeaning` | Bootloader/BMFS/bmfs.c:722-751 | the bytes of the named file, or that there is none |
| `BmfsCommands.WrittenExtent` | Bootloader/BMFS/bmfs.c:784-789 | bytes written into one extent stay clear of block 0 and of every other file |
| `BmfsCreate.SafeCreate` | Bootloader/BMFS/bmfs.c:610-719 | in the safe cases, with a name the directory can hold, every order the sort may choose leads to an empty file of the least number of 2 MiB blocks that hold the size asked for, at the lowest place where it fits, and no other listed record changed, or to no change and a true reason |
| `BmfsCreate.KeptMeansSafe` | Bootloader/BMFS/bmfs.c:610-719 | when `create` did that, the case was a safe one |
| `BmfsCreate.NeverListed` | Bootloader/BMFS/bmfs.c:212-229 | no listed file has a name that is empty or starts with byte 1 |
| `BmfsCreate.CreateIff` | Bootloader/BMFS/bmfs.c:610-719 | for every name of at most 31 characters and every size: `create` keeps its promise, the least number of blocks that hold the size included, exactly when the name exists already, or the directory is a safe one and the name can be held, or nothing can be placed anyway |
| `BmfsCreate.PlaceIff` | Bootloader/BMFS/bmfs.c:635-719 | the same for the number of blocks that the code computes |
| `BmfsCreate.LeastBlocksIff` | Bootloader/BMFS/bmfs.c:615-620 | r is the least number of blocks of 2097152 bytes that hold the size in MiB exactly when 2r - 1 <= size <= 2r |
| `BmfsCreate.BlocksForLeast` | Bootloader/BMFS/bmfs.c:615-620 | that is the number the code computes, and no other |
| `BmfsCreate.CreatedHasRoom` | Bootloader/BMFS/bmfs.c:610-799 | a file that was created takes every content of at most the size asked for |
| `BmfsCreate.UnsafeOverlaps` | Bootloader/BMFS/bmfs.c:663-685 | in the unsafe cases with a terminator the new extent always meets a listed file |
| `BmfsRuns.FormatMeaning` | Bootloader/BMFS/bmfs.c:260-270 | an empty file system, the boot sector and everything behind the directory untouched |
| `BmfsRuns.FormatBytes` | Bootloader/BMFS/bmfs.c:260-270 | the bytes left: the marker `BMFS` and zeros in 1024 to 1535, zeros in 4096 to 8191, all others as before |
| `BmfsRuns.MountFindsState` | Bootloader/BMFS/bmfs.c:103-109 | the next command finds the directory as the last one left it |
| `BmfsRuns.CommandMeaning` | Bootloader/BMFS/bmfs.c:126-195 | one safe command keeps the disk consistent and acts on the files, and answers, as on a map |
| `BmfsRuns.RunMeaning` | Bootloader/BMFS/bmfs.c:205-821 | over every run of safe commands: extents disjoint and inside [1, blocks - 1), names unique, the list prefix kept, disk and memory the same directory, files as the same commands make of a map, block 0 changed in its directory only |
| `BmfsRuns.RunAnswers` | Bootloader/BMFS/bmfs.c:205-821 | every command of such a run answers as the map of files before it would |
| `BmfsRuns.StaleExample` | Bootloader/BMFS/bmfs.c:663-685 | a six-block disk without two free blocks on which `create` finds two, inside a live file |
| `BmfsRuns.StaleDisk` | Bootloader/BMFS/bmfs.c:663-685 | such a directory fits every formatted disk of six blocks, consistent in every other respect |
| `BmfsTool.Utility.constructor` | Bootloader/BMFS/bmfs.c:103-109 | the directory buffer holds the disk's directory |
| `BmfsTool.Utility.Find` | Bootloader/BMFS/bmfs.c:205-231 | the loop over 64 slots gives `FindFile` |
| `BmfsTool.Utility.Format` | Bootloader/BMFS/bmfs.c:260-270 | buffer and disk of an empty file system |
| `BmfsTool.Utility.CountRecords` | Bootloader/BMFS/bmfs.c:635-651 | number of records in front of the terminator, 0 without one, and the first reusable record |
| `BmfsTool.Utility.FirstGap` | Bootloader/BMFS/bmfs.c:663-685 | the loop with its running end of the previous file gives the sweep, the first match winning |
| `BmfsTool.Utility.Create` | Bootloader/BMFS/bmfs.c:610-719 | buffer, disk and answer are ones that `create` may leave, for some order of the deleted records; after success the record is empty and has the least number r of blocks with 2r - 1 <= size <= 2r |
| `BmfsTool.DiskBlocks` | Bootloader/BMFS/bmfs.c:621-621 | the blocks are the whole 2 MiB that the disk has |
| `BmfsTool.Utility.Place` | Bootloader/BMFS/bmfs.c:693-710 | the new record in the free slot, the next one marked as the end where the code does so, and the directory on the disk |
| `BmfsTool.Utility.Read` | Bootloader/BMFS/bmfs.c:722-751 | the byte loop delivers the file's bytes |
| `BmfsTool.Utility.Write` | Bootloader/BMFS/bmfs.c:754-799 | the byte loop and the size update give the whole new disk of the command |
| `BmfsTool.Utility.Delete` | Bootloader/BMFS/bmfs.c:802-821 | one byte of the buffer, flushed, is the whole change |
| `DiskSize.ParseSize` | Bootloader/BMFS/bmfs.c:301-389 | the two loops accept and compute what `Accepted` says |
| `DiskSize.UnitFactors` | Bootloader/BMFS/bmfs.c:331-350 | K, M, G, T and P in either case stand for their powers of 1024, no other character for any |
| `DiskSize.NumericIff` | Bootloader/BMFS/bmfs.c:301-362 | a size is taken for a number exactly when it is empty or all its characters are digits but perhaps the last, which may be a unit letter |
| `DiskSize.SizeExample` | Bootloader/BMFS/bmfs.c:301-389 | `128M` is 134217728 bytes |
| `DiskSize.SizeMeaning` | Bootloader/BMFS/bmfs.c:301-389 | an accepted size is the written one modulo 2^64 and at least 6 MiB; every well-formed size from 6 MiB to below 2^64 is accepted as written |
| `DiskSize.SizeRightIff` | Bootloader/BMFS/bmfs.c:307-322 | an accepted size is the written one exactly when that is below 2^64 |
| `DiskSize.TooLargeAccepted` | Bootloader/BMFS/bmfs.c:307-322 | a size of twenty digits that both tests let pass as a smaller one |
| `Packer.WriteFile` | Toolchain/ModulePacker/main.c:111-121 | the 128-byte chunk loop appends the whole source, whatever its length |
| `Packer.BuildImage` | Toolchain/ModulePacker/main.c:54-87 | kernel, module count, and one record for each module, in order |
| `Packer.ImageExample` | Toolchain/ModulePacker/main.c:54-87 | the bytes of an image of a small kernel, a module of two bytes and an empty one |
| `Packer.UnpackIff` | Kernel/utils/moduleLoader.c:11-42 | reading behind the kernel recovers exactly the packed modules and ends at the end of the image, exactly when every size is below 2^32 |
| `Packer.UnpackRecords` | Toolchain/ModulePacker/main.c:73-84 | the same for the records alone, anywhere in a byte sequence |
| `BootDisk.Initialize` | Bootloader/BMFS/bmfs.c:381-593 | zero-filled, formatted, boot sector in front, loader and kernel from byte 8192 on; failure exactly for a size below 6 MiB or a boot sector file below 512 bytes |
| `BootDisk.DiskFile.CopyFile` | Bootloader/BMFS/bmfs.c:511-531 | the chunk loop writes the whole file at the current position and nothing else |
| `BootDisk.ImageHolds` | Bootloader/BMFS/bmfs.c:486-560 | loader and kernel lie together in the finished image, the boot sector in front |
| `BootDisk.ImageIsEmptyBmfs` | Bootloader/BMFS/bmfs.c:479-560 | the bootable image is at the same time an empty, consistent file system |
| `BootStages.ReadSector` | Bootloader/Pure64/src/bootsectors/bmfs_mbr.asm:91-144 | one sector at es:cx, the sector number advanced, the offset advanced and carried into the segment |
| `BootStages.LoadSectors` | Bootloader/Pure64/src/bootsectors/bmfs_mbr.asm:31-39 | across four segments, the 256 KiB behind the directory lie at 0x8000 and nothing else changes |
| `BootStages.CopySegment` | Bootloader/Pure64/src/bootsectors/bmfs_mbr.asm:48-57 | 64 KiB copied by a 16-bit offset that runs until it wraps, the bytes still to be copied intact |
| `BootStages.Relocate` | Bootloader/Pure64/src/bootsectors/bmfs_mbr.asm:45-62 | the 256 KiB from 0x8000 lie at 0x60000 as they were, across four changes of segment |
| `BootStages.RunBootSector` | Bootloader/Pure64/src/bootsectors/bmfs_mbr.asm:31-81 | goes on exactly when the loader's first word is there, with the payload in both places |
| `BootStages.CopyKernel` | Bootloader/Pure64/src/pure64.asm:586-590 | the 256 KiB behind the relocated loader lie at the 1 MiB mark as they were before |
| `BootStages.Memcpy` | Kernel/utils/lib.c:21-53 | the word path and the byte path both copy exactly the bytes, unless the destination starts inside the source |
| `BootStages.ClearBytes` | Kernel/kernel.c:37-39 | the downward loop clears exactly the range |
| `PageTables.BuildTables` | Bootloader/Pure64/src/pure64.asm:162-330 | all tables are in place at the end and nothing above them changed, although the same pages are cleared, filled by loops of two word widths, and share memory with the stack; the GDT stands at 0x1000, the 4 KiB below it are zero, and the four bytes of the patch are in place |
| `PageTables.PrepareLow` | Bootloader/Pure64/src/pure64.asm:162-177 | low memory and directory pages cleared, the GDT at 0x1000 |
| `PageTables.PatchEntry` | Bootloader/Pure64/src/pure64.asm:315-318 | the four bytes are replaced between the two directory loops, and the tables so far stay |
| `PageTables.CreatePointers` | Bootloader/Pure64/src/pure64.asm:199-211 | 64 pointer entries, with the upper half of each word zero |
| `PageTables.CreateDirectory32` | Bootloader/Pure64/src/pure64.asm:216-228 | the first 2048 directory entries, 32 bits at a time |
| `PageTables.CreateDirectory64` | Bootloader/Pure64/src/pure64.asm:320-329 | the other 30720, 64 bits at a time, continuing them |
| `PageTables.StoreRoots` | Bootloader/Pure64/src/pure64.asm:183-194 | two root entries to the same pointer table |
| `PageTables.IdentityMap` | Bootloader/Pure64/src/pure64.asm:179-228 | every virtual address below 64 GiB, and the same plus 0xFFFF800000000000, walks through the built tables, by entries that are present and writable, to that physical address |
| `PageTables.TablesKept` | Bootloader/Pure64/src/pure64.asm:586-590 | the tables stay built while nothing is written to their pages |
| `MemoryMap.MemAmount` | Bootloader/Pure64/src/pure64.asm:457-487 | the bytes of the records of kinds 1, 3 and 6 in front of the end record, in MiB, rounded up to an even number |
| `MemoryMap.NextRecord` | Bootloader/Pure64/src/pure64.asm:457-487 | size and kind of record k at bytes 8 and 16 from 0x4000 + 32k; it counts exactly for the kinds 1, 3 and 6 |
| `Boot.ReadUint32` | Kernel/utils/moduleLoader.c:38-42 | the little-endian value and the cursor behind it |
| `Boot.LoadModule` | Kernel/utils/moduleLoader.c:20-36 | the bytes behind the size lie at the target, the cursor stands behind them |
| `Boot.LoadModules` | Kernel/utils/moduleLoader.c:11-18 | every module of the packed list lies at its target, and nothing below the targets changed |
| `Boot.BootMachine` | Bootloader/Pure64/src/pure64.asm:162-590 | from a disk with loader and packed kernel: boot sector, tables, setup, last copy, loading and clearing of the BSS leave the kernel at 1 MiB, each module at its target, the tables built and the BSS zero |
| `Boot.InstallAndBoot` | Bootloader/BMFS/bmfs.c:272-593 | end to end from the files: pack, initialise a disk, boot from it; the kernel lies at 0x100000, the modules at 0x400000 and 0x500000, the tables are built and the BSS is zero; no stage overwrites what a later one copies |
| `Snake.BoardIsQueue` | Userland/utils/exec/snake.c:200-230 | the cells that carry a player are those of a queue of past head positions: without repetition, neighbouring, ending at the head, at most one longer than the length |
| `Snake.QueueStep` | Userland/utils/exec/snake.c:256-291 | a move puts the new head behind the queue, and the front leaves it exactly when its countdown has run out |
| `Snake.ShownIsSuffix` | Userland/utils/exec/snake.c:223-227 | what has not expired is a contiguous end of the move history |
| `SnakeSteps.RedrawBody` | Userland/utils/exec/snake.c:223-227 | a redraw ages every stamp by one, keeps the cells that have not expired and clears those that have |
| `SnakeSteps.StampBody` | Userland/utils/exec/snake.c:287-290 | the new head's stamp on a cell of no snake makes the board show the longer history |
| `SnakeSteps.MoveIsAdjacent` | Userland/utils/exec/snake.c:269-281 | a move that stays on the board goes to an orthogonal neighbour |
| `SnakeSteps.NewFruit` | Userland/utils/exec/snake.c:319-325 | eating a fruit and placing a new one leaves exactly one |
| `SnakeSteps.SnakesApart` | Userland/utils/exec/snake.c:304-334 | the two snakes share no cell |
| `SnakeSteps.DeadSnakeTakesFruit` | Userland/utils/exec/snake.c:256-291 | a snake dead at the edge facing right, the only fruit in the last cell of row 0: two rounds later its stamp is there, and no fruit is on the board |
| `SnakeSteps.FruitKeptIff` | Userland/utils/exec/snake.c:256-334 | after any move of a player, dead or alive, one fruit is on the board exactly when the head enters a free cell or the fruit, or there are cells of its own to clear, or the stamp lands off the board or on a cell other than the fruit |
| `SnakeSteps.BodyKeptIff` | Userland/utils/exec/snake.c:256-334 | likewise another player's snake is shown in full exactly when the stamp does not land on it |
| `SnakeSteps.LivingIsHarmless` | Userland/utils/exec/snake.c:336-349 | the moves of a living player are always harmless, also the one it dies of |
| `SnakeSteps.LivingMove` | Userland/utils/exec/snake.c:287-290 | a survivor is shown in full after its move, its new head last |
| `SnakeSteps.StepOutcome` | Userland/utils/exec/snake.c:256-334 | what a living player meets one cell on: it survives exactly on an empty cell or the fruit, grows by one exactly on the fruit, and otherwise all its cells are emptied |
| `SnakeSteps.StepGoesOn` | Userland/utils/exec/snake.c:256-281 | a survivor is one row up or down or one column left or right of where it was, as the key says, or straight on for no key and for the one against its direction |
| `SnakeSteps.TwoMovesPerRedraw` | Userland/utils/exec/snake.c:236-254 | two moves of one struct between redraws leave a board that does not show its moves |
| `SnakeSteps.FirstEmpty` | Userland/utils/exec/snake.c:293-302 | the search for a place ends at the first tried cell that is empty, and does not end exactly when no tried cell is |
| `SnakeSteps.CheckedMove` | Userland/utils/exec/snake.c:287-289 | what `check_collision` leaves, and the stamp wherever the head coordinates lead, make one move |
| `SnakeRounds.TurnMeaning` | Userland/utils/exec/snake.c:237-334 | a living player goes where its key says, or on if the key is not one of its own or against its direction; it survives, grows, and is recorded there, or is wiped off, by what that cell holds |
| `SnakeRounds.TurnKeepsIff` | Userland/utils/exec/snake.c:237-291 | a player's turn keeps the one fruit and the other living snake exactly when it is harmless |
| `SnakeRounds.OwnTurn` | Userland/utils/exec/snake.c:237-291 | a player that survives its turn is shown in full, and the turn of a living player is harmless |
| `SnakeRounds.RoundStuckIff` | Userland/utils/exec/snake.c:127-128 | a round does not end exactly when the first or the second mover eats the fruit and no try finds a new place |
| `SnakeRounds.RoundKeepsIff` | Userland/utils/exec/snake.c:125-130 | a round keeps one fruit and all living snakes, after each of its moves, exactly when it is harmless |
| `SnakeRounds.GameKeepsIff` | Userland/utils/exec/snake.c:125-132 | over any inputs and through deaths, the invariants hold at every boundary and between moves exactly when every round is harmless |
| `SnakeRounds.LivingGameIsHarmless` | Userland/utils/exec/snake.c:125-132 | a game in which nobody has died is harmless |
| `SnakeRounds.Played` | Userland/utils/exec/snake.c:125-133 | rounds are played only while somebody lives, and stop early only when nobody does or a fruit search does not end |
| `SnakeRounds.BoundaryOk` | Userland/utils/exec/snake.c:125-132 | after every number of rounds of a harmless game there is one fruit, every living player is shown in full, and it has made one move in each round |
| `SnakeRounds.SharedIsNotShown` | Userland/utils/exec/snake.c:236-254 | one struct for both players is not shown after a round that it survives |
| `SnakeRounds.StartOk` | Userland/utils/exec/snake.c:83-123 | the invariants hold once one or two players are set up and the first fruit lies |
| `SnakeRounds.FirstIsControlledIff` | Userland/utils/exec/snake.c:91-96 | start cells, directions and lengths of the players; somebody with the first player's number and keys is shown exactly when a second player has a struct of its own |
| `SnakeRounds.StartPlacedIff` | Userland/utils/exec/snake.c:293-302 | the first fruit finds a place exactly when some try hits a cell that is no start cell |
| `SnakeGame.Game.constructor` | Userland/utils/exec/snake.c:83-89 | an empty board |
| `SnakeGame.Game.InitPlayer` | Userland/utils/exec/snake.c:178-193 | number, keys, start cell, length five and direction; one cell changes |
| `SnakeGame.Game.DrawGame` | Userland/utils/exec/snake.c:200-230 | every cell aged once, and a cell cleared exactly when it had expired and is no fruit |
| `SnakeGame.Game.Food` | Userland/utils/exec/snake.c:293-302 | the first empty cell that is tried becomes the fruit; without one, nothing changes and the answer says so |
| `SnakeGame.Game.DeleteSnake` | Userland/utils/exec/snake.c:336-349 | exactly the player's cells are emptied; if there were any, the head goes to -1, -1 and the length to 0, otherwise both stay |
| `SnakeGame.Game.CheckCollision` | Userland/utils/exec/snake.c:304-334 | board and head afterwards: unchanged on a free cell; longer by one and the next fruit placed after a fruit; dead and wiped off otherwise; the answer is false exactly when a fruit was eaten and no try finds a new place |
| `SnakeGame.Game.UpdatePosition` | Userland/utils/exec/snake.c:256-291 | for living and dead players: turned and moved as keyed, the whole new board and head, a survivor one cell on in the direction of its key; false exactly when a fruit was eaten and no try finds a new place |
| `SnakeGame.Game.MoveOne` | Userland/utils/exec/snake.c:237-253 | one player's part of a round: its turn, or false exactly when its fruit search does not end |
| `SnakeGame.Game.Iterate` | Userland/utils/exec/snake.c:125-130 | board and players after the redraw and every player's move, or the number of the player whose fruit search does not end |
| `SnakeGame.Game.Play` | Userland/utils/exec/snake.c:125-133 | plays exactly the game that board, players and inputs determine, with its number of rounds and its end; after a harmless one the invariants hold |
| `SnakeGame.Game.Start` | Userland/utils/exec/snake.c:83-123 | one or two players, in one struct or two, and the fruit at the first tried cell that is no start cell; false exactly when no try hits one; then the invariants hold |
| `Line.DrawLine` | Userland/utils/libc/draw.c:32-54 | ends after exactly max of the two distances steps at the end point, in every octant; each point is one step further along the longer axis, within half a unit of the ideal line (behind it when exactly half a unit off) and between the ends; no `int` overflows |
| `Line.OnLineUnique` | Userland/utils/libc/draw.c:32-54 | there is only one such point for each step, so the whole line is determined |
| `Line.RoundKeepsBand` | Userland/utils/libc/draw.c:43-51 | each round moves along the longer axis and keeps the error term in its band |
| `Line.BandIsNear` | Userland/utils/libc/draw.c:39-39 | in its band, the error term means a distance of at most half a unit |
| `Digits.UintToBase` | Kernel/utils/naiveConsole.c:87-114 | the buffer holds the text of the value, a NUL behind it and nothing else new; the answer is the number of digits |
| `Digits.RepresentationMeaning` | Kernel/utils/naiveConsole.c:92-97 | the digits evaluate to the value, are below the base, and do not start with a superfluous zero |
| `Digits.RepresentationUnique` | Kernel/utils/naiveConsole.c:92-97 | no other digits do |
| `Digits.RepresentationMinimal` | Kernel/utils/naiveConsole.c:92-97 | no digits of that value are fewer |
| `Digits.TextInjective` | Kernel/utils/naiveConsole.c:95-95 | different numbers have different texts, in each base from 2 to 36 |
| `Digits.ReverseStr` | Userland/utils/libc/stdlib.c:44-54 | swapping from both ends reverses the prefix and leaves the rest |
| `Digits.Itoa` | Userland/utils/libc/stdlib.c:74-103 | decimal text of the number and a NUL, nothing else changed |
| `Digits.Atoi` | Userland/utils/libc/stdlib.c:56-72 | the leading digits as a number in 64 bits, times 255 behind a minus sign |
| `Digits.AtoiExamples` | Userland/utils/libc/stdlib.c:56-72 | small texts with and without a sign, and what they give |
| `Digits.AtoiOfItoa` | Userland/utils/libc/stdlib.c:56-103 | reading back a printed number gives it again, for every 64-bit number and whatever follows in the buffer |
| `Madt.ParseAPICTable` | Bootloader/Pure64/src/init/acpi.asm:135-270 | for every walk that ends inside memory, stored IDs, counts and I/O APICs are those of what its rounds read; for a table of well-formed records these are the enabled type-0 and the type-1 records, in order |
| `Madt.ReadStructure` | Bootloader/Pure64/src/init/acpi.asm:157-265 | whatever the length field says: the cursor goes on by what the type makes the code read, which is the length field if that is the one of section 5.2.12, the counter by the length field, and the ID or I/O APIC is that of the bytes read |
| `Madt.ReadsLengthIff` | Bootloader/Pure64/src/init/acpi.asm:186-265 | the code reads as many bytes as the length field says exactly when types 0, 1, 2 and 9 have lengths 8, 12, 10 and 16 |
| `Madt.WalkIff` | Bootloader/Pure64/src/init/acpi.asm:157-270 | the walk ends exactly at the table's length, cursor and counter together at every boundary, just when the table is a list of records in which types 0, 1, 2 and 9 have lengths 8, 12, 10 and 16 |
| `Madt.OrdinaryTable` | Bootloader/Pure64/src/init/acpi.asm:157-270 | an ordinary table, with a disabled processor, an I/O APIC, an interrupt source override and an x2APIC between two processors: the walk is in step and finds the two and the I/O APIC |
| `Madt.NothingReadIff` | Bootloader/Pure64/src/init/acpi.asm:157-159 | the walk ends before the first record exactly for a length of at most 44, or of 2^31 or more, which counts as negative |
| `Madt.PhantomProcessor` | Bootloader/Pure64/src/init/acpi.asm:186-265 | a table with one wrong length field: the walk stores a second processor from the middle of the first record and misses the I/O APIC |
| `Madt.WellFormedWalks` | Bootloader/Pure64/src/init/acpi.asm:157-270 | what the walk over a well-formed table reads are its records |

## Left out

- Heap.MemoryManager.MemAlloc: validity is promised without a wrap of the room check, because with one it is false (`Heap.AllocTilesIff`).
- BmfsTool.Utility.Create: names of more than 31 characters are excluded, as Bootloader/BMFS/BareMetal File System.md:72 asks of callers; the code copies them unchecked over the record.
- BmfsCommands.WriteMeaning: contents of 2^31 bytes or more are excluded: the byte loop counts in an `int`, whose overflow C leaves undefined. The documentation allows files up to 64 TiB.
- BmfsTool.Utility.Read: local files are byte sequences; opening them, and messages, are not modelled.
- KernelScheduler.Scheduler.CreateProcess: the pid is a parameter, unused and below `MAX_PROCESSES`, because no code assigns it; `argv` lies outside the heap, which callers' string constants do. After a failed creation, blocks already allocated are not given back, as in the code.
- KernelScheduler.Scheduler.Tick: when a process is preempted, its stack pointer is assumed to lie strictly inside a heap block, as a process's own stack does.
- KernelScheduler.Scheduler.RemoveProcess: `current` is non-NULL when the pid is found, see `ProcessTable.RemoveReadsNullIff`.
- KernelScheduler.Scheduler.UnblockProcess: only BLOCKED processes of the table, see `Scheduling.UnblockIff`.
- Boot.InstallAndBoot: packed images of at most 262144 - 6144 bytes and at most two modules; setup code between the stages may write anything outside the regions named in `Boot.SetupWrites`.
- Madt.ParseAPICTable: walks that read beyond the given memory or never end, which a record of an ignored type with length 0 causes.
- SnakeGame.Game.Food: random numbers are inputs; that they hit an empty cell in the end is not part of this model.
- KernelRuns.PlayFromStart: runs in which an allocation fails are not covered as runs; `CreateProcess` and `UnblockProcess` say what such a call leaves.
- SnakeGame.Game.Play: nothing is said about the board while a search for a place for the fruit goes on.
- ProcessFrame.Cpu.ExceptionToRestorePoint: memory is seen as words on the grid of the stack in use, so that no two words overlap.
- Line.DrawLine: each distance is below 2^31, and for lines not longer in x their sum is at most 2^31 + 1, so that no `int` overflows.
- Digits.UintToBase: bases from 2 to 36, and buffers that hold the text.
- PageTables.Walk ends in a fault on pages of other sizes than 2 MiB, which the tables do not have.
- Heap headers, list nodes and process structs are typed records found by address, not bytes.
- Some source functions are split into several methods (`SearchFree`, `UnlinkAt`, `Enter`, `Place`, `FirstGap`, `ScanSize` and others), each over a contiguous part of the code.
- The checksum fields of the ACPI tables, the search for the tables, and the HPET table.
- `irq_handler`, which pops one more register than it pushed before the frame was built.
- Device and port I/O, BIOS calls, mode switches, interrupt controllers, and the start of further processors. `int 0x13` is taken to return the requested sector.
- Process priorities, which the scheduler does not look at.
- The copy of block 0 in the last block, which no code writes.
- `list` of BMFS, keyboard, sound, clock, video, fonts, menus and the shell: they would add easy members only.
