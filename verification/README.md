# NemoOS kernel: a verified model

NemoOS is a small 32-bit x86 kernel. This project models its memory managers, its program loader, its
process/scheduler/IPC state machine, its kernel heap and four self-contained algorithms, and proves what
they promise. Code that works in place is modelled in place (classes, arrays, loops); what a run of such
operations guarantees is proved on values and tied to the classes by their contracts.

| files | subject |
|---|---|
| `FrameAllocator.dfy` | the bitmap of physical frames refines a set of frames |
| `PageTables.dfy`, `AddressSpaces.dfy`, `AddressSpaceRuns.dfy` | two-level page tables stored in those frames; every space is an abstract page map; isolation over whole runs |
| `BootPaging.dfy` | the identity map built at boot, and that it stays true for ever |
| `ElfImage.dfy`, `ElfLoader.dfy`, `ProgramLoads.dfy` | loading a program through the page tables; what every address shows afterwards; a load after boot that loses a byte |
| `ProcessModel.dfy`, `ProcessRuns.dfy`, `ProcessCalls.dfy`, `ProcessTurns.dfy`, `Processes.dfy` | scheduler, process table and message queues as one transition system; run theorems; what each call does, in terms of the table alone; everybody gets a turn; the objects that refine it |
| `KernelStacks.dfy` | one attempt at allocating a kernel stack, and why a second one never helps |
| `HeapModel.dfy`, `HeapMemory.dfy`, `HeapSteps.dfy`, `KernelHeap.dfy` | kmalloc and kfree: tiling, the linked free list, headers and footers in memory |
| `RawFree.dfy`, `FreeRight.dfy`, `FreeExamples.dfy`, `FreeRuns.dfy` | kfree word by word, whatever the memory holds; exactly when it is right; inputs on which it is not; runs from boot that lose memory |
| `Checksum.dfy` | the Internet checksum against RFC 1071 |
| `Terminal.dfy` | the scrolling screen as a window on an unbounded page |
| `FatDirectory.dfy` | FAT32: where clusters, chains and entries lie on the disk, and lookup against enumeration |
| `RamFs.dfy`, `Paths.dfy` | the RAM file system, path resolution, mounts and `pwd` |
| `Common.dfy` | bytes and optional values |

Conventions of the model:

- Machine words are integers with explicit bounds. An aligned address or-ed with flags is a sum, and masking
  the low twelve bits off is a division; `PageTables.EntryFields` shows that nothing is lost.
- Kernel pointers are physical addresses. `BootPaging.IdentityForEver` is what justifies this: every address
  space maps all of memory to itself.
- Stores by the kernel ignore the read-only bit of a page, because CR0.WP is not set; a store to an absent
  page faults. The loader runs with the target space active.
- Every `int 0x80` is one step, dispatch and then `scheduler_tick`, because the gate disables interrupts; a
  timer interrupt is the other kind of step.
- Failed allocations, failed reads and the contents of files are parameters.
- In the heap, memory is indexed by byte address and the entries at multiples of four hold the words.

Where the code does not meet the obvious intent, the model keeps the code. These members state exactly when the
intent is met, or what happens otherwise, and give an input:

| what | exact statement | input |
|---|---|---|
| kfree merges with neighbours that are in use, and blocks with themselves | `FreeRight.RightExactlyIf` | `FreeExamples.FirstOfTwoIsWrong`, `FreeExamples.OnlyOneIsRightIff` |
| merging with the previous block only loses both | `HeapModel.PrevLosesBlock` | `FreeRuns.HalvesAreLost`, `FreeRuns.AloneIsLost` |
| growing over scattered pages loses pages | `HeapModel.GrowBytes` | `FreeRuns.ScatteredGrowth` |
| very large requests wrap | `HeapModel.NeededIsEnough` | any request above 0xFFFFFFE8 |
| a blocked process that sends to itself, or a dead one that reaps itself, loses a context | `ProcessRuns.KeptIffCareful` | `ProcessRuns.SelfSendExample` |
| a dead process goes on executing when nothing is runnable | `ProcessRuns.DeadHasCpuIff` | `ProcessRuns.DeadHasCpuExample` |
| the shell leaves slot 0 when it reaps itself | `ProcessRuns.ShellStaysIff` | `ProcessRuns.SelfReapExample` |
| an attempt at a kernel stack that fails once fails for ever | `KernelStacks.RepeatsForEver` | two lowest free frames that are no neighbours |
| a destroyed process leaves frames behind | `AddressSpaceRuns.LifeOfAUserProcess` | every user process |
| a map through a supervisor slot shows in every space | `AddressSpaces.VirtualMemory.MapPage`, `AddressSpaceRuns.UnconfinedMapIsGlobal` | `BootPaging.KernelPageIsEverybodys` |
| a page shared by two segments loses bytes | `ElfLoader.LoadInto` (its `ShownAt`), `ElfLoader.SharedPageIsLost` | `ProgramLoads.SharedPageExample` |
| the size that the loader reports depends on the order of the segments | `ElfLoader.BookedExact` | `ElfLoader.OutOfOrderExample` |
| null is returned for frame 0, once it is given back, which no caller does | `FrameAllocator.NullMeansExhausted` | `FrameAllocator.NullWithoutExhaustion` |
| a zero name does not end a FAT directory | `FatDirectory.ListsBehindTheMark` | `FatDirectory.BehindTheMarkExample` |
| the mount at "/" does not match ordinary paths | `Paths.RootMountMatches` | `Paths.PwdIsNotAbsolute` |
| a reply shorter than its checksum does not verify | `Checksum.EchoReply` | a request of two bytes, which the only caller does not pass on |

`FreeRight.RightExactlyIf` calls kfree right when the memory it leaves describes a heap in the same regions in which
exactly the block went out of use, every other block in use and every free block that does not touch it is as it
was, and its bytes are free. The condition on a side is: outside the window of its test, or at the border of the
region with a word that the test rejects, or a free block of the region; and the merge is not with the previous
block only. If the condition holds kfree is right, without further assumptions (`FreeRight.IfSidesRight`). That it
is wrong otherwise is proved for heaps as the kernel builds them, above the first 64 KB in regions of at most 64 KB
(`FreeRuns.HighFromBoot`), and for memories in which a header that a test accepts belongs to the heap and its links,
old ones if it is in use, are null or lead to blocks. `FreeExamples.WrongMergeIsHarmless` shows that this last
assumption cannot be dropped: a counterfeit header of size zero, or one particular old link, makes the wrong merge
come out right.

## Model

| member | source | states |
|---|---|---|
| FrameAllocator.FrameBitmap.constructor | src/memory/pmm_bitmap.cpp:29-46 | after initialisation bytes, total and counter describe the frames below 4 MB as held and the rest as free, for any memory size up to 1 GB |
| FrameAllocator.FrameBitmap.SetBit | src/memory/pmm_bitmap.cpp:14-17 | setting a bit adds exactly that frame to the set the bytes represent |
| FrameAllocator.FrameBitmap.ClearBit | src/memory/pmm_bitmap.cpp:19-22 | clearing a bit removes exactly that frame |
| FrameAllocator.FrameBitmap.TestBit | src/memory/pmm_bitmap.cpp:24-27 | the test answers membership |
| FrameAllocator.SetBitLaw | src/memory/pmm_bitmap.cpp:14-17 | the byte-and-mask update changes one bit of the map and no other |
| FrameAllocator.ClearBitLaw | src/memory/pmm_bitmap.cpp:19-22 | the same for clearing |
| FrameAllocator.FrameBitmap.AllocPage | src/memory/pmm_bitmap.cpp:48-62 | returns the lowest free frame and holds it, or null and nothing changes; the counter stays the number of held frames |
| FrameAllocator.FrameBitmap.FreePage | src/memory/pmm_bitmap.cpp:64-77 | removes the frame of the address if it is held, otherwise nothing changes |
| FrameAllocator.FrameBitmap.FreePages | src/memory/pmm_bitmap.cpp:79-82 | the difference of the counters is the number of free frames |
| FrameAllocator.TakeThenGive | src/memory/pmm_bitmap.cpp:48-77 | giving back the frame just taken restores the allocator |
| FrameAllocator.GiveTwice | src/memory/pmm_bitmap.cpp:64-77 | a repeated free changes nothing |
| FrameAllocator.HeldIsNotHandedOut | src/memory/pmm_bitmap.cpp:48-77 | in any run a held frame that nobody gives back is never handed out |
| FrameAllocator.NoDoubleHandOut | src/memory/pmm_bitmap.cpp:48-77 | in any run two requests get the same frame only if it was given back in between |
| FrameAllocator.NullMeansExhausted | src/memory/pmm_bitmap.cpp:48-62 | in any run that never frees an address below 4096, null is returned exactly when every frame is held |
| FrameAllocator.NullWithoutExhaustion | src/memory/pmm_bitmap.cpp:48-77 | once frame 0 is free, null is returned although a frame was taken |
| PageTables.EntryFields | src/memory/vmm.cpp:126-126 | an entry built from a frame and flags has that frame and those flags |
| PageTables.TableWrite | src/memory/vmm.cpp:124-126 | a word written into a table that a space owns changes one page of that space and no page of any other, and keeps the ownership invariant |
| PageTables.SharedWrite | src/memory/vmm.cpp:124-126 | a word written into a table that all spaces share changes that page in every space and keeps the invariant |
| PageTables.AddTable | src/memory/vmm.cpp:111-122 | hanging an empty table into an absent slot changes no translation anywhere |
| PageTables.FinishSpace | src/memory/vmm.cpp:26-66 | a completely copied directory is a new space that translates like the kernel's, and no other space changes |
| PageTables.RemoveSpace | src/memory/vmm.cpp:79-98 | without a space and its own tables the invariant and all other translations remain |
| AddressSpaces.PhysicalMemory.ClearFrame | src/memory/vmm.cpp:118-119 | the loop zeroes one frame and no other |
| AddressSpaces.PhysicalMemory.CopyFrame | src/memory/vmm.cpp:57-58 | the loop copies one frame onto another and changes no other |
| AddressSpaces.VirtualMemory.EnsureTable | src/memory/vmm.cpp:111-122 | succeeds exactly when the slot is present or a frame is free, and changes no translation |
| AddressSpaces.VirtualMemory.MapPage | src/memory/vmm.cpp:100-136 | fails exactly when a table is needed and no frame is left, and then nothing changed; otherwise exactly one page of one space becomes the given frame and flags, or that page of every space if the slot is a supervisor slot, and at most one frame is taken |
| AddressSpaces.VirtualMemory.UnmapPage | src/memory/vmm.cpp:138-162 | exactly one page of one space becomes absent, or that page of every space if the slot is a supervisor slot, and no frame moves |
| AddressSpaces.VirtualMemory.CreateSpace | src/memory/vmm.cpp:18-69 | all or nothing: fails exactly when there are too few frames for directory and USER tables, and then bitmap and counter are as before; otherwise the new space translates every address like the kernel's, with USER tables in fresh frames of its own |
| AddressSpaces.VirtualMemory.FillDirectory | src/memory/vmm.cpp:26-66 | the copying loop ends with a whole directory or with every frame returned |
| AddressSpaces.VirtualMemory.CopySlot | src/memory/vmm.cpp:31-65 | one slot is absent, shared or privately copied as the kernel's slot is absent, supervisor or USER |
| AddressSpaces.VirtualMemory.RollBack | src/memory/vmm.cpp:43-53 | exactly the frames taken for the unfinished directory go back |
| AddressSpaces.VirtualMemory.DestroySpace | src/memory/vmm.cpp:79-98 | exactly the directory and the USER tables of the space go back; null is ignored |
| AddressSpaceRuns.Perform | src/memory/vmm.cpp:18-162 | each operation of the classes is a step of the specification in which a space is just a page map |
| AddressSpaceRuns.Refines | src/memory/vmm.cpp:18-162 | every run of creations, maps, unmaps, destructions and foreign frame traffic keeps the invariant and refines a run of page maps |
| AddressSpaceRuns.WalkIsHistory | src/memory/vmm.cpp:18-162 | after every run the two-level walk of every page of every live space is what the last map or unmap of that page of that space made it, or what it inherited from the kernel at creation |
| AddressSpaceRuns.Isolation | src/memory/vmm.cpp:18-162 | a run that does not name a space leaves all its translations as they were |
| AddressSpaceRuns.KernelPageFixed | src/memory/vmm.cpp:26-66 | the kernel's supervisor pages never change in any run |
| AddressSpaceRuns.SharedForEver | src/memory/vmm.cpp:26-66 | what the kernel maps in supervisor slots every space maps the same, for ever |
| AddressSpaceRuns.UnconfinedMapIsGlobal | src/memory/vmm.cpp:124-126 | an entry written through a supervisor slot changes that page in every space at once, which is why maps are confined |
| AddressSpaceRuns.Conservation | src/memory/vmm.cpp:18-162 | over every run, with any number of spaces living at the same time, the frames held that are no paging structure of a live space are exactly those that were such at first and those taken since and not given back |
| AddressSpaceRuns.FramesComeBack | src/memory/vmm.cpp:18-162 | if the spaces created in a run are destroyed in it, in whatever order and one beside the other, they return exactly the frames they took for directories and tables |
| AddressSpaceRuns.LifeOfAUserProcess | src/process/process.cpp:136-185 | in a run with any other processes, after process_destroy the space has no frame any more; but a frame taken for the stack or for a page of the program stays held for ever unless somebody gives it back, because vmm_destroy_space frees only directory and tables |
| AddressSpaceRuns.OneUserProcess | src/process/process.cpp:136-185 | a process that lives alone: exactly the user stack page and the pages of the program are lost, and all of these were free before |
| BootPaging.PagingInit | src/memory/paging.cpp:58-106 | for 1 to 1024 MB it never panics, maps every page below max(4 MB, memory) to itself writable and for the kernel only, maps nothing else, and takes exactly ceil(MB/4)-1 frames; it panics exactly for a detected size of 0 |
| BootPaging.MapTheRest | src/memory/paging.cpp:79-106 | the loop opens one table per 4 MB and enters every page |
| BootPaging.FillBootTable | src/memory/paging.cpp:65-77 | the first 4 MB are mapped to themselves and nothing else is |
| BootPaging.BootMemory | src/kernel.cpp:106-110 | starting allocator, paging and address spaces in this order establishes the invariant of the address spaces |
| BootPaging.IdentityForEver | src/memory/paging.cpp:58-106 | from boot on, in every run, every space maps every page of memory, and of the first 4 MB, to itself |
| BootPaging.KernelPageIsEverybodys | src/memory/vmm.cpp:100-136 | from boot on, in every run, any space and any page of memory: the slot is a supervisor slot, and the entry that vmm_map writes there changes the page in every space |
| ElfLoader.WriteByte | src/fs/elf.cpp:126-133 | a byte stored at an address of the image is what that address shows, and no other address of the image changes |
| ElfLoader.MapPages | src/fs/elf.cpp:105-121 | every page of the segment gets a fresh frame of its own, also if an earlier segment had the page, open to ring 3 and writable exactly if the segment has PF_W; there are frames for all of them exactly if there is one for each page and one for each slot without a table |
| ElfLoader.CopyBytes | src/fs/elf.cpp:123-127 | the file bytes are written to their addresses, over what was there |
| ElfLoader.ZeroBytes | src/fs/elf.cpp:129-133 | and zeros to the rest of the segment |
| ElfLoader.LoadSegments | src/fs/elf.cpp:94-140 | segments are loaded in order; whatever the outcome, what was written so far is shown and other spaces are as they were |
| ElfLoader.LoadInto | src/fs/elf.cpp:60-144 | a bad header changes nothing; the load succeeds exactly with enough frames (if no segment has pages but no bytes; if one has, at least then); afterwards pages of no segment are as they were, and on every other page the last segment that has it decides: the page is open to ring 3 and writable exactly if that segment has PF_W, its addresses show its file bytes or zero, the rest what the fresh frame held before; whatever the outcome, no other space has changed |
| ElfLoader.NeedIs | src/fs/elf.cpp:105-121 | enough frames means one for every page of every segment and one for every slot they touch that has no table |
| ElfLoader.LoadedShows | src/fs/elf.cpp:94-140 | what each address shows after the loops, and with which permissions |
| ElfLoader.PagesArePermitted | src/fs/elf.cpp:115-120 | so the walk of every page of a segment ends open to ring 3, and writable exactly if the last segment that has the page has PF_W |
| ElfLoader.LastIsVisible | src/fs/elf.cpp:94-140 | a segment whose pages no later one has is shown completely |
| ElfImage.StoreKeeps | src/fs/elf.cpp:126-133 | a byte store into an image frame keeps the page tables and the rest of the image |
| ElfImage.MapKeeps | src/fs/elf.cpp:107-120 | mapping a fresh frame keeps every byte written so far, except on that page, which then shows what the frame holds |
| ElfLoader.SharedPageIsLost | src/fs/elf.cpp:102-121 | an address of a segment on a page that a later one has as well shows the later one's byte if that has the address, and otherwise what the later one's frame held before the load |
| ProgramLoads.SharedPageExample | src/fs/elf.cpp:94-149 | after boot a program with two one-byte segments on one page is loaded: the load succeeds and the first byte reads what a free frame held |
| ProgramLoads.NotVisible | src/fs/elf.cpp:94-149 | so if free memory is zero the byte of the file is not there |
| ElfLoader.BookedBounds | src/fs/elf.cpp:90-139 | entry is the one of the header, load_addr the lowest address in any order, and size never exceeds the extent |
| ElfLoader.AscendingExtent | src/fs/elf.cpp:135-139 | for ascending segments size is the extent |
| ElfLoader.BookedExact | src/fs/elf.cpp:135-139 | in any order, size is the extent exactly when some segment ends highest, no later one begins lower, and every later one ends as high or at most at the extent |
| ElfLoader.OutOfOrderExample | src/fs/elf.cpp:135-139 | the higher of two pages first: size is one page |
| ProcessModel.NextIsSound | src/scheduler/scheduler.cpp:19-34 | the search answers -1 exactly when nothing is runnable, and otherwise a runnable process |
| ProcessModel.Round | src/scheduler/scheduler.cpp:25-31 | going round once reaches every slot |
| ProcessRuns.SafeAtBoot | src/kernel.cpp:251-304 | the state after kernel_main is safe |
| ProcessRuns.TickKeepsSafe | src/scheduler/scheduler.cpp:37-82 | a tick keeps: pids unique, pid 1 only in slot 0, only the current process running, nobody blocked with mail |
| ProcessRuns.WaitKeepsSafe | src/syscalls/syscall.cpp:82-113 | reaping by swap-remove keeps the same, although it does not adjust the current index |
| ProcessRuns.CallKeepsSafe | src/syscalls/syscall.cpp:71-144 | every system call keeps the same, whoever calls it |
| ProcessRuns.SafeForEver | src/scheduler/scheduler.cpp:37-82 | so does every run of interrupts, calls, creations, kills by the shell and discarded processes |
| ProcessRuns.ShellStaysIff | src/process/process.cpp:234-263 | a step takes pid 1 out of slot 0 exactly when the shell, dead but still executing, reaps itself |
| ProcessRuns.ShellStaysFromBoot | src/process/process.cpp:234-263 | from boot, in every run with running callers, slot 0 holds pid 1 |
| ProcessRuns.SelfReapExample | src/syscalls/syscall.cpp:82-113 | the shell alone exits and then waits for itself: the table is empty while its code goes on |
| ProcessRuns.StepKeepsContexts | src/scheduler/scheduler.cpp:50-81 | a careful step saves the interrupted context and returns on the context of the process it picks |
| ProcessRuns.NoLostContext | src/scheduler/scheduler.cpp:37-82 | in every careful run every interrupt returns exactly where the process that runs next was last interrupted, or on its initial frame |
| ProcessRuns.BootIsConsistent | src/process/process.cpp:306-327 | the run from boot starts with right books |
| ProcessRuns.RunningIsCareful | src/syscalls/syscall.cpp:71-144 | a caller that is RUNNING is always careful |
| ProcessRuns.KeptIffCareful | src/scheduler/scheduler.cpp:50-71 | a system call keeps all contexts right exactly when it is neither a send to itself by a blocked process nor a dead shell reaping itself; the latter also if something is runnable and the process that moves into slot 0 is not blocked |
| ProcessRuns.SelfSendLoses | src/ipc/ipc.cpp:43-44 | a blocked process that sends to itself loses the context of that call, whatever else is runnable; if it runs next it is resumed at an older stack pointer |
| ProcessRuns.SelfSendExample | src/ipc/ipc.cpp:43-44 | the shell alone receives, blocks, goes on, sends to itself, and is back at the receive |
| ProcessRuns.SelfReapLoses | src/process/process.cpp:253-260 | when nothing is runnable and a dead shell reaps itself, it keeps the CPU while the current index is on another process, the one that was last, or on none |
| ProcessRuns.SelfReapOverwrites | src/scheduler/scheduler.cpp:50-61 | if something is runnable but the last process is blocked, the tick puts the stack pointer of the shell in place of its own |
| ProcessRuns.SelfReapKeeps | src/scheduler/scheduler.cpp:50-81 | otherwise the tick finds the books in order |
| ProcessRuns.FirstInFirstOut | src/ipc/ipc.cpp:13-80 | in every run, for every process, what it received is the beginning of what was waiting followed by what was sent, in order, with sender and data; while it is in the table the rest is what still waits |
| ProcessRuns.GoneForEver | src/process/process.cpp:234-263 | a pid that has left the table never comes back |
| ProcessRuns.ReapIsFinal | src/syscalls/syscall.cpp:100-108 | a successful wait returns the pid of a dead process, which is then gone |
| ProcessRuns.KilledIsDead | src/syscalls/syscall.cpp:71-131 | after exit, and after a kill of a pid that is in the table, the process is dead when the interrupt returns |
| ProcessRuns.TheDeadNeverRun | src/scheduler/scheduler.cpp:19-82 | in every careful run a process that is dead or gone and does not have the CPU never gets it again |
| ProcessRuns.DeadHasCpuIff | src/scheduler/scheduler.cpp:64-71 | after an interrupt a process that is dead when the tick begins has the CPU exactly when it had it before and nothing is then runnable |
| ProcessRuns.DeadHasCpuExample | src/scheduler/scheduler.cpp:64-71 | the shell alone exits: it is dead and the interrupt returns to it |
| ProcessRuns.ReapedOnce | src/syscalls/syscall.cpp:82-113 | in every run no pid is reaped twice |
| ProcessRuns.NextComesCloser | src/scheduler/scheduler.cpp:25-31 | the search picks a waiting process or moves strictly nearer to it |
| ProcessRuns.BoundedWaiting | src/scheduler/scheduler.cpp:19-82 | a ready process that nobody kills gets the CPU within as many interrupts as its cyclic distance, whatever the others do and whatever the shell does to them between the interrupts, while the table keeps its shape |
| ProcessCalls.KillAnswers | src/syscalls/syscall.cpp:115-131 | a kill returns 0 exactly if some process has the pid, and -1 otherwise; that process is dead then and every other entry as it was; without one nothing changes; the same of the kill command of the shell |
| ProcessCalls.ExitAnswers | src/syscalls/syscall.cpp:71-80 | the caller is dead, with its exit code, and nothing else changes |
| ProcessCalls.RemovesOne | src/process/process.cpp:253-260 | swap-remove loses exactly that entry and moves none but the last |
| ProcessCalls.WaitAnswers | src/syscalls/syscall.cpp:82-113 | a wait fails, changing nothing, exactly when the caller has no dead child of the kind asked for; otherwise it returns the pid of the first one in the table, and exactly that process leaves the table |
| ProcessCalls.DiscardAnswers | src/shell/shell.cpp:665-670 | exactly the process with the pid leaves the table, whatever its state |
| ProcessCalls.SendAnswers | src/ipc/ipc.cpp:13-50 | a send succeeds exactly for 1 to 64 bytes to a living process whose queue has room; then the message is last in that queue, signed by the caller, a sleeping receiver is ready, and nothing else changes; a send that fails changes nothing |
| ProcessModel.Cut | src/ipc/ipc.cpp:69-74 | what fits the buffer: a beginning of the message, all of it or as much as the buffer holds |
| ProcessCalls.ReceiveAnswers | src/ipc/ipc.cpp:52-80 | a receive fails exactly without a caller, a buffer, room in it or a queue; on an empty queue it returns 0 and the caller sleeps; otherwise it takes the oldest message and returns the lesser of its size and the buffer |
| ProcessCalls.DeliveredIsTaken | src/ipc/ipc.cpp:68-79 | in every run each receive delivers a beginning of the message it takes, and all of it into a buffer of 64 bytes |
| ProcessCalls.ReceivedIsSent | src/ipc/ipc.cpp:13-80 | from end to end, in every run with receive buffers of 64 bytes: the byte strings a process receives are, in order and unchanged, what was waiting and then what was sent to it; while it is in the table the rest still waits |
| ProcessCalls.CreatedIsReady | src/process/process.cpp:121-232 | a created process is ready, with the next pid, its initial frame, no saved stack pointer, parent 1 and no mail, in the slot behind the others, which stay as they were |
| ProcessCalls.BootIsReady | src/kernel.cpp:251-304 | after boot the shell runs in slot 0 with pid 1, and the processes behind it are ready with the pids that follow |
| ProcessTurns.TickComesCloser | src/scheduler/scheduler.cpp:37-82 | a tick gives the CPU to a waiting process, or leaves it waiting strictly nearer to its turn |
| ProcessTurns.RemovalWaits | src/process/process.cpp:253-260 | when the shell reaps or discards another process, a waiting one that is moved by swap-remove is not further from its turn |
| ProcessTurns.NobodyStarves | src/scheduler/scheduler.cpp:19-82 | a ready process gets the CPU within sixteen interrupts, whatever the others call and whatever is created, reaped, killed or discarded meanwhile, unless it is itself killed or discarded or a dead shell reaps itself |
| ProcessTurns.CreatedRuns | src/process/process.cpp:121-232 | so does every created process |
| ProcessTurns.BootTasksRun | src/kernel.cpp:272-304 | after boot the process in slot k gets the CPU within k interrupts |
| ProcessTurns.WokenRuns | src/ipc/ipc.cpp:43-44 | a sleeping process to which a message is sent has the CPU after that call or within sixteen more interrupts |
| Processes.WindowPush | src/ipc/ipc.cpp:34-41 | filling the slot at tail appends to the messages seen from head |
| Processes.WindowPop | src/ipc/ipc.cpp:76-77 | moving head on drops the oldest message |
| Processes.MessageQueue.constructor | src/ipc/ipc.cpp:6-11 | a new queue is empty |
| Processes.MessageQueue.Push | src/ipc/ipc.cpp:34-41 | the ring gains the message at its end, cut to the given size |
| Processes.MessageQueue.Pop | src/ipc/ipc.cpp:68-77 | the ring loses its oldest message; what is returned is a beginning of its data, the lesser of its size and the buffer, and its sender |
| Processes.ProcessTable.FindNext | src/scheduler/scheduler.cpp:19-34 | the loop finds what the round-robin order says |
| Processes.ProcessTable.Tick | src/scheduler/scheduler.cpp:37-82 | refines the tick: table, current index and returned stack pointer |
| Processes.ProcessTable.Send | src/ipc/ipc.cpp:13-50 | refines the send: all error cases, the enqueued message, the wake-up |
| Processes.ProcessTable.Recv | src/ipc/ipc.cpp:52-80 | refines the receive: all error cases, blocking, and the bytes delivered, whose number is the result |
| Processes.ProcessTable.Exit | src/syscalls/syscall.cpp:71-80 | refines exit |
| Processes.ProcessTable.Kill | src/syscalls/syscall.cpp:115-131 | refines kill; the result is 0 exactly if some process has the pid, and -1 otherwise |
| Processes.ProcessTable.Wait | src/syscalls/syscall.cpp:82-113 | refines wait: the first dead child asked for is reaped and its pid returned |
| Processes.ProcessTable.Destroy | src/process/process.cpp:234-263 | the loop finds the process, dead or not, and the last one takes its place |
| Processes.ProcessTable.DiscardProcess | src/shell/shell.cpp:665-670 | refines destroying a process that no program could be loaded into |
| Processes.ProcessTable.Register | src/process/process.cpp:29-35 | the process takes the next slot |
| Processes.ProcessTable.Create | src/process/process.cpp:190-232 | refines creation: the new entry is ready, with the next pid, its initial frame, no saved stack pointer and no mail |
| Processes.ProcessTable.Enter | src/process/process.cpp:306-323 | the first process runs and is current |
| Processes.ProcessTable.Dispatch | src/syscalls/syscall.cpp:19-148 | the five calls are routed as the model says |
| Processes.ProcessTable.Perform | src/interrupts/syscall_stub.s:6-28 | a whole step refines the model and keeps the table safe, so the run theorems hold of the objects |
| Processes.ProcessTable.Start | src/kernel.cpp:251-304 | kernel_main reaches the boot state of the model |
| KernelStacks.TryStack | src/process/process.cpp:37-61 | one attempt refines its specification on the set of frames |
| KernelStacks.AttemptIsExact | src/process/process.cpp:37-61 | an attempt succeeds exactly when the two lowest free frames are neighbours and takes those two; otherwise the frames are as before |
| KernelStacks.RepeatsForEver | src/process/process.cpp:49-54 | an attempt that has to be repeated is repeated for ever |
| HeapModel.Covered | src/memory/kmalloc.cpp:64-291 | tiling means coverage: every address of a region lies in a block of that region |
| HeapModel.NeededIsEnough | src/memory/kmalloc.cpp:182-190 | the rounded block size is large enough exactly for requests up to 0xFFFFFFE8; above, the 32-bit arithmetic wraps; it is the smallest block or at most 27 bytes more than the request |
| HeapModel.SplitKeepsTiling | src/memory/kmalloc.cpp:200-223 | cutting a free block in two keeps the tiling |
| HeapModel.CarveUses | src/memory/kmalloc.cpp:196-235 | serving a request puts exactly one more block into use and changes no block in use; the block is at least as large as needed, by less than a smallest block |
| HeapModel.GrowKeepsShape | src/memory/kmalloc.cpp:116-178 | growth by one large region or by single pages keeps tiling, list and regions, and no block in use changes |
| HeapModel.MallocKeepsShape | src/memory/kmalloc.cpp:180-291 | kmalloc keeps the shape; it fails without touching blocks in use, or it puts one aligned block into use, large enough and less than 64 bytes larger than the request |
| HeapModel.MallocIsComplete | src/memory/kmalloc.cpp:192-290 | kmalloc hands out the first block of the list that fits, of the list after growing if none fits before, and fails exactly when none fits even then; the free bytes shrink by exactly the block it returns |
| HeapModel.GrowBytes | src/memory/kmalloc.cpp:116-178 | with n the number of free frames in a row from the lowest free one: growing adds 64 KB if n is sixteen; otherwise exactly these n frames are held for ever in no region, and of the frames left sixteen, or all, become free bytes |
| HeapModel.GrowIs | src/memory/kmalloc.cpp:116-178 | which frames growing takes and which become a region, read off the frames |
| HeapModel.LostPagesAreInNoRegion | src/memory/kmalloc.cpp:124-166 | the frames of a row that is too short are part of no region |
| FreeRuns.ScatteredGrowth | src/memory/kmalloc.cpp:116-178 | a run from boot after which the heap grows over one free frame with a held one behind: seventeen frames are taken, sixteen pages become free, and that frame is lost |
| HeapModel.MergeKeepsTiling | src/memory/kmalloc.cpp:322-357 | merging adjoining blocks of a region keeps the tiling |
| HeapModel.BothIsRight | src/memory/kmalloc.cpp:322-335 | freed between two free blocks: tiling, list and free bytes are right |
| HeapModel.NextIsRight | src/memory/kmalloc.cpp:346-357 | the same for a free block behind |
| HeapModel.PlainIsRight | src/memory/kmalloc.cpp:358-365 | the same without free neighbours |
| HeapModel.PrevLosesBlock | src/memory/kmalloc.cpp:336-345 | merged with the previous block only, the whole block leaves the list and its bytes are lost |
| FreeRuns.AloneIsLost | src/memory/kmalloc.cpp:336-345 | after boot 4072 bytes fill the first page; freed with a zero word before the page, the block is merged with itself only, gets the size of two pages, and the list stays empty |
| FreeRuns.HalvesRun | src/memory/kmalloc.cpp:116-366 | a legal run from boot with other frame traffic that ends with the first half of a region free, the second in use and the end pointer below both |
| FreeRuns.HalvesAreLost | src/memory/kmalloc.cpp:336-345 | freeing the second half then loses both |
| HeapModel.FreeIsRight | src/memory/kmalloc.cpp:293-366 | if every accepted neighbour is a free block of the region, kfree keeps tiling and list; unless it is the previous-only case the free bytes grow by exactly the block and no other block in use changes |
| HeapModel.HeapIsSafe | src/memory/kmalloc.cpp:180-366 | over every run of kmalloc, of such kfree calls, and of frames taken and given back by other code, blocks tile the regions, the list holds exactly the blocks that are no live allocation's, without repetition, and the live allocations are aligned, large enough and pairwise disjoint |
| HeapMemory.UnlinkIsLinked | src/memory/kmalloc.cpp:64-74 | after list_remove the links run through the shorter list in both directions |
| HeapMemory.AppendIsLinked | src/memory/kmalloc.cpp:76-94 | after list_append the links run through the longer list |
| HeapMemory.SplitIsWell | src/memory/kmalloc.cpp:202-229 | after the writes of a split headers, footers and links describe the split heap |
| HeapMemory.PayloadKeeps | src/memory/kmalloc.cpp:231-232 | whatever is written into the payload of a block in use, headers, footers and links stay right |
| HeapMemory.TestsAcceptEveryNeighbour | src/memory/kmalloc.cpp:306-320 | inside a region kfree's tests accept every neighbour in their window, in use or not; there they are right exactly when that neighbour is free |
| RawFree.UnhookIs | src/memory/kmalloc.cpp:64-74 | the words that list_remove writes, following whatever links are there, describe the list without the block if it was in the list |
| RawFree.HookedIs | src/memory/kmalloc.cpp:76-94 | the same for list_append: its walk ends with the last block, and no other outcome is possible |
| RawFree.FreeDescribes | src/memory/kmalloc.cpp:293-366 | the words that kfree writes are determined, and if its tests are right they describe the heap with the block freed; words of other blocks in use do not change |
| FreeRight.PrevIsFree | src/memory/kmalloc.cpp:306-345 | if the result is right, a block that the first test accepts is the free block before, and never the block itself |
| FreeRight.NextIsFree | src/memory/kmalloc.cpp:314-357 | if the result is right, a block that the second test accepts is the free block behind |
| FreeRight.NotPrevOnly | src/memory/kmalloc.cpp:336-345 | a merge with the previous block only is never right |
| FreeRight.IfSidesRight | src/memory/kmalloc.cpp:293-366 | kfree is right whenever both sides are |
| FreeRight.RightExactlyIf | src/memory/kmalloc.cpp:293-366 | kfree is right exactly when on each side the block is outside the window of the test, or at the border of its region with a word that the test rejects, or beside a free block of the region, and it does not merge with the previous block only |
| FreeRight.HighForEver | src/memory/kmalloc.cpp:96-178 | in every run that starts, like boot, with the first seventeen frames held, no region is longer than 64 KB and none begins in the first 64 KB |
| FreeRuns.HighFromBoot | src/kernel.cpp:106-112 | boot, where kmalloc_init gets the frame behind the page tables, is such a start |
| FreeExamples.SecondRequest | src/memory/kmalloc.cpp:180-291 | after boot and two requests for 8 bytes the first page holds two blocks in use and a free one |
| FreeExamples.FirstOfTwoIsWrong | src/memory/kmalloc.cpp:293-366 | then freeing the first one is never right: the second is swallowed |
| FreeExamples.OnlyOneIsRightIff | src/memory/kmalloc.cpp:293-366 | after one request, freeing it is right exactly if the word before the page is rejected; if that word is zero the block is merged with itself |
| FreeExamples.WrongMergeIsHarmless | src/memory/kmalloc.cpp:346-357 | with a counterfeit header or one particular old link a wrong merge comes out right |
| KernelHeap.KernelHeap.ListRemove | src/memory/kmalloc.cpp:64-74 | memory and head pointer follow the list without the block |
| KernelHeap.KernelHeap.UnhookWords | src/memory/kmalloc.cpp:64-74 | writes what list_remove writes, whatever the links are |
| KernelHeap.KernelHeap.HookWords | src/memory/kmalloc.cpp:76-94 | writes what list_append writes, whatever the links are, if its walk ends |
| KernelHeap.KernelHeap.ListAppend | src/memory/kmalloc.cpp:76-94 | memory and head pointer follow the list with the block at its end |
| KernelHeap.KernelHeap.SplitBlock | src/memory/kmalloc.cpp:200-229 | memory follows the split; no word of a block in use changes |
| KernelHeap.KernelHeap.ZeroPayload | src/memory/kmalloc.cpp:231-232 | the payload and nothing else is cleared |
| KernelHeap.KernelHeap.FindFit | src/memory/kmalloc.cpp:192-238 | the loop finds the first fit |
| KernelHeap.KernelHeap.Serve | src/memory/kmalloc.cpp:242-290 | the first fit is taken, split or whole, and its payload cleared |
| KernelHeap.KernelHeap.TakeContiguous | src/memory/kmalloc.cpp:124-142 | refines the attempt to take sixteen pages in a row |
| KernelHeap.KernelHeap.AddBlock | src/memory/kmalloc.cpp:168-177 | a new region becomes one free block at the end of the list |
| KernelHeap.KernelHeap.AddPages | src/memory/kmalloc.cpp:144-166 | refines growth by single pages |
| KernelHeap.KernelHeap.Grow | src/memory/kmalloc.cpp:116-178 | refines growth on both paths; no word of a block in use changes |
| KernelHeap.KernelHeap.Malloc | src/memory/kmalloc.cpp:180-291 | refines kmalloc; the returned payload is all zero and no word of a block in use has changed |
| KernelHeap.KernelHeap.MergeBoth | src/memory/kmalloc.cpp:322-335 | writes what the merge with both found blocks writes, whatever they are |
| KernelHeap.KernelHeap.MergePrev | src/memory/kmalloc.cpp:336-345 | the same for the previous block only |
| KernelHeap.KernelHeap.MergeNext | src/memory/kmalloc.cpp:346-357 | the same for the next block only |
| KernelHeap.KernelHeap.FreeBlock | src/memory/kmalloc.cpp:306-366 | for anything with a header, in use or not, right or wrong, the writes of kfree; if it is a block in use and the tests are right the heap is the one with the block freed, and words of other blocks in use do not change |
| KernelHeap.KernelHeap.Free | src/memory/kmalloc.cpp:293-366 | null and a header without the magic number change nothing; otherwise as above, also for a second free |
| KernelHeap.KernelHeap.Init | src/memory/kmalloc.cpp:96-114 | panics exactly without a page; otherwise the heap is one free page |
| KernelHeap.KernelHeap.Store | src/memory/kmalloc.cpp:231-234 | owners may write their payloads without harm to the heap |
| Checksum.FoldIsNorm | src/net/ip.cpp:26-27 | folding carries yields the one's complement representative of the sum |
| Checksum.SameAsReference | src/net/ip.cpp:15-30 | the deferred-carry sum of little-endian words is the byte-swapped end-around-carry sum of big-endian words, for any bytes (sections 1 and 2 of RFC 1071) |
| Checksum.FilledInVerifies | src/net/icmp.cpp:55-57 | putting the complement where there was zero makes any packet of any length verify |
| Checksum.ChangeIsDetected | src/net/net.cpp:7-22 | after one word of a verified packet changes it still verifies exactly when the words are equal modulo 0xFFFF and the packet is not all zero |
| Checksum.VerifiesByReference | src/net/net.cpp:7-22 | the receiver's test is the test of the standard |
| Checksum.AddWords | src/net/ip.cpp:17-24 | the loop adds the words in 32 bits, with the odd last byte |
| Checksum.FoldCarries | src/net/ip.cpp:26-27 | the loop folds |
| Checksum.NetChecksum | src/net/ip.cpp:15-30 | the complement of the folded sum |
| Checksum.ChecksumOk | src/net/net.cpp:7-22 | true exactly when the header verifies |
| Checksum.BuildHeader | src/net/ip.cpp:74-92 | the header has the fields of section 3.1 of RFC 791 in network order, passes the receiver's check, and the rest of the buffer is untouched |
| Checksum.EchoReply | src/net/icmp.cpp:48-57 | a request becomes a reply that verifies exactly if it contains its checksum, for even and odd lengths, or contains the first byte of it behind a code of 255; all but type and checksum is as it was |
| Terminal.Terminal.PutChar | src/terminal.cpp:89-116 | the screen stays the 25-row window of the page to which the character was written, with the cursor on it |
| Terminal.Terminal.Scroll | src/terminal.cpp:62-76 | every row moves up by one and the last is blank |
| Terminal.Terminal.Clear | src/terminal.cpp:50-60 | the screen shows the empty page |
| Terminal.Terminal.Write | src/terminal.cpp:118-123 | a string is written character by character up to its zero |
| Terminal.WindowIsClean | src/terminal.cpp:89-116 | the cursor is always on the screen and everything below its row is blank |
| Terminal.RowsAboveAreFinal | src/terminal.cpp:89-116 | rows above the cursor never change again, whatever is written |
| Terminal.EntryHolds | src/terminal.cpp:34-37 | a cell holds its character, in light grey on black unless the character is negative |
| Terminal.TextIsLaidOut | src/terminal.cpp:101-109 | text without control characters is laid out cell after cell from the cursor on, over the ends of rows, and changes no other cell |
| Terminal.NewlineStarts | src/terminal.cpp:93-96 | a line feed goes to the beginning of a new, blank row |
| Terminal.BackspaceErases | src/terminal.cpp:97-100 | a backspace takes back a character of the same row; in the first column it blanks the cell and stays |
| FatDirectory.ReadCluster | src/fs/fat32.cpp:128-148 | the buffer holds the sectors of the cluster, or the read failed exactly when one sector cannot be read |
| FatDirectory.FirstSectorIs | src/fs/fat32.cpp:128-132 | cluster c begins (c - 2) clusters behind the start of the data area, in 32-bit arithmetic, for every c |
| FatDirectory.ClustersTile | src/fs/fat32.cpp:128-132 | below the wrap cluster 2 begins the data area and each cluster begins where the one before ends |
| FatDirectory.ClustersApart | src/fs/fat32.cpp:128-132 | different clusters share no sector |
| FatDirectory.ClusterIs | src/fs/fat32.cpp:104-148 | a cluster can be read exactly if all its sectors can, and byte 512 i + j of it is byte j of sector data_start + (c - 2) * sectors_per_cluster + i of the partition |
| FatDirectory.NextClusterIs | src/fs/fat32.cpp:109-126 | the next cluster is the c-th little-endian 32-bit number of the table without its top four bits, and the end mark if that cannot be read |
| FatDirectory.NumberIs | src/fs/fat32.cpp:56-72 | the numbers of an entry are little-endian |
| FatDirectory.EntryIs | src/fs/fat32.cpp:56-72 | first cluster from bytes 26, 27, 20 and 21, size from 28 to 31, kind from bit 4 of byte 11 |
| FatDirectory.NameReadsBack | src/fs/fat32.cpp:246-271 | a name and an extension filled up with spaces are read back with a dot between them, without one for a directory or an empty extension |
| FatDirectory.LiveIs | src/fs/fat32.cpp:232-244 | the live entries of a cluster are, in order, those neither deleted nor part of a long name, before the first zero name |
| FatDirectory.ListingIs | src/fs/fat32.cpp:227-306 | clusters are listed one after the other, up to the first that cannot be read |
| FatDirectory.BuildName | src/fs/fat32.cpp:246-271 | the loops build the 8.3 name |
| FatDirectory.ScanForName | src/fs/fat32.cpp:232-300 | finds the first live entry of the name in a cluster |
| FatDirectory.ScanForIndex | src/fs/fat32.cpp:325-383 | finds the entry of the given number, or counts on |
| FatDirectory.FindDir | src/fs/fat32.cpp:216-306 | over any finite chain, finds the first entry of that name in the listing, with its first cluster |
| FatDirectory.ReadDir | src/fs/fat32.cpp:308-389 | over any finite chain, yields name, kind, size and offset of the entry of that index in the listing |
| FatDirectory.LookupIsEnumeration | src/fs/fat32.cpp:216-389 | in every directory lookup succeeds exactly when some index of the enumeration yields the name, and returns what the least such index yields; in a file, or without memory for the node, there is nothing |
| FatDirectory.ListsBehindTheMark | src/fs/fat32.cpp:237-238 | a zero name ends only its cluster: the listing is the specified one followed by the entries behind the mark, and equals it exactly when there are none |
| FatDirectory.BehindTheMarkExample | src/fs/fat32.cpp:237-238 | an empty first cluster and an entry in the second: specified as empty, but the entry is found and listed |
| RamFs.CreatedKeepsTree | src/fs/ramfs.cpp:185-186 | linking a new first child keeps every list of children complete and ordered from young to old |
| RamFs.RamFs.constructor | src/fs/ramfs.cpp:134-157 | the root is its own parent and has no children |
| RamFs.RamFs.Create | src/fs/ramfs.cpp:159-221 | succeeds exactly for a directory with room in the pool and memory; the tree gains one first child with this name and kind, and the other nodes keep theirs |
| RamFs.RamFs.FindDir | src/fs/ramfs.cpp:115-132 | walking the siblings finds the youngest child of that name |
| RamFs.CreatedIsFound | src/fs/ramfs.cpp:115-221 | a new node is found under its name and changes no other lookup |
| Paths.ComponentsAppend | src/fs/vfs.cpp:148-162 | the components of p/q are those of p followed by those of q, for all p and q |
| Paths.WalkComposes | src/fs/vfs.cpp:148-184 | walking p/q is walking p and from there q |
| Paths.Walk | src/fs/vfs.cpp:146-184 | the loop is a fold over the components |
| Paths.DotsUndo | src/fs/vfs.cpp:164-173 | "." stays, ".." undoes a step down and stays at the root |
| Paths.FindMount | src/fs/vfs.cpp:55-86 | the longest matching mount, the first of equal ones |
| Paths.Resolve | src/fs/vfs.cpp:88-136 | absolute paths are walked from the root of the best mount, or fail |
| Paths.ResolveRelative | src/fs/vfs.cpp:138-185 | other paths are walked from the base |
| Paths.PwdRoundTrip | src/shell/shell.cpp:865-893 | for depth up to 64 and ordinary names, the components that pwd prints lead from the root back to the directory exactly when no node on the way is hidden by a younger namesake |
| Paths.UniqueIsVisible | src/fs/ramfs.cpp:115-132 | with different names among siblings nothing is hidden |
| Paths.Pwd | src/shell/shell.cpp:859-893 | the two loops print that path, for paths that fit the buffer |
| Paths.RootMountMatches | src/fs/vfs.cpp:73-75 | the mount at "/" matches exactly "/" and paths that begin with "//" |
| Paths.PwdIsNotAbsolute | src/fs/vfs.cpp:73-75 | so with that mount alone no printed path but "/" can be resolved as an absolute one |

## Left out

- Devices, port I/O, interrupt stubs and descriptor tables: used only to justify which steps are atomic.
- TLB and CR3: a walk reads the tables as they are; switching spaces is a parameter.
- A timer interrupt between `sti` in kernel_main and `process_first_enter`, and the shell's direct calls of `ipc_send` and `ipc_recv` with interrupts enabled: steps are atomic here.
- The error paths of `process_create`, and its heap blocks: creation and destruction are modelled on the table, the queues, the address space and the frames.
- Wrap-around of the pid counter: creation stops before the counter wraps.
- The bytes of ELF headers: the header and the program headers are given decoded.
- ElfLoader.LoadInto: for segments that lie in the file, are not longer there than in memory and end below 4 GB, on pages outside supervisor slots; a map in a supervisor slot changes every space (AddressSpaces.VirtualMemory.MapPage).
- KernelHeap.KernelHeap.Free: the walk of list_append must end, and the addresses that kfree reads and writes must be multiples of four in memory; the sizes it adds are not wrapped at 4 GB.
- FreeRight.RightExactlyIf: one direction takes for granted that accepted headers and their links are those of blocks, as described above.
- RamFs.RamFs.Create: for names of at most 127 characters; the code copies longer ones past its buffer, and what that does is not modelled.
- Paths.Pwd: for paths of less than 256 characters; the code writes longer ones past its buffer.
- ProcessRuns.BoundedWaiting: for a table that keeps its shape; ProcessTurns.NobodyStarves has no such condition, and sixteen as its bound.
- fat32_mount, fat32_read and sector sizes other than 512: mounting only copies fields, and the read offset arithmetic does not implement file reads in general.
- RAMFS file contents and readdir, the keyboard ring, ARP, number printing, string and memory helpers: left out, they would only add easy members.
- Mounted file systems other than the RAM file system: path resolution is modelled over one tree.
- src/scheduler/task.cpp, user_enter_ring3, paging_map_identity: not on the live path.
- The shell's other commands, panic and fault handlers: user interface only.
