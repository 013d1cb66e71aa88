# DelOS kernel model

A Dafny model of four parts of the DelOS kernel, a 32-bit x86 hobby kernel written in C, with proofs of what they promise:

- the memory stack: the page bitmap, two-level page tables edited through the recursive slot, the kernel heap, and the builder of user address spaces;
- the file layer: path splitting and resolution, the tmpfs tree, open, rmdir, unlink, chdir, file bytes, descriptors, `pwd`, and the initrd format with its printer;
- number printing (`ksprintf`) against number parsing (`kstrtol`);
- the round-robin scheduler, interrupted at any point by its own timer.

`dafny verify dfyconfig.toml` checks everything; no file needs another tool.

## How it is laid out

Code that changes things in place is modelled by classes and methods whose contracts tie the new state to a function or predicate of the old one; what the kernel promises is then proved about those functions as lemmas, over all inputs and over whole runs. A panic, or a page fault (whose handler panics), is the result `Halted`.

| files | content |
|---|---|
| Base, PageBits, Pmm, PmmInit, PmmRuns | page bitmap, its start-up from the memory map, runs of allocations and frees |
| Paging, Vmm, BootSpace | translation through two levels, `kvmm_map_page` and its relatives |
| UserSpace, UserBuild, UserStack, UserProcess, UserMeaning, Directories | `kprocess_create_user`, what the new directory means, all directories over whole runs |
| HeapLayout, HeapMemory, Heap, HeapRuns, FileHeap | `kmalloc`, `kfree`, `krealloc` over the two layers below, the bytes of their blocks in physical memory, runs of calls and stores, and the file writes that grow through them |
| Numerals, Sprintf, Format, FormatMeaning, Strtol, RoundTrip | digits, `ksprintf` and what each directive prints, `kstrtol`, and their round trips |
| RoundRobin, Scheduler | the scheduler's decisions over runs; the linked list that implements them |
| Paths, TmpfsEntry, FileRuns | path tokens; entries and file bytes |
| FsTree, FsEdits, Tmpfs, Vfs, FsRuns | the linked tree, the map from paths to files it stands for, nodes and path operations, runs |
| Pwd, InitrdImage, InitrdRoundTrip, Initrd, Descriptors | `pwd`, the boot image, descriptor tables |

Three specification layers carry the file system: the heap of `Entry` objects, the value `Fs` that lists their fields with the child lists and paths they spell out, and the map `Abstract` from paths to directories or bytes. The tree invariant (`WellFormed`) says that the links of every entry spell out a finite list without repetition, that each entry but the root is on its parent's list, one name further from the root, and that a directory has two links plus one for each child; `Unique` says that no two entries have one path.

## Where the code does less than it promises

Each of these is proved with its exact condition, and the model keeps the code as it is.

- `kvmm_map_page` zeroes a new page table at PHYS_TO_VIRT of its frame, which at boot reaches only frames below 4 MiB (`BootSpace.ReachableAtBoot`). Above that it wipes whatever is seen there: another frame (`Vmm.HeapWipedByTable`), a table of the kernel (`Vmm.KernelTableWiped`) or the directory (`Vmm.DirectoryWiped`). `Vmm.MapsCleanlyIff` says exactly which calls are clean. The predicate `TableVisible` (for process creation `WindowReady`) is therefore part of the scope of the claims about mappings that need a new table; mappings inside an existing table need nothing of the kind.
- `kmalloc` rounds and adds in 32 bits. The block is as long as asked exactly up to 4 GiB - 16 (`HeapLayout.BlockIsLongEnough`; the failing sizes get one page, `HeapLayout.LargestRequestGetsOnePage`, or any free block, `Heap.WrappedSizeTakesAnyBlock`). The limit test lets a request through that does not fit exactly when its own sum wraps (`HeapLayout.OverreachIff`, `HeapLayout.LimitTestPassed`); such a request is never served, but loses the frames of its block (`Heap.KernelHeap.Malloc`, clauses on `Wrecks`).
- `krealloc` copies as many bytes as the new size asks for, so it can read behind the old block. It faults exactly when a free block is reused and those bytes reach past the break, or the size is above 4 GiB - 16 and a block is had (`Heap.KernelHeap.Realloc`, `Heap.ReuseFaults`), and so does the file write that asked for it (`FileHeap.WriteFile`); what it read there never becomes visible in a file (`TmpfsEntry.Entry.Write`). When it has no block to give it still frees the old one, to which the file keeps pointing (`FileHeap.WriteAmong`).
- The address of an allocation is cut to 32 bits, while the bitmap can describe more than 4 GiB. It names the pages taken exactly when the run ends by 4 GiB (`Pmm.AddressNamesIff`); pages above are lost, or answered as pages of the kernel (`Pmm.AddressesWrap`). Over all runs the answers are right exactly when no page at or above 4 GiB is free at boot (`PmmRuns.AlwaysRightIff`), and that is a hypothesis of what is said of runs.
- A page that lies in two regions of the memory map is counted twice: up to 4 GiB the free count is right exactly when there is none (`PmmInit.StartsInStepIff`, `PmmInit.OverlapCountsTwice`).
- `kpmm_free_pages` of pages that are already free makes the free count too large (`Pmm.FreedRun`).
- The system-call page of a new process loses its user bit when the entry point lies in its directory slot and the stub does not (`UserMeaning.MarksInGeneral`).
- `kstrtol` differs from `strtol` of ISO C (section 7.22.1.4, with a 64-bit long) on exactly three kinds of text behind blanks and sign: in base 0 it refuses a lone zero, in every base it refuses the least value, and in base 16 it reads only the 0 of a prefixed number (`Strtol.MeetsStandardIff`, `Strtol.ZeroIsRefused`, `Strtol.LeastIsRefused`). Values that do not fit are errors in both, but the answer beside the error is 0, where ISO C gives the greatest or the least value.
- The least 64-bit value is therefore printed but not read back (`RoundTrip.PrintThenParse`), and blank-padded `%lx` output is not read back (`RoundTrip.PrintHexThenParse`).
- In bases 2 and 3 `kuitoa64` overruns its scratch for numbers of more than 32 digits (`Sprintf.Kuitoa64`, `Sprintf.OverrunsIff`); its callers use 10 and 16.
- `ksprintf` reads on behind a format that ends inside a directive (`Format.Ksprintf`, clause on `CutOff`).
- The count that `ksprintf` returns exceeds the length of the C string when a `%c` argument is zero (`Format.CountIsTheLength`).
- A failing relative open of a single name releases the node of a working directory other than the root (`Vfs.Vfs.Open`, clauses on `ReleasesCwd`). A successful `rmdir` or `unlink` leaves the other nodes on the entry dangling (`Vfs.Vfs.Rmdir`, `Vfs.Vfs.Unlink`: all nodes are in order exactly if there are none). A refused `rmdir` or `unlink` of an entry that exists keeps its node, and so does an open into a full descriptor table (`Vfs.Vfs.Rmdir`, `Descriptors.Table.Open`).
- An O_CREAT open of "/" makes an unreachable entry named "/" (`FsRuns.RootOpenMakesAnUnreachableName`).
- A path of more than 16 tokens is cut off, a component over 254 bytes becomes several (`Paths.SplitIsClean`), so what `pwd` prints more than 15 levels down resolves elsewhere (`Pwd.PwdRoundTrip`). `Paths.WithinLimitsIff` says when the tokens are the components.
- `pwd` overruns its buffer exactly when the path has 4080 bytes or more (`Pwd.Pwd`, `Pwd.SixteenLongNames`).
- `mkinitrd` cuts names to 63 bytes and the unpacking cuts paths to 15 names, so an entry can land elsewhere; it lands where its name says exactly when it fits (`InitrdRoundTrip.PlacedIff`, `InitrdRoundTrip.LongNameIsCut`).
- The unpacking of an initrd entry that asks for a directory where a file lies succeeds and leaves the file (`InitrdRoundTrip.EntryDecided`).
- Adding an entry to the scheduler's list that is on it already breaks the cycle unless it is the only one (`Scheduler.TaskList.AddAgain`).
- A timer tick before `kscheduler_start` finds no current entry and panics, also when it lands inside the append of the first entry (`Scheduler.TaskList.AddTask`, `Scheduler.TaskList.Init`).

## Model

| member | source | states |
|---|---|---|
| Pmm.PageAllocator.GetNContinuous | src/kernel/memory/pmm/pmm_bitmap.c:53-80 | the smallest start of that many consecutive clear bits, across byte boundaries; a panic exactly when there is no such run |
| Pmm.PageAllocator.ScanByte | src/kernel/memory/pmm/pmm_bitmap.c:64-76 | eight more bits: either the leftmost run ends among them, or no run has ended yet and the count of the open one is right |
| Pmm.SearchStep | src/kernel/memory/pmm/pmm_bitmap.c:65-75 | one more bit keeps the search sound: a run can only be completed by the one being counted, and then it is the leftmost |
| Pmm.PageAllocator.GetNext | src/kernel/memory/pmm/pmm_bitmap.c:28-45 | the lowest clear bit, so the same answer as a run of one; a panic exactly when every bit is set |
| Pmm.PageAllocator.SetValue | src/kernel/memory/pmm/pmm_bitmap.c:104-122 | exactly the named bit changes; a panic past the bitmap changes nothing |
| PageBits.BitsOfUpdate | src/kernel/memory/pmm/pmm_bitmap.c:106-116 | the or/and-not with a shifted one, seen on the whole bitmap as a sequence of bits, is an update of one bit |
| Pmm.PageAddr | src/kernel/memory/pmm/pmm_bitmap.c:90-93 | the address is below 4 GiB and, for every page below 2^20, its page number is given back by division |
| Pmm.PageAllocator.AllocPages | src/kernel/memory/pmm/pmm_alloc.c:18-32 | for every bitmap and every counter: takes the leftmost run of the length asked, lowers the 32-bit count by that length and answers the 32-bit address of the run; NULL when nothing is asked or the count is 0; a panic exactly when no run is long enough. In a bitmap up to 4 GiB with a count in step: NULL exactly when nothing is asked or nothing is free, and the address is the one of the run |
| Pmm.AddressNamesIff | src/kernel/memory/pmm/pmm_bitmap.c:90-93 | the 32-bit address of a run names the pages of the run exactly when the run ends by 4 GiB |
| Pmm.AddressesWrap | src/kernel/memory/pmm/pmm_alloc.c:26-31 | concrete failing cases: with only the page at 4 GiB free the answer is NULL and the page is lost; with only the page 1 MiB further up free the answer is the first page of the kernel |
| Pmm.PageAllocator.FreePages | src/kernel/memory/pmm/pmm_free.c:20-34 | clears exactly the run named; a run past the bitmap panics |
| Pmm.FreedRun | src/kernel/memory/pmm/pmm_free.c:29-32 | after a free the counter still equals the number of clear bits exactly when every page of the run was in use |
| PmmRuns.RunKeepsInv | src/kernel/memory/pmm/pmm_alloc.c:18-32 | when no page at or above 4 GiB is free at boot: over every run of allocations and frees of what was allocated live extents are disjoint and all used, and the counter equals the number of clear bits |
| PmmRuns.AllocKeepsInv | src/kernel/memory/pmm/pmm_alloc.c:26-31 | with that bound one allocation keeps that invariant, and the new extent is disjoint from every live one |
| PmmRuns.FreeKeepsInv | src/kernel/memory/pmm/pmm_free.c:28-33 | one free of a live extent keeps it |
| PmmRuns.AllocationsAreFresh | src/kernel/memory/pmm/pmm_alloc.c:26-31 | with that bound no allocation of any run hands out a page that is still live |
| PmmRuns.OnlyDescribedPagesAreHandedOut | src/kernel/memory/pmm/pmm_manager.c:70-98 | after boot, when no page at or above 4 GiB is free, in any run every page handed out lies wholly in a free region of the memory map, at or above 1 MiB and above the kernel image, its early heap and its stack |
| PmmRuns.AlwaysRightIff | src/kernel/memory/pmm/pmm_bitmap.c:90-93 | over all runs from boot every allocation that takes pages answers their address exactly when no page at or above 4 GiB is free at boot |
| PmmRuns.AnswerNamesRun | src/kernel/memory/pmm/pmm_alloc.c:18-32 | with that bound NULL means that nothing changed, and any other answer is the address of the run taken |
| PmmRuns.SmallMemoryIsLow | src/kernel/memory/pmm/pmm_manager.c:70-98 | the bound holds when the memory map ends by 4 GiB |
| PmmInit.Init | src/kernel/memory/pmm/pmm_manager.c:70-98 | after initialisation a bit is clear exactly when its page lies wholly inside some free region and above both bounds; bits past the page count stay set; the free count is, in 32 bits, the number of pages of all regions, which is the number of clear bits exactly when no page lies in two regions; a panic exactly when the map is empty or the early heap cannot hold the bitmap |
| PmmInit.StartsInStepIff | src/kernel/memory/pmm/pmm_manager.c:70-98 | up to 4 GiB and 4095 regions the allocator starts with a count in step exactly when no page lies in two regions |
| PmmInit.OverlapCountsTwice | src/kernel/memory/pmm/pmm_manager.c:55-60 | a concrete failing case: a region listed twice is counted twice |
| PmmInit.FreePagesFromE820 | src/kernel/memory/pmm/pmm_manager.c:36-62 | the loop over the memory map: after each region the bitmap describes exactly the regions seen so far |
| PmmInit.FreeRegion | src/kernel/memory/pmm/pmm_manager.c:37-60 | one region clears exactly the pages it covers wholly above the bound, and counts them |
| PmmInit.ClearPages | src/kernel/memory/pmm/pmm_manager.c:55-60 | the inner loop clears exactly a range of pages and counts each once |
| PmmInit.BoundsAreCoverage | src/kernel/memory/pmm/pmm_manager.c:43-54 | the rounded page bounds are exactly the pages the region covers |
| PmmInit.NeverFreeAtBoot | src/kernel/memory/pmm/pmm_manager.c:29-33 | no page below 1 MiB or below the end of the kernel is free at boot |
| Paging.RecursiveWindows | include/kernel/memory/vmm/vmm.h:14-40 | through the recursive slot the directory and every present table appear as ordinary pages |
| Paging.EntryWrite | src/kernel/memory/vmm/vmm_map.c:58-61 | writing one table entry changes the translation of that page alone and keeps the directory well formed |
| Paging.InstallTable | src/kernel/memory/vmm/vmm_map.c:41-52 | putting a zeroed free frame in an empty slot changes no translation |
| Paging.OutsideWrite | src/kernel/memory/vmm/vmm_map.c:47 | writing a frame that is neither the directory nor one of its tables changes no translation |
| Vmm.Machine.MapPage | src/kernel/memory/vmm/vmm_map.c:26-64 | answer, memory and page bitmap after the call, for every address and every memory whose directory maps itself: alignment, the new table and the frame that is zeroed for it (the directory itself included, which faults), the entry, and the refusal to overwrite a present entry |
| Vmm.Machine.InstallNewTable | src/kernel/memory/vmm/vmm_map.c:41-52 | one free page is taken, the frame that the kernel sees at PHYS_TO_VIRT of it is zeroed, and the directory entry points at it; a fault exactly when nothing is seen there, or the directory is |
| Vmm.Machine.FillEntry | src/kernel/memory/vmm/vmm_map.c:53-63 | the entry is written through the recursive window exactly when it was not present |
| Vmm.Machine.UnmapPage | src/kernel/memory/vmm/vmm_map.c:99-120 | succeeds exactly on a present entry, and zeroes it, for every address and every directory that maps itself |
| Vmm.UnmapWindow | src/kernel/memory/vmm/vmm_map.c:99-120 | unmapping a page of the recursive slot takes away exactly the pages of one table; unmapping the last page takes all windows |
| Vmm.Machine.MapRange | src/kernel/memory/vmm/vmm_map.c:77-90 | for every range, in any directory that maps itself: the pages are mapped in turn by kvmm_map_page up to the first that fails, which decides the answer. When the new tables are seen at PHYS_TO_VIRT (for instance when all free frames are): page i goes to the i-th frame, all were unmapped before, every other translation is kept, and on failure exactly the pages before the refused one were mapped. No page is taken when the tables exist. A range that covers the window of the directory never succeeds |
| Vmm.MapMeaning | src/kernel/memory/vmm/vmm_map.c:26-64 | in scope (present flag, below the recursive slot, new table reachable) a call succeeds exactly on aligned addresses and an unmapped page, and then changes the translation of that page only; in an existing table it sets frame and flags of one entry and keeps that entry's other bits |
| Vmm.UnmapMeaning | src/kernel/memory/vmm/vmm_map.c:99-120 | an unmap succeeds exactly on a mapped page and removes that translation only; no frame but that table changes |
| Vmm.UnmapUndoesMap | src/kernel/memory/vmm/vmm_map.c:26-120 | unmapping the page just mapped gives the old address space back, also when the mapping made a new table |
| Vmm.FilledNewTable | src/kernel/memory/vmm/vmm_map.c:41-63 | a mapping that needs a table leaves in it just the new entry |
| Vmm.MapsCleanlyIff | src/kernel/memory/vmm/vmm_map.c:26-64 | for every call below the recursive slot: it maps its page and disturbs nothing else exactly when the addresses are aligned, the page is free, and the table is there or its frame is seen at PHYS_TO_VIRT (or both the frame seen there and the entries of the table were empty before) |
| Vmm.MisplacedTable | src/kernel/memory/vmm/vmm_map.c:46-47 | the same for the frame the table gets, whatever PHYS_TO_VIRT of it shows: nothing, another frame, a table or the directory |
| Vmm.HeapWipedByTable | src/kernel/memory/vmm/vmm_map.c:46-47 | a concrete failing case: a table placed at 256 MiB wipes the first heap page |
| Vmm.KernelTableWiped | src/kernel/memory/vmm/vmm_map.c:46-47 | another: a table placed in frame 0x3FF00 unmaps the lowest 4 MiB of the kernel |
| Vmm.DirectoryWiped | src/kernel/memory/vmm/vmm_map.c:46-52 | another: a table placed in the last frame below 1 GiB wipes the directory, and the next store faults |
| Vmm.WindowStays | src/kernel/memory/vmm/vmm_map.c:53-63 | no call that returns changes the recursive slot, and the page of the directory is never mapped again |
| BootSpace.ReachableAtBoot | src/kernel/memory/vmm/vmm_map.c:46 | with the boot mapping, frames reachable at PHYS_TO_VIRT are exactly those below 4 MiB |
| Vmm.RangeStep | src/kernel/memory/vmm/vmm_map.c:84-88 | one more page of a range extends the mapped prefix by exactly one page |
| Vmm.RangeTouchesTables | src/kernel/memory/vmm/vmm_map.c:77-90 | a range that maps changes no frame but the directory and the tables of its own pages |
| UserSpace.Remap | src/kernel/scheduler/process/process_user.c:34-37 | the unmap and map pair points a window at a frame, writable and for the kernel alone, and changes no other translation |
| UserBuild.AllocPageDirectory | src/kernel/scheduler/process/process_user.c:26-43 | a zeroed directory in a page of its own, visible through the directory window, exactly when there are pages for it and, if need be, for the window table |
| UserBuild.CloneKernelHalf | src/kernel/scheduler/process/process_user.c:57-66 | the kernel half of the new directory equals the current one, and slot 1023 holds exactly a present, writable, kernel-only entry that points at the new directory itself |
| UserBuild.CopyTable | src/kernel/scheduler/process/process_user.c:94-103 | a private copy of the current table of a slot, seen through the table window, exactly when a page is free |
| UserBuild.MapStub | src/kernel/scheduler/process/process_user.c:82-112 | the slot of the stub gets a private copy in which exactly the stub page is marked user-accessible; it faults exactly when the slot has no table, and succeeds exactly when the page is mapped and a page is free |
| UserBuild.MapEntry | src/kernel/scheduler/process/process_user.c:129-169 | an address in the kernel half is marked in the copy of the stub slot, or in a fresh copy of its own slot; other slots keep their marks; fault and success decided as for the stub |
| UserStack.MapUserStack | src/kernel/scheduler/process/process_user.c:184-229 | the four stack pages are mapped in order, user and writable, over a run of frames of their own; NULL, panic and success exactly by the free pages: a run of four, and one page more |
| UserStack.FillStackEntry | src/kernel/scheduler/process/process_user.c:213-225 | one stack page more, and nothing else; it cannot fail |
| UserProcess.SetupInitialStack | src/kernel/scheduler/process/process_user.c:245-259 | the two seeded words at the top of the last stack page; it cannot fail |
| UserProcess.FinalizeContext | src/kernel/scheduler/process/process_user.c:271-281 | directory address, the user code selector, the user data selector in the four data segments, and the stack pointer of the new thread |
| UserProcess.CreateUser | src/kernel/scheduler/process/process_user.c:295-328 | on success the new directory is the complete image described by the rows below; on every exit the current space is the same outside the three windows, and without success process and thread are untouched. It succeeds exactly when stub, system call and entry are mapped and the free pages suffice, the run of four included, and halts exactly on a missing table or a missing run; a success takes exactly the pages counted below |
| UserProcess.KernelHalfDecided | src/kernel/scheduler/process/process_user.c:307-318 | the directory and the three looks in turn come out as their closed condition on the state before the call says |
| UserProcess.CreationDecided | src/kernel/scheduler/process/process_user.c:307-326 | the same with the stack behind them |
| UserMeaning.CreationCost | src/kernel/scheduler/process/process_user.c:295-328 | a successful creation lowers the number of free pages by the directory, the table copies, the window table if it was missing, and five for the stack: seven in all when the code lies in one slot and the windows have their table |
| UserSpace.TakenTwice | src/kernel/memory/pmm/pmm_alloc.c:18-32 | taking a + b lowest free pages one at a time is taking a and then b |
| UserMeaning.KernelHalfAgrees | src/kernel/scheduler/process/process_user.c:56-66 | every kernel-half address outside slot 1023 and outside the windows translates to the same frame in both directories |
| UserMeaning.KernelHalfView | src/kernel/scheduler/process/process_user.c:81-169 | the exact mapping, with rights, of every kernel-half page in the new directory |
| UserMeaning.UserHalfIsTheStack | src/kernel/scheduler/process/process_user.c:183-229 | an address of the user half is mapped exactly when it is on the stack, page i to the i-th frame, user and writable |
| UserMeaning.StackHoldsEntry | src/kernel/scheduler/process/process_user.c:244-259 | reading through the new directory at the saved stack pointer gives 0 and then the entry point |
| UserMeaning.OnlyMarkedPagesBecomeUser | src/kernel/scheduler/process/process_user.c:104-108 | a page of slots 768 to 1023 is user-accessible in the new directory exactly if it is marked, or was so in the current one, or lies in a copied slot whose directory entry alone kept user code out; no page of slot 1023 is |
| UserMeaning.OwnTablesAreKernelOnly | src/kernel/scheduler/process/process_user.c:62-65 | the new directory shows itself and its tables in slot 1023, the directory writable, to the kernel alone: a process cannot reach its own page tables |
| UserMeaning.WindowsAreKernelOnly | src/kernel/scheduler/process/process_user.c:34-37 | after a creation none of the three windows is user-accessible in the current directory, and each is writable where its directory entry is |
| UserMeaning.WindowsNeverBecomeUser | src/kernel/scheduler/process/process_user.c:34-37 | whatever the outcome, a window that user code can reach was there before the call |
| UserMeaning.MarksInOneSlot | src/kernel/scheduler/process/process_user.c:144-167 | when stub, system call and entry share a slot, exactly their three pages are marked |
| UserMeaning.MarksInGeneral | src/kernel/scheduler/process/process_user.c:144-167 | in general: the page of the system call loses its mark exactly when the entry lies in its slot and that is not the slot of the stub |
| UserMeaning.CurrentSpaceKept | src/kernel/scheduler/process/process_user.c:295-328 | whatever the outcome, the current directory translates every address outside the three windows as before |
| UserMeaning.NewDirectoryWellFormed | src/kernel/scheduler/process/process_user.c:62-65 | the new directory is well formed over used frames, so everything said of mapping holds in it too |
| Directories.DirectoriesKeepAgreeing | src/kernel/scheduler/process/process_user.c:59-61 | over every run of creations, heap growth and writes, in whichever directory each happens, all directories keep agreeing on the kernel half, and the frames of the heap stay apart from every paging structure |
| Directories.HeapInitStartsRuns | src/kernel/memory/api/kmalloc_manager.c:25-49 | the one directory that kmalloc_init leaves satisfies that invariant, so the runs start there |
| Directories.CreationKeepsInv | src/kernel/scheduler/process/process_user.c:307-326 | a creation joins the agreement |
| Directories.HeapPageKeepsInv | src/kernel/memory/vmm/vmm_map.c:41-52 | a heap page mapped in one directory is seen by all: the slot of the heap already has its shared table |
| Directories.HeapBackedEverywhere | src/kernel/memory/api/kmalloc.c:59-65 | after a switch to any other directory of the run the heap is backed as before, for the kernel alone |
| Directories.WriteKeepsInv | src/kernel/scheduler/process/process_user.c:255-256 | writing a frame that is no paging structure keeps it |
| Heap.KernelHeap.Init | src/kernel/memory/api/kmalloc_manager.c:25-49 | one free block in one mapped page, kernel-only and writable, the break behind it; a panic exactly when no page is free or the mapping is refused; when the slot of the heap is empty and its table reachable: exactly when a page for either is missing, and otherwise the heap starts in order |
| Heap.KernelHeap.FindFree | src/kernel/memory/api/kmalloc.c:23-35 | the first block of the list that is free and large enough, or none when no block is |
| Heap.KernelHeap.CreateHeader | src/kernel/memory/api/kmalloc.c:45-72 | for every size: the answer and the heap after it; it grows by whole pages, the new block is the last one and the head of the list; the tiling is always kept, the mapping unless the request overreaches, which takes a run of free frames for good and maps it at the break up to the first page that fails. Otherwise no frame changes but the one that holds the page table of the heap, and no byte below the break |
| Heap.KernelHeap.MapBlock | src/kernel/memory/api/kmalloc.c:59-65 | the pages behind the break get frames of their own; mapping them cannot be refused below the limit, and changes no frame but the page table of the heap; it never succeeds for a request that overreaches: its frames are lost, and memory is what mapping them in turn leaves |
| Heap.KernelHeap.Malloc | src/kernel/memory/api/kmalloc.c:81-99 | for every size: a block exactly when a free one of the rounded size exists or the heap can grow, used by no live allocation, and as long as asked exactly up to 4 GiB - 16; the break never passes the limit; NULL and panic exactly, changing nothing unless the request overreaches, and then exactly the frames of the block are lost behind the break; the heap invariant is kept otherwise, and no frame changes but the page table of the heap, so no byte of a payload does |
| Heap.KernelHeap.Free | src/kernel/memory/api/kfree.c:20-35 | exactly one block becomes free; a null or already free pointer, or one outside the heap, is refused and changes nothing |
| Heap.KernelHeap.Realloc | src/kernel/memory/api/krealloc.c:19-35 | for every size that does not overreach: it halts exactly when the allocation panics or the copy runs past the mapped end of the heap, decided before the call; otherwise the new block and the release of the old one, which is released also when there is no new one. At the new block stand, byte for byte, the bytes of the old one as far as the smaller of both sizes goes, and no byte of the heap outside the copy has changed. A size that overreaches never gets a block, loses its frames, and halts exactly when mapping them does |
| Heap.KernelHeap.Copy | src/utils/kstdlib/kmemory/kmemcpy.c:20-37 | the byte loop inside the heap, lowest byte first: it faults exactly when source or destination runs past the break; otherwise each byte is the one read at its turn, also where the ranges overlap, and nothing else in the heap changes |
| Heap.KernelHeap.MoveBlock | src/kernel/memory/api/krealloc.c:30-33 | the copy of krealloc: the old payload arrives whole in the new block, and other bytes of the heap stay |
| HeapMemory.StoreKeepsHeap | src/utils/kstdlib/kmemory/kmemcpy.c:31 | storing one byte through its translation keeps the heap mapped and sound, and changes no frame that shows no heap page |
| HeapMemory.OtherByteKept | src/utils/kstdlib/kmemory/kmemcpy.c:31 | and no other byte of the heap reads differently: addresses name different cells |
| HeapMemory.OneCopied | src/utils/kstdlib/kmemory/kmemcpy.c:30-35 | one turn of the copy loop |
| HeapMemory.DisjointIsCarried | src/kernel/memory/api/krealloc.c:31 | when source and destination do not overlap the bytes copied are those that stood at the source before |
| HeapRuns.BlocksAreIsolated | src/kernel/memory/api/kmalloc.c:81-99 | over every run of kmalloc, kfree, krealloc and stores by the owners of blocks: a block in use keeps its header and every byte of its payload, read through the directory, unless it is itself freed, resized or stored to |
| HeapRuns.AllocateStep | src/kernel/memory/api/kmalloc.c:81-99 | kmalloc, for a request that does not wreck the heap, is such a step |
| HeapRuns.ReleaseStep | src/kernel/memory/api/kfree.c:20-35 | so is kfree |
| HeapRuns.ResizeStep | src/kernel/memory/api/krealloc.c:19-35 | so is krealloc of a block in use |
| Heap.ReallocDecided | src/kernel/memory/api/krealloc.c:28-33 | the copy faults exactly when a free block is reused and the bytes asked for reach past the break; a block newly made at the break never faults, up to 4 GiB - 16 |
| Heap.ReuseFaults | src/kernel/memory/api/krealloc.c:28-33 | a concrete failing case: five calls after kmalloc_init, the last of which has its block and faults |
| Heap.WrappedSizeTakesAnyBlock | src/kernel/memory/api/kmalloc.c:89-90 | sizes above 4 GiB - 8 round to 0, so any free block answers them; after kmalloc_init 4 GiB - 1 gets 4084 bytes |
| HeapLayout.BlocksAscend | src/kernel/memory/api/kmalloc.c:66-70 | the blocks of the list tile the heap in order |
| HeapLayout.PayloadsDisjoint | src/kernel/memory/api/kmalloc.c:66-70 | the payloads of two different blocks never overlap |
| HeapLayout.HeapBytesAreMapped | src/kernel/memory/api/kmalloc.c:59-65 | exactly the bytes below the break are mapped, each to a frame the allocator holds as used and which is no paging structure, and no two to one physical byte; none is user-accessible, and each is writable where the directory entry of its slot is |
| HeapLayout.SmallRequestsFit | src/kernel/memory/api/kmalloc.c:49-58 | for requests whose size does not wrap, the block is long enough and the break stays within the limit, although the limit is compared with the size before rounding |
| HeapLayout.BlockIsLongEnough | src/kernel/memory/api/kmalloc.c:49-98 | for every size and both branches: the block that answers is as long as asked exactly up to 4 GiB - 16 |
| HeapLayout.OverreachIff | src/kernel/memory/api/kmalloc.c:49-58 | a request that passes the limit test ends past the limit exactly when the sum of the test wraps and that of the page count does not |
| HeapLayout.LimitTestPassed | src/kernel/memory/api/kmalloc.c:55 | a concrete failing case: 768 MiB pass the test of a heap of 400 KiB |
| HeapLayout.LargestRequestGetsOnePage | src/kernel/memory/api/kmalloc.c:49-67 | a request close to 4 GiB passes the limit test and gets a single page |
| Heap.TiledByOneMore | src/kernel/memory/api/kmalloc.c:66-70 | a block added behind the break keeps the tiling |
| Heap.RangeCannotFail | src/kernel/memory/api/kmalloc.c:63-65 | the pages behind the break are unmapped and their table exists, so mapping them never fails |
| Heap.StillBacked | src/kernel/memory/api/kmalloc.c:59-65 | after growth every heap page still has a frame of its own, used and not part of any table |
| Numerals.DivMod | src/utils/kstdlib/kstdio/kprintf/ksprintf.c:60-76 | the 64-step shift-subtract loop gives quotient and remainder of the division, and no intermediate value leaves 64 bits |
| Numerals.DivisionStep | src/utils/kstdlib/kstdio/kprintf/ksprintf.c:65-71 | one step: the bits above the current one have been divided |
| Numerals.NumeralValue | src/utils/kstdlib/kstdio/kprintf/ksprintf.c:104-113 | the numeral of a number, read digit by digit, has that value |
| Sprintf.Kuitoa | src/utils/kstdlib/kstdio/kprintf/ksprintf.c:24-48 | exactly the numeral of the value in the base, its length, and a terminator; nothing before or behind is touched |
| Sprintf.Kuitoa64 | src/utils/kstdlib/kstdio/kprintf/ksprintf.c:89-115 | the same for 64 bits and every base, through the division routine, when the numeral fits the scratch; the scratch is overrun exactly when the numeral has more than 32 digits |
| Sprintf.ScratchIsLargeEnough | src/utils/kstdlib/kstdio/kprintf/ksprintf.c:27 | the 32-byte scratch holds every 32-bit number from base 2 on and every 64-bit number from base 4 on |
| Sprintf.LengthIff | src/utils/kstdlib/kstdio/kprintf/ksprintf.c:104-113 | a numeral has at most n digits exactly when the number is below the n-th power of the base |
| Sprintf.OverrunsIff | src/utils/kstdlib/kstdio/kprintf/ksprintf.c:92-108 | the 64-bit numbers that overrun the scratch: from 2^32 on in base 2, from 3^32 on in base 3, none from base 4 on |
| Sprintf.Kitoa64 | src/utils/kstdlib/kstdio/kprintf/ksprintf.c:126-140 | sign and magnitude, also for the least value |
| Sprintf.Kitoa | src/utils/kstdlib/kstdio/kprintf/ksprintf.c:151-165 | the same for 32 bits |
| Sprintf.PrintPadded | src/utils/kstdlib/kstdio/kprintf/ksprintf.c:198-225 | writes exactly the padded text, zeros going between sign and digits, and moves the cursor by its length |
| Format.ReadDirective | src/utils/kstdlib/kstdio/kprintf/ksprintf.c:236-251 | width, zero flag, length flag and conversion of the directive at an index |
| Format.HandleFormat | src/utils/kstdlib/kstdio/kprintf/ksprintf.c:264-347 | one directive: its text, the argument it takes, and where it ends; where the format ends inside it, a percent sign and a NUL |
| Format.Ksprintf | src/utils/kstdlib/kstdio/kprintf/ksprintf.c:363-386 | the buffer receives exactly the text of the format and one terminator, and the count is the length of that text; the loop reads on behind the format exactly when the format is cut off inside a directive |
| Format.CountIsTheLength | src/utils/kstdlib/kstdio/kprintf/ksprintf.c:331-335 | the count is the length of the resulting C string exactly when no %c argument has a zero low byte, for every format that is not cut off |
| Format.DirectiveText | src/utils/kstdlib/kstdio/kprintf/ksprintf.c:236-345 | a directive written with any conversion, width, padding and length formats its argument with exactly these |
| FormatMeaning.DecimalText | src/utils/kstdlib/kstdio/kprintf/ksprintf.c:288-297 | %d and %ld: the sign of the argument as a 32- or 64-bit signed number, then its decimal digits without leading zeros, filled up to the width with blanks in front or with zeros behind the sign |
| FormatMeaning.UnsignedText | src/utils/kstdlib/kstdio/kprintf/ksprintf.c:298-323 | %x, %lx, %X, %p and %b: prefix, filling and then the digits of the whole argument in base 16 or 2, in the case of the conversion |
| FormatMeaning.StringText | src/utils/kstdlib/kstdio/kprintf/ksprintf.c:324-330 | %s: the string, or (null), filled up with blanks in front whatever the padding asked for |
| FormatMeaning.CharacterText | src/utils/kstdlib/kstdio/kprintf/ksprintf.c:331-335 | %c: the low byte of the argument, likewise |
| FormatMeaning.PercentText | src/utils/kstdlib/kstdio/kprintf/ksprintf.c:336-345 | two percent signs print one, and an unknown conversion prints a percent sign and itself, without width or padding |
| FormatMeaning.PlainText | src/utils/kstdlib/kstdio/kprintf/ksprintf.c:373-383 | a format without a percent sign is copied as it is |
| FormatMeaning.FormatOfSum | src/utils/kstdlib/kstdio/kprintf/ksprintf.c:373-383 | the text of two formats in a row is the text of the first and then of the second with the arguments left, when the first ends outside a directive |
| FormatMeaning.PageFaultMessage | src/kernel/interruption/isr/isr_page_fault.c:21-31 | the message of the page-fault handler holds the faulting address, all of it, in hexadecimal, and fits the 64 bytes of its buffer |
| FormatMeaning.NumeralIsSpelled | src/utils/kstdlib/kstdio/kprintf/ksprintf.c:104-113 | a numeral has the value, no leading zero, and letters of one case |
| FormatMeaning.PaddedIs | src/utils/kstdlib/kstdio/kprintf/ksprintf.c:198-225 | the padded text is sign, zeros and digits, or blanks, sign and digits |
| Strtol.Accumulate | src/utils/kstdlib/kstdlib/kstrtol.c:113-127 | accepts a digit exactly when the extended value is at most 2^63-1 |
| Strtol.Scan | src/utils/kstdlib/kstdlib/kstrtol.c:164-179 | the maximal digit run, when not empty and its value fits, gives sign times that value; otherwise 0 and not ok |
| Strtol.Strtol | src/utils/kstdlib/kstdlib/kstrtol.c:139-180 | blanks, sign, base prefix and digits, for every string and base |
| Strtol.AcceptedIffSpelled | src/utils/kstdlib/kstdlib/kstrtol.c:139-180 | for every string and base: a value is answered exactly when the string is blanks, a sign, the prefix the base allows, a maximal non-empty run of its digits that fits 63 bits, and a rest; the value is that of the run with the sign |
| Strtol.MeetsStandardIff | src/utils/kstdlib/kstdlib/kstrtol.c:88-180 | in base 0 and in bases 2 to 16 it accepts what strtol of ISO C accepts, with the same value, exactly outside three cases: a lone zero in base 0 and the least value, which it refuses, and a prefixed number in base 16, of which it reads the 0 |
| Strtol.ZeroIsRefused | src/utils/kstdlib/kstdlib/kstrtol.c:88-102 | a concrete failing case: the string 0 in base 0 |
| Strtol.LeastIsRefused | src/utils/kstdlib/kstdlib/kstrtol.c:113-127 | another: the least value, written in hexadecimal |
| RoundTrip.DecimalRoundTrip | src/utils/kstdlib/kstdio/kprintf/ksprintf.c:126-225 | what kitoa64 and kprint_padded write, for every width and both paddings, parses back to the value, the least value excepted, which is refused |
| RoundTrip.PrintThenParse | src/utils/kstdlib/kstdio/kprintf/ksprintf.c:363-386 | the same from the format string to kstrtol, for %d and %ld: the value comes back exactly when it is not the least 64-bit one |
| RoundTrip.PrintHexThenParse | src/utils/kstdlib/kstdio/kprintf/ksprintf.c:298-309 | %x and %lx read with base detection give the value back exactly when it fits 63 bits and no blank padding was added |
| Scheduler.TaskList.AddTask | src/kernel/scheduler/scheduler.c:62-77 | the new entry ends up last in one cycle through all entries, with any ticks and exits between the stores; the whole run between and after them is the abstract one; in an empty list any tick in between panics |
| Scheduler.TaskList.AddLater | src/kernel/scheduler/scheduler.c:71-75 | at each gap the links form one cycle, without the new entry before the second store and with it afterwards, where the abstract run has the entry join |
| Scheduler.TaskList.AddAgain | src/kernel/scheduler/scheduler.c:71-75 | an entry that is on the list already: the links stay one cycle exactly when it is the only one |
| Scheduler.TaskList.PickNext | src/kernel/scheduler/scheduler.c:96-111 | terminates with the nearest entry after the current one that is not a zombie, the current one coming last; NULL exactly when all are zombies |
| Scheduler.TaskList.SaveContext | src/kernel/scheduler/scheduler.c:124-133 | the saved context of the interrupted entry only, field by field: for ring 3 the stack pointer the processor pushed and the user data selector in all four segments, for the kernel the address behind the frame and the selectors as they were; every other register is that of the frame |
| Scheduler.TaskList.Tick | src/kernel/scheduler/scheduler.c:117-145 | one tick is one step of the abstract scheduler, CR3 included; it changes no state, and no context but that of the interrupted entry |
| Scheduler.TaskList.Exit | src/kernel/scheduler/task/task_manager.c:63-72 | the current entry becomes a zombie; its context and all other entries stay |
| Scheduler.TaskList.Start | src/kernel/scheduler/scheduler.c:148-157 | the head runs first; a second start changes nothing |
| Scheduler.TaskList.Init | src/kernel/scheduler/scheduler.c:35-52 | the seed is used only when the list is empty; it panics exactly when a tick lands inside the append of that seed, and is refused exactly when running already or with nothing to run |
| RoundRobin.NextIsNearest | src/kernel/scheduler/scheduler.c:103-110 | the choice is the nearest entry that is not a zombie, and there is none exactly when all are zombies |
| RoundRobin.BoundedWait | src/kernel/scheduler/scheduler.c:95-111 | a live entry is picked within as many ticks as there are links to it and entries that join meanwhile, whatever exits happen, and no tick before that panics |
| RoundRobin.ZombiesAreNeverPicked | src/kernel/scheduler/scheduler.c:104-109 | over every run of ticks, exits and joins a zombie is never picked again |
| RoundRobin.ExitedNeverRuns | src/kernel/scheduler/task/task_manager.c:63-72 | an entry that exits is never picked again |
| RoundRobin.WaitingIsUntouched | src/kernel/scheduler/scheduler.c:124-133 | a waiting entry keeps its saved context, state and directory over every run |
| RoundRobin.ResumesWhereItStopped | src/kernel/scheduler/scheduler.c:124-143 | switched out by one tick and picked by a later one, it resumes with the registers it was interrupted with, field by field: in ring 3 on the stack pointer the processor pushed and with the user data selector, in the kernel on the address behind the frame; CR3 is its own page directory, or stays when it has none |
| RoundRobin.LiveTaskKeepsRunning | src/kernel/scheduler/scheduler.c:134-137 | while some entry is live and nobody exits, no tick panics |
| Paths.SplitPath | src/kernel/fs/vfs/vfs_helper.c:41-78 | the buffer holds exactly the tokens of the path, terminated, for every path |
| Paths.CopyToken | src/kernel/fs/vfs/vfs_helper.c:64-69 | one token: up to the next slash, or 254 bytes |
| Paths.SplitIsClean | src/kernel/fs/vfs/vfs_helper.c:61-76 | at most 16 tokens, none empty, none over 254 bytes, no slash but in a leading root token; together a prefix of the other bytes of the path, all of them when the buffer did not fill |
| Paths.WithinLimitsIff | src/kernel/fs/vfs/vfs_helper.c:61-76 | the tokens are the non-empty components exactly when there is room for all and none is over 254 bytes |
| Paths.ComponentsOfSum | src/kernel/fs/vfs/vfs_helper.c:61-76 | slashes at the end of a path add no component |
| Paths.SplitIsStable | src/kernel/fs/vfs/vfs_helper.c:41-78 | splitting the path spelled by the tokens of any path gives the same tokens |
| Tmpfs.Tree.Mount | src/kernel/fs/tmpfs/lifecycle/tmpfs_mount.c:22-64 | a tree of one directory, which stands for a file system with the one key of the root |
| Tmpfs.Tree.LookupEntry | src/kernel/fs/tmpfs/operations/tmpfs_lookup.c:22-44 | the entry itself, its parent (the root for the root), or the first child of the name; nothing in a file |
| Tmpfs.Tree.CreateEntry | src/kernel/fs/tmpfs/tmpfs_helper.c:78-106 | the new entry becomes the first child of its parent; all other links are kept |
| Tmpfs.Tree.Create | src/kernel/fs/tmpfs/operations/tmpfs_create.c:24-34 | creates exactly in a directory, counts the link, and keeps the tree invariant |
| Tmpfs.Tree.RemoveFromParentLl | src/kernel/fs/tmpfs/tmpfs_helper.c:117-141 | takes exactly that entry off the list of its parent and one link off the parent; refuses an entry that is not on the list |
| Tmpfs.Tree.FindBefore | src/kernel/fs/tmpfs/tmpfs_helper.c:125-129 | the walk stops at the entry with the one before it, or at the end of the list |
| Tmpfs.Tree.Rmdir | src/kernel/fs/tmpfs/operations/tmpfs_rmdir.c:21-36 | removes exactly a childless directory other than the root |
| Tmpfs.Tree.Unlink | src/kernel/fs/tmpfs/operations/tmpfs_unlink.c:22-34 | removes the file |
| Tmpfs.Tree.WriteFile | src/kernel/fs/tmpfs/operations/tmpfs_write.c:25-63 | changes the bytes of one file, nothing else of the tree, at any offset; refused and faulting writes as Entry.Write says |
| Tmpfs.IncLink | src/kernel/fs/vfs/stat/vfs_stat_link.c:17-21 | one link more, on one entry |
| Tmpfs.DecLink | src/kernel/fs/vfs/stat/vfs_stat_link.c:29-34 | one link less, never below zero, on one entry |
| FsEdits.AddedKeepsTree | src/kernel/fs/tmpfs/tmpfs_helper.c:89-93 | after a creation: finite lists, every entry on the list of its parent only, and two links plus one per child |
| FsEdits.AddedIsOneKey | src/kernel/fs/tmpfs/tmpfs_helper.c:89-93 | a creation under a free name adds exactly one key |
| FsEdits.RemovedKeepsTree | src/kernel/fs/tmpfs/tmpfs_helper.c:125-139 | the same invariant after a removal |
| FsEdits.RemovedMeaning | src/kernel/fs/tmpfs/tmpfs_helper.c:125-139 | a removal drops exactly one key, which no other key extends, and leaves a tree |
| FsEdits.NothingBelow | src/kernel/fs/tmpfs/operations/tmpfs_rmdir.c:32-34 | no key extends the path of a file or of an empty directory |
| FsEdits.RewrittenIsOneKey | src/kernel/fs/tmpfs/operations/tmpfs_write.c:58-61 | writing a file changes the value at its key only |
| FsTree.SiblingNamesDiffer | src/kernel/fs/vfs/lifecycle/vfs_open.c:72-89 | entries of one directory have different names |
| FsTree.ParentExists | src/kernel/fs/tmpfs/tmpfs_helper.c:92 | the parent of every entry but the root is a directory of the tree, one name shorter |
| FsTree.WalkRefines | src/kernel/fs/vfs/vfs_helper.c:129-138 | resolution with "." and ".." reaches the entry at the normalised path, exactly when every prefix walked is an existing directory |
| FsTree.LookupFinds | src/kernel/fs/tmpfs/operations/tmpfs_lookup.c:34-43 | one lookup moves to the normalised path |
| FsRuns.PlainPaths | src/kernel/fs/vfs/lifecycle/vfs_open.c:47-127 | on a path of proper names, whatever the flags: an open succeeds exactly when the parent is an existing directory and the name exists and O_CREAT with O_EXCL did not ask for a new one, or is missing and O_CREAT asked for it, and then adds exactly that key; rmdir, unlink and chdir look at exactly that key and at those below it |
| FsRuns.Dots | src/kernel/fs/tmpfs/operations/tmpfs_lookup.c:34-38 | a single dot stays, and two dots undo a name but not the root |
| Vfs.Vfs.Close | src/kernel/fs/vfs/lifecycle/vfs_close.c:20-32 | one reference less; the node is freed with the last one, the root node never |
| Vfs.Vfs.Lookup | src/kernel/fs/vfs/operations/vfs_lookup.c:20-35 | a new node of one reference for the entry found, or none |
| Vfs.Vfs.ResolveFrom | src/kernel/fs/vfs/vfs_helper.c:108-140 | reaches what walking the tokens reaches; exactly one more live node, the result, unless that is the start; none on failure; the start is never released |
| Vfs.Vfs.ResolveParentFrom | src/kernel/fs/vfs/vfs_helper.c:152-187 | the same for all tokens but the last, and the last token as the name |
| Vfs.Vfs.Advance | src/kernel/fs/vfs/vfs_helper.c:130-137 | one turn: one node gained, the previous one released unless it is the start |
| Vfs.Vfs.Open | src/kernel/fs/vfs/lifecycle/vfs_open.c:47-127 | for every path and flags: when it succeeds, which entry it opens, the one key it adds or none, the live nodes and the count of the working directory; a failing open takes one reference off the working directory, and so may free its node, exactly when the path is one relative name and the working directory is not the root node |
| Vfs.Vfs.OpenOnTree | src/kernel/fs/vfs/lifecycle/vfs_open.c:47-127 | the same seen on the tree, at the entry the resolver reaches for the parent |
| Vfs.Vfs.CreateIn | src/kernel/fs/vfs/lifecycle/vfs_open.c:67-90 | the creation part adds at most the one key, and fails exactly outside a directory or on an existing name with O_EXCL |
| Vfs.OpenMeaning | src/kernel/fs/vfs/lifecycle/vfs_open.c:59-98 | what was done at the parent entry, stated on paths |
| Vfs.Vfs.Rmdir | src/kernel/fs/vfs/operations/vfs_rmdir.c:21-52 | succeeds exactly on an existing directory other than the root that no key extends, and removes that key; a refusal leaves one node behind exactly when the path has a name and leads to an entry; after a success all nodes are in order exactly when no live node referred to the directory |
| Vfs.RmdirMeaning | src/kernel/fs/vfs/operations/vfs_rmdir.c:30-51 | that condition on the file system is the one on the tree |
| Vfs.LeafIff | src/kernel/fs/tmpfs/operations/tmpfs_rmdir.c:32-34 | an entry has no children exactly when no key extends its path |
| Vfs.Vfs.Unlink | src/kernel/fs/vfs/operations/vfs_unlink.c:26-53 | succeeds exactly on an existing regular file, and removes that key; the nodes as for rmdir |
| Vfs.UnlinkMeaning | src/kernel/fs/vfs/operations/vfs_unlink.c:30-52 | that condition on the file system is the one on the tree |
| Vfs.Vfs.Chdir | src/kernel/fs/vfs/lifecycle/vfs_chdir.c:21-44 | succeeds exactly on an existing directory, exchanges one node for the other, and changes nothing on failure; the old node is freed with its last reference |
| FsRuns.TreeIsClosed | src/kernel/fs/tmpfs/tmpfs_helper.c:82-92 | the keys of a tree always lie in directories that are keys |
| FsRuns.RunsStayClosed | src/kernel/fs/vfs/lifecycle/vfs_open.c:67-90 | over every run of opens, directory removals and unlinks every key lies in an existing directory |
| FsRuns.RunsKeepNames | src/kernel/fs/vfs/lifecycle/vfs_open.c:72-89 | over every such run no name is empty, too long, ".", ".." or contains a slash, but for the entry an open of "/" can leave |
| FsRuns.RmdirUndoesMkdir | src/kernel/fs/vfs/operations/vfs_rmdir.c:21-52 | the directory just made can be removed by the same path and all is as before, exactly when the path has a name in it |
| FsRuns.UnlinkUndoesCreate | src/kernel/fs/vfs/operations/vfs_unlink.c:26-53 | the same for a file |
| FsRuns.RootOpenMakesAnUnreachableName | src/kernel/fs/vfs/lifecycle/vfs_open.c:59-89 | an O_CREAT open of "/" makes an entry of that name, which no path leads to |
| TmpfsEntry.Entry.Write | src/kernel/fs/tmpfs/operations/tmpfs_write.c:25-63 | exactly the bytes given replace those at the offset; size, capacity and stat size agree; bytes that the reallocation copied from behind the old block never show; it faults exactly when the growth does or the bytes do not fit the block, and answers 0 exactly when there is nothing to write or the growth is refused, which changes nothing |
| FileHeap.WriteFile | src/kernel/fs/tmpfs/operations/tmpfs_write.c:48-62 | the same on the heap itself, decided before the call: the write succeeds exactly when the bytes fit the block or krealloc can serve the growth, and faults exactly when the growth does; afterwards the bytes of the file stand in the frames of the heap at its pointer, and the bytes of other blocks are what they were; a refused growth has freed the block |
| FileHeap.WriteAmong | src/kernel/fs/tmpfs/operations/tmpfs_write.c:48-62 | a write that succeeds leaves every file of a set with a block of its own in which its bytes stand; one that is refused leaves this file, and no other, with a pointer to a free block |
| FileHeap.PutBytes | src/utils/kstdlib/kmemory/kmemcpy.c:20-37 | the data arrive byte for byte at their address in the heap, and no other byte of it changes |
| FileHeap.MovedCarries | src/kernel/memory/api/krealloc.c:28-33 | what krealloc moved is what the growth of the file is told |
| TmpfsEntry.Entry.Grow | src/kernel/fs/tmpfs/operations/tmpfs_write.c:48-57 | growth takes the bytes of the new block as they are, and keeps the content, whatever lies behind the old block and in the new one |
| TmpfsEntry.Entry.Read | src/kernel/fs/tmpfs/operations/tmpfs_read.c:24-54 | as many bytes as asked, or all that are left when those are fewer; byte i of the answer is the one that far behind the offset, which moves by their number; nothing exactly when nothing is asked or the offset is at the end or past it |
| FileRuns.OpenFile.WriteBy | src/kernel/fs/tmpfs/operations/tmpfs_write.c:48-62 | a write through one descriptor is one step of the abstract file, or none when it is refused; it faults exactly as Entry.Write says |
| FileRuns.OpenFile.ReadBy | src/kernel/fs/tmpfs/operations/tmpfs_read.c:46-53 | so is a read, with that count and those bytes |
| FileRuns.Run | src/kernel/fs/tmpfs/operations/tmpfs_write.c:48-62 | over every interleaving through many descriptors each offset stays within the file |
| FileRuns.WritesSplice | src/kernel/fs/tmpfs/operations/tmpfs_write.c:58-61 | successive writes through one descriptor splice their concatenation, however it is cut up |
| FileRuns.WrittenIsRead | src/kernel/fs/tmpfs/operations/tmpfs_read.c:49-53 | a reader that stands where the writer started reads back exactly what was written |
| FileRuns.ReadsContinue | src/kernel/fs/tmpfs/operations/tmpfs_read.c:46-53 | reads through one descriptor, of whatever lengths and among any other reads, join to the content from its offset on, as far as they asked or to the end |
| FileRuns.FilesOnlyGrow | src/kernel/fs/tmpfs/operations/tmpfs_write.c:59 | no run shortens a file, and reading changes no byte |
| Pwd.Kmemmove | src/utils/kstdlib/kmemory/kmemmove.c:22-45 | the bytes move whole, whatever the overlap and the direction; nothing else changes |
| Pwd.Prepend | src/kernel/shell/commands/fs/pwd.c:50-55 | a slash and the name go in front of the text, terminator included |
| Pwd.Pwd | src/kernel/shell/commands/fs/pwd.c:25-62 | the buffer holds the path of the working directory, and every node taken on the way is released; the buffer is overrun exactly when the path, a slash before each name, has 4080 bytes or more |
| Pwd.Above | src/kernel/shell/commands/fs/pwd.c:39-49 | the parent node, or the end of the climb exactly at the root |
| Pwd.TextFits | src/kernel/shell/commands/fs/pwd.c:27 | down to depth 15 the text fits the buffer |
| Pwd.SixteenLongNames | src/kernel/shell/commands/fs/pwd.c:27-55 | 16 names of the greatest length overrun the buffer by the terminator; 17 names of one letter do not |
| Pwd.PwdRoundTrip | src/kernel/shell/commands/fs/pwd.c:38-62 | resolving what pwd prints reaches the same entry exactly when it lies at most 15 names below the root |
| InitrdImage.CString | src/kernel/fs/initrd/initrd.c:45 | the name read from an entry has no NUL in it and lies in the image |
| InitrdImage.TypesOfStat | src/kernel/fs/initrd/initrd.c:21-30 | with or without permission bits 0x4000 is a directory and 0x8000 a file; without type bits only 1 is a directory; any other type is neither |
| InitrdImage.Ensure | src/kernel/fs/initrd/initrd.c:117-142 | ensuring directories never loses a key |
| InitrdImage.NameField | tools/mkinitrd.c:30 | the name field always has 64 bytes |
| InitrdImage.Printed | tools/mkinitrd.c:26-37 | an entry takes 72 bytes and its data |
| Initrd.GetOrCreate | src/kernel/fs/initrd/initrd.c:90-105 | the child of the name, made exactly when it is missing; fails exactly in a file |
| Initrd.EnsureDirectory | src/kernel/fs/initrd/initrd.c:117-142 | the directories of the path exist afterwards, as the specification of the walk says, with one more live node or none |
| Initrd.WriteFileData | src/kernel/fs/initrd/initrd.c:249-263 | the bytes of the file; an empty one is not written, a directory cannot be |
| Initrd.UnpackFile | src/kernel/fs/initrd/initrd.c:275-307 | one file entry, and no node left behind on any exit |
| Initrd.UnpackEntry | src/kernel/fs/initrd/initrd.c:319-334 | one entry of any type, and no node left behind |
| Initrd.Unpack | src/kernel/fs/initrd/initrd.c:380-406 | for every image: the tree afterwards and the answer are those of the specification, whose cursor strictly advances and stays inside the image; the live nodes are those of before on every exit |
| InitrdRoundTrip.HeaderIsRead | tools/mkinitrd.c:26-37 | the header read at the place of an entry is the one written, and its data follow |
| InitrdRoundTrip.PrintedIsUnpacked | src/kernel/fs/initrd/initrd.c:391-404 | unpacking a printed image adds its entries in turn |
| InitrdRoundTrip.EnsureMakes | src/kernel/fs/initrd/initrd.c:128-141 | with no file in the way exactly the missing directories appear |
| InitrdRoundTrip.EntryDecided | src/kernel/fs/initrd/initrd.c:319-334 | one entry with an absolute path of proper names, on any file system: refused exactly for another type, below a file, for a file without a name, and for data meant for a directory, and then nothing changes; otherwise the path and all above it exist, everything else is as it was, and the data stand at the front of the file |
| InitrdRoundTrip.CutShortIsRefused | src/kernel/fs/initrd/initrd.c:391-406 | a printed image that is cut short anywhere is refused, with exactly the entries in it that were whole |
| InitrdRoundTrip.PlacedIff | src/kernel/fs/initrd/initrd.c:117-307 | an entry lands at the components of its name exactly when there are at most 15 and the field cuts off nothing but slashes |
| InitrdRoundTrip.LongNameIsCut | tools/mkinitrd.c:30 | a concrete failing case: a name of 70 letters lands at its first 62 |
| InitrdRoundTrip.InitrdRoundTrip | tools/mkinitrd.c:25-37 | for entries with proper absolute paths of at most 15 names that fit the name field, no two at one file path and none below a file, the printed image unpacks completely to exactly those directories, their parents, and those files with exactly their bytes, each at the components of its name |
| Initrd.PrintedImageBoots | src/kernel/fs/initrd/initrd.c:380-406 | the same for the mounted tree |
| Descriptors.LowestFree | src/kernel/fs/fd/fd_helper.c:63-67 | the least free index, and none exactly when all are taken |
| Descriptors.Table.Create | src/kernel/fs/fd/fd_helper.c:54-81 | the lowest free slot gets the new descriptor; a full table or no node changes nothing |
| Descriptors.Table.Get | src/kernel/fs/fd/fd_helper.c:105-113 | the descriptor of a valid index |
| Descriptors.Table.CheckAccess | src/kernel/fs/fd/fd_helper.c:139-165 | allowed exactly when the slot is taken and its access mode covers what is asked |
| Descriptors.Table.Close | src/kernel/fs/fd/lifecycle/fd_close.c:36-53 | the last reference releases the node and frees the slot; an earlier one only counts down |
| Descriptors.Table.Open | src/kernel/fs/fd/lifecycle/fd_open.c:39-51 | an open takes the lowest slot and gives it a live node of its own; it fails exactly when the path cannot be opened or the table is full: in the first case the nodes are as after the failing kvfs_open, in the second one node stays behind |
| Descriptors.ClosedIsNext | src/kernel/fs/fd/lifecycle/fd_close.c:45-51 | a closed descriptor is the next one handed out, unless a lower one was free |

## Left out

- Frames above 4 GiB: the layers above the page allocator are stated for bitmaps that end by 4 GiB (part of `Pmm.PageAllocator.Valid`), since every address they pass on has 32 bits.
- The translation look-aside buffer and instruction fetches: every access walks the tables, so a wipe of the directory or of a kernel table shows at the next data access; each map and unmap invalidates the page it touches.
- Allocation failures in the file layer other than those of a file's bytes: nodes, entries and descriptors are always obtained, and the unpacking of an image is given a block whenever it asks for one.
- Interrupts in the memory stack and the file layer: their operations are modelled as not interrupted; only the scheduler's list is.
- The bytes of heap headers: the headers are a map from address to size, free flag and next, not words inside the heap frames. What is said of frames and bytes that stay therefore leaves out the twelve bytes of each header, and a write past a payload is not modelled.
- kmemset and kmemcpy on whole pages are single steps through the page's translation; the copies of `krealloc` and of file data go byte by byte.
- Kernel image and stub addresses, the e820 table and the room left in the early heap are parameters.
- Sizes and counters that would need more memory than 4 GiB to wrap (link counts, reference counts, the number of entries) are unbounded; wrap-around is modelled where a request can cause it.
- Character devices and /dev, whose root is not linked into the tree; symbolic links; O_TRUNC and O_APPEND, which the code does not act on.
- Permission checks: the credential is always root where they are called, so they never refuse. Timestamps are constantly 0.
- Missing NUL terminators: an initrd name without a NUL before the end of the image is taken to end there.
- The screen output of `pwd`, error messages, system-call wrappers, `kprintf`, `katoi`, the argument splitter of the shell.
- The assembly that restores a saved context, and the TSS stack: `Scheduler.TaskList.Tick` ends with the entry whose context is to be restored, and with CR3.
- Null arguments that the C functions refuse at once, where the model's types leave no null (paths, buffers, the process of a descriptor table).
- Scheduler.TaskList.AddTask: for an entry that is not on the list, and so Scheduler.TaskList.AddLater; adding one again is `Scheduler.TaskList.AddAgain`, without interrupts between its stores.
- Several adders at once: `Scheduler.TaskList.AddTask` admits ticks and exits between its stores, not a second append.
- Tmpfs.Tree.RemoveFromParentLl: for an entry without children, which is what both callers pass; with children they would be lost.
- Format.Ksprintf: for arguments of the kinds the directives take, otherwise the code takes other stack words; of a format that is cut off it says only that the loop reads on behind it.
- Vmm.MapMeaning: requires the present flag, an address below the recursive slot, and a reachable new table (`TableVisible`), since outside that scope the code edits the directory itself or wipes a foreign frame; `Vmm.MapsCleanlyIff` states exactly when the last part fails.
- Vmm.Machine.MapPage: says nothing for a directory that does not map itself, which the kernel never installs.
- Vmm.Machine.MapRange: for ranges whose new tables are not reachable it says that the pages are mapped in turn, each as `Vmm.Machine.MapPage` says, and not what the address space is then.
- UserProcess.CreateUser: requires `WindowReady` (the table of the windows exists, or can be zeroed) and stubs in the kernel half, as the linker places them; when it succeeds is stated for code outside the window and recursive slots (`PlainCode`).
- Heap.KernelHeap.Malloc: for a request that overreaches and takes frames, memory is described only as what mapping them in turn leaves; `Valid` is then not kept, because the pages behind the break may be mapped. The same for Heap.KernelHeap.CreateHeader and Heap.KernelHeap.MapBlock.
- Heap.KernelHeap.Free: requires a pointer inside the heap to be one that kmalloc answered; the code takes any word in front of it for a header.
- Heap.KernelHeap.Realloc: requires a null pointer or one that kmalloc answered and is in use; when the size is 0 the code reads the header of the block, so a block must be given. For a size that overreaches the halt is the one of mapping the lost frames, not a condition in closed form.
- HeapRuns.BlocksAreIsolated: for calls that return and sizes that do not overreach, in one directory; `Directories.HeapBackedEverywhere` carries the mapping to the others.
- Heap.KernelHeap.Init: with heap pages already mapped, or an unreachable table, only the answer of the mapping call decides, and `Valid` is not promised.
- Vfs.Vfs.Chdir: requires that the node of the working directory is live, which a failing open can end.
- TmpfsEntry.Entry.Write: an offset whose sum with the length passes 2^32 counts as a fault; offsets within a file never reach it with a buffer that fits the address space.
- Sprintf.Kuitoa64: says nothing of memory once the scratch is overrun. The same for Pwd.Pwd and its buffer.
- Format.HandleFormat: for an argument of the kind the directive takes.
