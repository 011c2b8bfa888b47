# A verified model of the hltOS kernel core

hltOS is a small x86-64 kernel written in C++. This project models, in Dafny,
the parts of it that are data structures and protocols: physical frames and
four-level page tables, the kernel heap and the slab allocator, the scheduler
with its process states, and six compact algorithms beside them. Each module
says what the code keeps over every call or every run.

`dafny verify dfyconfig.toml` checks everything.

## Layout

| files | what they model |
|---|---|
| `Common.dfy` | 64-bit wrap-around, page counts, options and list helpers that several modules use |
| `Pmm.dfy` | the bitmap frame allocator, proved to be a set of free frames |
| `PageTables.dfy`, `Addresses.dfy`, `Cloning.dfy`, `Vmm.dfy` | page tables as a tree of frames, the flat map from pages to entries that they mean, and mapping, unmapping, creating, cloning and freeing address spaces |
| `KernelHeap.dfy` | the base-512 heap cursor, `map_phys`, `alloc_kernel`, `free_kernel` |
| `Slab.dfy`, `SlabSteps.dfy`, `SlabLists.dfy`, `Kmalloc.dfy` | slabs with free lists inside their pages, and the `kmalloc`/`kfree` dispatch |
| `FlatHeap.dfy` | the flat heap under `kmalloc` as a view of the kernel's address space |
| `Process.dfy`, `Scheduler.dfy` | the scheduler as a transition system, one step per critical section |
| `SchedulerInvariant.dfy`, `SchedulerSteps.dfy`, `SchedulerRuns.dfy`, `SchedulerWaits.dfy` | what every step keeps, and theorems over whole runs: who exits, who is collected, who is picked, who stays blocked |
| `Mechanism.dfy`, `MinHeap.dfy` | the scheduler and its sleeper heap as objects updated in place; every call is proved to be one step of the transition system |
| `KList.dfy` | the circular doubly linked list, proved to be a sequence |
| `Tokens.dfy`, `Vfs.dfy`, `VfsOps.dfy`, `Initramfs.dfy` | split, tokenize and join; mounts, path resolution and `mkdir`; the tree built from an archive |
| `Line.dfy`, `Clock.dfy`, `Numbers.dfy` | line drawing, tick conversion, number formatting |

## How the main parts are stated

**Address spaces.** Memory is 524288 frames of 512 words. A frame is reached by
a path of at most four indices from a root. The invariant `PageTables.Inv` says
that no table or page is reached at two places, that reached frames are not
free, and that each upper entry of a user space is the kernel's own, except
where the kernel has populated a heap slot since that space was made and the
space holds nothing. `Pages` is the flat map that the tables mean, and the
contracts are stated on it, on the set of free frames and on the set of frames
that are in use but belong to nobody (`Leaked`). The heap owns the slots from
the one after the kernel's up to `heapEnd`, the first slot the boot loader uses.

**Scheduler.** `Scheduler.Next` gives the state after each of fifteen kinds of
step. `SchedulerInvariant.Inv` says that the ready queue holds exactly the ready
processes, the heap exactly the sleeping ones under their deadlines, that only
the current process runs, and that nobody is blocked on a child that has already
exited. It is kept by every step, so it holds in every run from boot. The class
`Mechanism.Mechanism` then shows that the loops of the source compute exactly
these steps.

**Slabs.** `Slab.Valid` ties the header fields, the links written into free
chunks, the doubly linked slab lists and the page set together. A `Block` is
what a caller of `kmalloc` owns; allocation adds exactly one block, release
removes exactly one, all blocks in use are disjoint, and whatever owners write
into their blocks leaves all of this as it is.

**Where the code does less than one might expect**, the model keeps the code and
states the exact condition: a user space sees a new kernel heap page exactly if
it already held the entry of the page's top-level slot (`SeenExactly`), so the
first page of a slot that is populated late is the kernel's alone
(`MapBeyondShared`); unmapping keeps the spaces well-formed exactly for pages
that are no device's (`UnmapPage`); a whole-page allocation covers the request
exactly if its size with header and rounding fits 64 bits (`PagesForCovers`);
cursor
positions are adjacent except across the non-canonical hole (`AdvanceAdjacent`);
the frame counter stays in step exactly when a freed frame was in use
(`FreeFrame`); mapping over a mapped page loses exactly the old frames
(`MapPages`); `mkdir` keeps names spellable exactly for names other than the
dots (`NamesKept`), no path leads to a directory called by a dot
(`DotNeverResolves`), and the texts of paths reach exactly the uncovered inodes
whose names on the way up are no dots and hold no slash (`ReachableExactly`); an
archive entry keeps the boot tree well-formed exactly if its path led nowhere
before (`InsertExactly`); tokenizing a joined list gives it back except for the
single empty part (`TokenizeJoin`); hexadecimal text is read back exactly when
it has no letters (`WriteThenRead`); a process may block for a child without
looking exactly if there is no zombie to find (`BlockOnChildExact`); a second
wait for the same child blocks exactly while the first one's child is dead and
not yet reaped (`SecondWaitBlocks`), and then for ever (`WaitsForEver`); a zombie
whose parent is gone is never freed (`OrphanStays`); a negative number in a prefixed format is never
its sign and its magnitude (`SignedIsText`); tick products overflow exactly
above a given frequency (`RemainderFits`, `CyclesFit`), and conversions are
monotone exactly up to the first result that passes 64 bits
(`NsToTicksMonotone`, `TicksMonotone`).

## Model

| member | source | states |
|---|---|---|
| `Pmm.MarkUsed` | src/kernel/lib/memory/pmm.cpp:62-69 | setting the bit of a frame in its 64-bit word removes exactly that frame from the set of free frames |
| `Pmm.MarkFree` | src/kernel/lib/memory/pmm.cpp:71-79 | clearing it adds exactly that frame |
| `Pmm.FrameAllocator.IsFrameFree` | src/kernel/lib/memory/pmm.cpp:52-60 | answers membership in the set of free frames |
| `Pmm.FrameAllocator.SetFrameUsed` | src/kernel/lib/memory/pmm.cpp:62-69 | removes the frame; counter and set stay in step if and only if it was free |
| `Pmm.FrameAllocator.SetFrameFree` | src/kernel/lib/memory/pmm.cpp:71-79 | adds the frame; counter and set stay in step if and only if it was in use |
| `Pmm.FrameAllocator.AllocFrame` | src/kernel/lib/memory/pmm.cpp:184-204 | takes the first free frame between cursor and end, fails if and only if there is none, and keeps the counter in step with the set |
| `Pmm.FrameAllocator.FreeFrame` | src/kernel/lib/memory/pmm.cpp:166-174 | returns the frame to the set; in step if and only if it was in use |
| `Pmm.FrameAllocator.Serve` | src/kernel/lib/memory/pmm.cpp:166-204 | over any sequence of alloc_frame and free_frame the frames handed out strictly increase, so none is handed out twice, freed or not, and there are at most as many as lay between cursor and end |
| `Addresses.AdvanceCounts` | src/kernel/arch/x64/memory/vmm.cpp:119-143 | advancing the four-digit heap cursor adds one to the page number it spells |
| `Addresses.CursorAddress` | src/kernel/arch/x64/memory/vmm.cpp:97-115 | the cursor's address is the canonical address of its page number, is page-aligned, and decodes back to the same four indices |
| `Addresses.AdvanceAdjacent` | src/kernel/arch/x64/memory/vmm.cpp:97-143 | successive cursor addresses are one page apart if and only if the cursor is not at the last page below the non-canonical hole |
| `Addresses.IndicesOfCanonical` | src/kernel/arch/x64/memory/vmm.cpp:151-181 | every address inside a canonical page decodes to that page's four indices |
| `PageTables.KernelHalfShared` | src/kernel/arch/x64/memory/vmm.cpp:625-641 | a user space translates a kernel-half address as the kernel does if and only if its own top-level entry is present or the kernel maps nothing there; always so outside the heap and in the slots populated before the first user space |
| `PageTables.SeenExactly` | src/kernel/arch/x64/memory/vmm.cpp:303-327 | after the kernel maps a heap page, a user space translates it as the kernel does if and only if it held the entry of the page's slot before; every space does in a shared slot, none in a slot that was just populated |
| `PageTables.BootInv` | src/kernel/arch/x64/memory/vmm.cpp:587-614 | a kernel table with empty heap slots is a well-formed start with an empty flat map |
| `PageTables.StoreIsolated` | src/kernel/arch/x64/memory/vmm.cpp:699-761 | a store through one page changes no translation and no word of any other page of any space |
| `PageTables.NoSharedFrames` | src/kernel/arch/x64/memory/vmm.cpp:351-411 | no page's frame is free, and no two mapped pages, of one space or of two, share one, except device frames |
| `PageTables.Graft` | src/kernel/arch/x64/memory/vmm.cpp:270-301 | linking a fresh empty table keeps the invariant, the flat map and the set of lost frames |
| `PageTables.LinkPage` | src/kernel/arch/x64/memory/vmm.cpp:351-369 | writing a leaf entry updates the flat map at that page only and accounts for the frame it replaces |
| `PageTables.PrunePage` | src/kernel/arch/x64/memory/vmm.cpp:424-439 | clearing a leaf entry and freeing its frame removes that page from the flat map and keeps the invariant |
| `PageTables.PruneDevice` | src/kernel/arch/x64/memory/vmm.cpp:424-439 | unmapping a device page removes it from the flat map too, but leaves a device frame free |
| `PageTables.DropRoot` | src/kernel/arch/x64/memory/vmm.cpp:643-697 | removing a user root with an empty user half leaves every other space as it was |
| `Vmm.AddressSpaces.Boot` | src/kernel/arch/x64/memory/vmm.cpp:578-585 | what the boot loader leaves satisfies the invariant, with nothing mapped in the heap and no user space |
| `Vmm.AddressSpaces.InitKheap` | src/kernel/arch/x64/memory/vmm.cpp:587-614 | keeps the invariant, maps no page, and makes the first heap slot one that every later user space shares |
| `Vmm.AddressSpaces.FindPteAt` | src/kernel/arch/x64/memory/vmm.cpp:151-181 | finds an entry if and only if all four levels are present, and then the entry the flat map holds |
| `Vmm.AddressSpaces.FindPte` | src/kernel/arch/x64/memory/vmm.cpp:151-181 | the same for the indices of any virtual address |
| `Vmm.AddressSpaces.EnsurePresent` | src/kernel/arch/x64/memory/vmm.cpp:270-301 | the table below an entry, made empty and linked in if absent; nothing else changes |
| `Vmm.AddressSpaces.EnsureTables` | src/kernel/arch/x64/memory/vmm.cpp:270-301 | makes the three levels on the way to a page without changing the flat map |
| `Vmm.AddressSpaces.MapAt` | src/kernel/arch/x64/memory/vmm.cpp:303-327 | a flat-map update at one page with the given frame and flags; loses exactly the frame mapped there before |
| `Vmm.AddressSpaces.MapPageToFrame` | src/kernel/arch/x64/memory/vmm.cpp:351-369 | the same for a page-aligned virtual address |
| `Vmm.AddressSpaces.UnmapPage` | src/kernel/arch/x64/memory/vmm.cpp:424-439 | a flat-map deletion that frees exactly the page's frame; an unmapped page is left alone; the invariant holds afterwards if and only if the page was not a device's |
| `Vmm.AddressSpaces.MapPages` | src/kernel/arch/x64/memory/vmm.cpp:381-411 | maps every page overlapping the byte range to a fresh frame; what is lost is exactly what those pages held before |
| `Vmm.AddressSpaces.MapRange` | src/kernel/arch/x64/memory/vmm.cpp:402-408 | after each round the pages so far are mapped to fresh frames, all others as before, and only their old frames are lost |
| `Vmm.AddressSpaces.CreateUserPml4` | src/kernel/arch/x64/memory/vmm.cpp:625-641 | one frame becomes an empty user space that shares the kernel's upper entries |
| `Vmm.AddressSpaces.CopyUpperEntries` | src/kernel/arch/x64/memory/vmm.cpp:625-641 | the new root holds nothing in its user half and the given table's entries above |
| `Vmm.AddressSpaces.CloneUserPml4` | src/kernel/arch/x64/memory/vmm.cpp:699-761 | an isolated copy: page for page mapped alike, same flags and contents, in frames that were free, under the original's upper entries; everything in use is untouched, and exactly the copy's frames were taken |
| `Vmm.AddressSpaces.CloneTable` | src/kernel/arch/x64/memory/vmm.cpp:715-756 | below this table the copy holds page for page the same entries and contents in fresh frames, and every frame in use before is unchanged |
| `Vmm.AddressSpaces.ClonePage` | src/kernel/arch/x64/memory/vmm.cpp:739-753 | one page copied to a fresh frame under the same flags |
| `Vmm.AddressSpaces.FreeUserPml4` | src/kernel/arch/x64/memory/vmm.cpp:643-697 | frees exactly the space's root, tables and pages, each while in use, leaves every other space alone, and refuses the kernel's own |
| `Vmm.AddressSpaces.FreeTable` | src/kernel/arch/x64/memory/vmm.cpp:653-691 | below this table nothing is left, exactly its frames became free, each while in use, and every other walk is unchanged |
| `Vmm.AddressSpaces.CloneThenFree` | src/kernel/arch/x64/memory/vmm.cpp:643-761 | cloning a space and freeing the clone restores the exact set of free frames and the frame counter |
| `Vmm.AddressSpaces.StoreWord` | src/kernel/arch/x64/memory/vmm.cpp:699-761 | a later store through one space changes one frame and no translation |
| `Cloning.CloneIsIsolated` | src/kernel/arch/x64/memory/vmm.cpp:699-761 | the finished copy loop gives an isolated copy of every user page |
| `Cloning.CloneTakes` | src/kernel/arch/x64/memory/vmm.cpp:699-761 | the frames taken are exactly the frames the copy consists of |
| `Cloning.CloneFreeCancel` | src/kernel/arch/x64/memory/vmm.cpp:643-761 | copying and freeing cancel out on the flat map, the free set and the contents of all frames in use |
| `KernelHeap.Allocator.AfterBoot` | src/kernel/arch/x64/memory/vmm.cpp:587-614 | the cursor starts at the first page of the slot after the kernel's |
| `KernelHeap.Allocator.MapHeapPage` | src/kernel/arch/x64/memory/vmm.cpp:303-327 | anywhere in the heap, maps the page at the cursor, which was unmapped, and moves the cursor on by one; exactly the user spaces that held the slot's entry see the page |
| `KernelHeap.Allocator.MapPhys` | src/kernel/arch/x64/memory/vmm.cpp:335-338 | a device page, or a frame that was taken for it, is mapped writable and global at a fresh heap page, at the same offset; nothing else is lost, and exactly the user spaces that held the slot's entry see it |
| `KernelHeap.Allocator.MapFreshPage` | src/kernel/arch/x64/memory/vmm.cpp:448-460 | a previously unmapped page backed by a frame that was free, seen by exactly the user spaces that held the slot's entry |
| `KernelHeap.Allocator.UnmapHeapPage` | src/kernel/arch/x64/memory/vmm.cpp:462-474 | unmaps one heap page and frees exactly its frame; the invariant holds afterwards if and only if the page was not a device's |
| `KernelHeap.Allocator.AllocPages` | src/kernel/arch/x64/memory/vmm.cpp:476-505 | consecutive, previously unmapped pages from the cursor on, in fresh frames, contents of all others kept; no page at all is an error that changes nothing |
| `KernelHeap.Allocator.AllocKernel` | src/kernel/arch/x64/memory/vmm.cpp:525-528 | a contiguous range, disjoint from everything mapped before, with its page count in front; it covers the request if and only if the size with header and rounding fits 64 bits |
| `Common.PagesForCovers` | src/kernel/arch/x64/memory/vmm.cpp:484-485 | the page count covers header and request if and only if the sum does not pass 64 bits, and is at most one otherwise |
| `KernelHeap.Allocator.AllocationSeen` | src/kernel/arch/x64/memory/vmm.cpp:476-505 | each page of an allocation is seen by exactly the user spaces that held the entry of its slot when it was made |
| `KernelHeap.Allocator.FreeKernel` | src/kernel/arch/x64/memory/vmm.cpp:536-556 | unmaps exactly the pages the header counts and frees exactly their frames |
| `KernelHeap.Allocator.AllocThenFree` | src/kernel/arch/x64/memory/vmm.cpp:525-556 | allocating and freeing restores the flat map and loses no frame |
| `KernelHeap.Allocator.KernelHalfAgrees` | src/kernel/arch/x64/memory/vmm.cpp:587-641 | while the heap is inside the slot that init_kheap populated, every user space translates every kernel-half address as the kernel does |
| `KernelHeap.WordRoundTrip` | src/kernel/arch/x64/memory/vmm.cpp:497-501 | the page count survives being stored in a 64-bit word of the first page |
| `KernelHeap.Allocator.MapBeyondShared` | src/kernel/arch/x64/memory/vmm.cpp:303-327 | with the cursor at the first page of a slot that is not populated, the new page translates in the kernel and in no existing user space |
| `KernelHeap.MapUserHeapPage` | src/kernel/arch/x64/memory/vmm.cpp:303-327 | on a process's heap: maps the page at its cursor in that space alone, and loses exactly what was mapped there |
| `KernelHeap.CursorLeavesSlot` | src/kernel/arch/x64/memory/vmm.cpp:119-143 | the cursor does step from the last page of a slot into the next |
| `Slab.ChunksFit` | src/kernel/lib/memory/slab.cpp:71-82 | the chunk counts are what fits behind the header, and one more would not fit |
| `Slab.BlocksDisjoint` | src/kernel/lib/memory/slab.cpp:159-316 | any two blocks in use are disjoint byte ranges |
| `Slab.BlocksAvoidHeaders` | src/kernel/lib/memory/slab.cpp:159-214 | no block reaches into a slab header or a large block's size word |
| `SlabSteps.SlabConserves` | src/kernel/lib/memory/slab.cpp:264-316 | in each slab, live chunks and the free counter add up to its capacity |
| `SlabSteps.ClassConserves` | src/kernel/lib/memory/slab.cpp:264-316 | in each class, live and free chunks add up to the number of slabs times their capacity |
| `SlabSteps.PagesBounded` | src/kernel/lib/memory/slab.cpp:310-315 | a class never holds more pages than live chunks, but for one |
| `SlabSteps.TakeValid` | src/kernel/lib/memory/slab.cpp:277-284 | taking a chunk keeps the allocator's invariant and makes exactly that chunk live |
| `SlabSteps.GiveValid` | src/kernel/lib/memory/slab.cpp:304-308 | giving one back keeps it, makes exactly that chunk free, and the one-byte counter does not wrap |
| `SlabSteps.StoreValid` | src/kernel/lib/memory/slab.cpp:47-51 | whatever an owner writes anywhere into a live chunk does not disturb any free list |
| `SlabLists.NewSlabValid` | src/kernel/lib/memory/slab.cpp:159-214 | a new slab at the head of a class whose slabs are all full keeps the invariant and the live chunks |
| `SlabLists.DestroyValid` | src/kernel/lib/memory/slab.cpp:225-253 | removing a fully free slab at any position rejoins its neighbours and keeps the live chunks |
| `SlabLists.LargeValid` | src/kernel/arch/x64/memory/vmm.cpp:476-505 | a large block at the cursor overlaps no slab and no other block |
| `SlabLists.OwnerWrites` | src/kernel/lib/memory/slab.cpp:47-51 | whatever the owner of any block, chunk or whole pages, writes to any of its words keeps the allocator's invariant and all blocks |
| `Kmalloc.ClassFor` | src/kernel/lib/memory/slab.cpp:121-148 | the smallest class that fits, or none exactly above 1024 bytes |
| `Kmalloc.KernelMemory.constructor` | src/kernel/lib/memory/slab.cpp:76-82 | no class has a slab and no block is in use |
| `Kmalloc.KernelMemory.ThreadChunks` | src/kernel/lib/memory/slab.cpp:174-192 | the new page's chunks form one free list from first to last, and no word below the page changes |
| `Kmalloc.KernelMemory.CreateSlab` | src/kernel/lib/memory/slab.cpp:159-214 | the page at the cursor becomes the first slab of its class |
| `Kmalloc.KernelMemory.DestroySlab` | src/kernel/lib/memory/slab.cpp:225-253 | refuses the only slab of a class, otherwise removes exactly that slab |
| `Kmalloc.KernelMemory.FindSlab` | src/kernel/lib/memory/slab.cpp:266-271 | a slab of the class with a free chunk, or null exactly if all are full |
| `Kmalloc.KernelMemory.SlabAlloc` | src/kernel/lib/memory/slab.cpp:264-285 | adds exactly one block, of the smallest class that fits |
| `Kmalloc.KernelMemory.SlabFree` | src/kernel/lib/memory/slab.cpp:296-316 | removes exactly the given block; a pointer that is not in a slab changes nothing; the slab's page is given back if and only if it was the last live chunk of one of several slabs |
| `Kmalloc.KernelMemory.Trim` | src/kernel/lib/memory/slab.cpp:310-315 | ends with no fully free slab beside others, and the same blocks; gives back that slab's page or none |
| `Kmalloc.KernelMemory.TryGetSlab` | src/kernel/lib/memory/slab.cpp:93-109 | for a block in use: null if it is a large one, otherwise the slab whose live chunk it is |
| `Kmalloc.KernelMemory.Store` | src/kernel/lib/memory/slab.cpp:47-51 | a write by a block's owner to any of its words keeps the allocator and all blocks |
| `Kmalloc.KernelMemory.AllocKernel` | src/kernel/arch/x64/memory/vmm.cpp:476-528 | adds exactly one block of whole pages and maps exactly those pages; a page count of zero changes nothing |
| `Kmalloc.KernelMemory.FreeKernel` | src/kernel/arch/x64/memory/vmm.cpp:536-556 | removes that block and unmaps exactly its pages |
| `Kmalloc.BlockPage` | src/kernel/lib/memory/memory.cpp:28-39 | the first word of a block's page is the slab magic if and only if the block is not a large one |
| `Kmalloc.KernelMemory.KMalloc` | src/kernel/lib/memory/memory.cpp:13-26 | null if and only if the request is empty or its page count wraps to zero; otherwise exactly one new block, which covers the request if and only if size, header and rounding fit 64 bits |
| `Kmalloc.KernelMemory.KFree` | src/kernel/lib/memory/memory.cpp:28-39 | every pointer from kmalloc is removed by the allocator that made it, and nothing else is; a large block's pages are unmapped, a slab's page exactly when its last chunk goes and the class has another |
| `Kmalloc.KernelMemory.Serve` | src/kernel/lib/memory/memory.cpp:13-39 | after any sequence of kmalloc and kfree calls and writes through held pointers, the blocks in use are exactly the pointers still held, all distinct, each covers the size asked for if and only if that fits 64 bits with header and rounding, and the allocator's invariant holds |
| `FlatHeap.MappedAsGains` | src/kernel/arch/x64/memory/vmm.cpp:476-505 | pages mapped at the end of the kernel's heap are exactly what the flat heap gains, with the first words they hold |
| `FlatHeap.UnmappedAsLoses` | src/kernel/arch/x64/memory/vmm.cpp:536-556 | pages unmapped are exactly what it loses |
| `FlatHeap.AllocSeen` | src/kernel/arch/x64/memory/vmm.cpp:525-528 | alloc_kernel on the page tables has the effect on the flat heap that `Kmalloc.KernelMemory.AllocKernel` states, size word included |
| `FlatHeap.FreeSeen` | src/kernel/arch/x64/memory/vmm.cpp:536-556 | free_kernel on the page tables has the effect that `Kmalloc.KernelMemory.FreeKernel` states |
| `MinHeap.InsertCorrect` | src/kernel/include/containers/kmin_heap.hpp:72-88 | insertion keeps heap order and adds exactly one node |
| `MinHeap.PopCorrect` | src/kernel/include/containers/kmin_heap.hpp:90-104 | removal keeps heap order and removes exactly the root |
| `MinHeap.HeapifyCorrect` | src/kernel/include/containers/kmin_heap.hpp:34-54 | repairing downwards restores heap order and permutes the nodes |
| `MinHeap.RootIsLeast` | src/kernel/include/containers/kmin_heap.hpp:65-70 | the root has the least key |
| `MinHeap.DrainSorts` | src/kernel/include/containers/kmin_heap.hpp:90-104 | repeated pops give every node back in key order |
| `MinHeap.KMinHeap.Peak` | src/kernel/include/containers/kmin_heap.hpp:65-70 | in a heap, the value of a node of least key |
| `MinHeap.KMinHeap.Insert` | src/kernel/include/containers/kmin_heap.hpp:72-88 | the upward loop on the node array is the insertion that `InsertCorrect` is about |
| `MinHeap.KMinHeap.MinHeapify` | src/kernel/include/containers/kmin_heap.hpp:34-54 | the recursion on the node array is the repair that `HeapifyCorrect` is about |
| `MinHeap.KMinHeap.Pop` | src/kernel/include/containers/kmin_heap.hpp:90-104 | the in-place removal is the one that `PopCorrect` is about |
| `SchedulerInvariant.WakeFromExact` | src/kernel/lib/scheduler/mechanism/scheduler_mechanism.cpp:84-134 | wake_all, wake_parents and wake_mutex wake exactly the processes blocked on their condition |
| `SchedulerInvariant.WakeFirstExact` | src/kernel/lib/scheduler/mechanism/scheduler_mechanism.cpp:48-78 | wake_single wakes the first blocked process that matches, or nobody if none does |
| `SchedulerInvariant.WakeSleepersExact` | src/kernel/lib/scheduler/mechanism/scheduler_mechanism.cpp:138-155 | wakes exactly the sleepers due at the time read, none early and none left overdue |
| `SchedulerSteps.PickKeeps` | src/kernel/lib/scheduler/mechanism/scheduler_mechanism.cpp:290-301 | hands out the head of the queue, idle only when nobody else is ready, and keeps the invariant |
| `SchedulerSteps.NeverBackToSelf` | src/kernel/lib/scheduler/mechanism/scheduler_mechanism.cpp:362-407 | a dead or zombie process is never chosen again by its own exit |
| `SchedulerSteps.SwitchAwayInv` | src/kernel/lib/scheduler/mechanism/scheduler_mechanism.cpp:544-570 | whoever is chosen next ends up as the only running process |
| `SchedulerSteps.ActivateInv` | src/kernel/lib/scheduler/mechanism/scheduler_mechanism.cpp:201-217 | activating a ready process, or idle, while nobody runs gives a state that satisfies the invariant |
| `SchedulerSteps.RequeueKeeps` | src/kernel/lib/scheduler/mechanism/scheduler_mechanism.cpp:224-235 | putting back who gave up the processor keeps the queue equal to the ready processes; idle is never in it |
| `SchedulerSteps.YieldDeadInv` | src/kernel/lib/scheduler/mechanism/scheduler_mechanism.cpp:362-382 | keeps the invariant, and its assertion that another process was chosen holds |
| `SchedulerSteps.ExitWakesParents` | src/kernel/lib/scheduler/mechanism/scheduler_mechanism.cpp:116-134 | waking everyone who waits for the exiting pid leaves nobody waiting in vain |
| `SchedulerSteps.YieldZombieInv` | src/kernel/lib/scheduler/mechanism/scheduler_mechanism.cpp:389-407 | keeps the invariant, and its assertion that another process was chosen holds |
| `SchedulerSteps.FindChildIn` | src/kernel/lib/scheduler/mechanism/scheduler_mechanism.cpp:170-195 | finds a matching zombie whenever there is one, else some matching child, and nothing only if there is none |
| `SchedulerSteps.WaitStepInv` | src/kernel/lib/scheduler/mechanism/scheduler_mechanism.cpp:415-452 | one round of waiting keeps the invariant: nobody blocks beside a child that already exited |
| `SchedulerSteps.BlockInv` | src/kernel/lib/scheduler/mechanism/scheduler_mechanism.cpp:493-570 | sleeping and blocking keep the invariant, also when the sleeper is already due |
| `SchedulerSteps.BlockOnChildExact` | src/kernel/lib/scheduler/mechanism/scheduler_mechanism.cpp:544-570 | blocking for the child reason loses no exit if and only if no matching child is a zombie |
| `SchedulerSteps.PreemptInv` | src/kernel/lib/scheduler/mechanism/scheduler_mechanism.cpp:305-355 | preemption keeps the invariant |
| `SchedulerSteps.PreemptExact` | src/kernel/lib/scheduler/mechanism/scheduler_mechanism.cpp:305-355 | a process loses the processor if and only if preemption is enabled and its time slice is over, and is then last in the queue; idle gives way if and only if somebody is ready |
| `SchedulerSteps.YieldNewInv` | src/kernel/lib/scheduler/mechanism/scheduler_mechanism.cpp:582-599 | keeps the invariant, and its assertion that another process was chosen holds |
| `SchedulerSteps.ExecInv` | src/kernel/lib/process/process.cpp:251-257 | exec of the current process keeps the invariant |
| `SchedulerSteps.AddInv` | src/kernel/lib/scheduler/mechanism/scheduler_mechanism.cpp:605-613 | adding a process keeps the invariant |
| `SchedulerSteps.SurvivorsExact` | src/kernel/lib/scheduler/mechanism/scheduler_mechanism.cpp:239-265 | reaping keeps exactly the processes that are not dead, each once |
| `SchedulerSteps.SurvivorsInOrder` | src/kernel/lib/scheduler/mechanism/scheduler_mechanism.cpp:239-265 | and keeps them in the order of the list |
| `SchedulerSteps.ReapInv` | src/kernel/lib/scheduler/mechanism/scheduler_mechanism.cpp:239-265 | no deleted process is queued, asleep or current |
| `SchedulerSteps.NextKeepsInv` | src/kernel/lib/scheduler/mechanism/scheduler_mechanism.cpp:48-623 | every step keeps the whole invariant: queue, sleepers, one running process, no lost exit |
| `SchedulerRuns.AlwaysInv` | src/kernel/lib/scheduler/mechanism/scheduler_mechanism.cpp:48-633 | the invariant holds in every state of every run from boot |
| `SchedulerRuns.NextEffect` | src/kernel/lib/scheduler/mechanism/scheduler_mechanism.cpp:362-452 | no step changes an exited process, except the wait that collects it or the reaping of a dead one |
| `SchedulerRuns.FinishedForEver` | src/kernel/lib/scheduler/mechanism/scheduler_mechanism.cpp:362-407 | over every run, a dead process is never queued, asleep or current again |
| `SchedulerRuns.ExitIsOneWay` | src/kernel/lib/scheduler/mechanism/scheduler_mechanism.cpp:362-407 | over every run, a process that exited stays a zombie, dead or deleted, and is never queued, asleep or current again |
| `SchedulerRuns.ExitMakesZombie` | src/kernel/lib/scheduler/mechanism/scheduler_mechanism.cpp:389-407 | exit leaves the caller a zombie with the given status and the same parent |
| `SchedulerRuns.ExitIsReported` | src/kernel/lib/scheduler/mechanism/scheduler_mechanism.cpp:389-452 | over every run after an exit, the process stays a zombie or a wait of its own parent has collected it, and that wait returned the status given to exit |
| `SchedulerRuns.ZombieUntilCollected` | src/kernel/lib/scheduler/mechanism/scheduler_mechanism.cpp:389-452 | over every run, a zombie stays listed unchanged until a wait of its own parent collects it, and that wait returns its exit status |
| `SchedulerRuns.CollectedOnce` | src/kernel/lib/scheduler/mechanism/scheduler_mechanism.cpp:415-452 | over every run, each exit is returned by at most one wait |
| `SchedulerWaits.BlockedStays` | src/kernel/lib/scheduler/mechanism/scheduler_mechanism.cpp:48-623 | no step changes a blocked process unless it wakes the reason, mutex or child that the process waits for |
| `SchedulerWaits.BlockedUntilWoken` | src/kernel/lib/scheduler/mechanism/scheduler_mechanism.cpp:48-623 | over every run, a blocked process keeps its state, reason and all until such an event |
| `SchedulerWaits.SecondWaitBlocks` | src/kernel/lib/scheduler/mechanism/scheduler_mechanism.cpp:170-195 | a wait for one child blocks on a child that is already collected if and only if that child is dead and not yet reaped |
| `SchedulerWaits.WaitsForEver` | src/kernel/lib/scheduler/mechanism/scheduler_mechanism.cpp:415-452 | over every run without a wake-up for the child reason, which nothing in the kernel sends, such a wait never ends, not even when the child is reaped |
| `SchedulerWaits.OrphanStays` | src/kernel/lib/scheduler/mechanism/scheduler_mechanism.cpp:239-265 | over every run, a zombie without a parent, or whose parent is dead or deleted, stays a zombie and is never freed |
| `SchedulerRuns.PickedInTurn` | src/kernel/lib/scheduler/policy/round_robin.cpp:12-39 | over every run, the process at queue position k is returned by exactly the (k+1)-th pick from then, and stays queued until then |
| `Mechanism.Mechanism.constructor` | src/kernel/lib/scheduler/mechanism/scheduler_mechanism.cpp:625-633 | the state after boot, before the first kernel thread is added, satisfies the invariant |
| `Mechanism.Mechanism.Enqueue` | src/kernel/lib/scheduler/policy/round_robin.cpp:12-16 | the process is last in the queue and in its history |
| `Mechanism.Mechanism.PickNext` | src/kernel/lib/scheduler/policy/round_robin.cpp:29-39 | removes and returns the head, or nothing if the queue is empty |
| `Mechanism.Mechanism.WakeMatching` | src/kernel/lib/scheduler/mechanism/scheduler_mechanism.cpp:84-134 | the loop over the list wakes exactly what matches, in list order |
| `Mechanism.Mechanism.WakeSingle` | src/kernel/lib/scheduler/mechanism/scheduler_mechanism.cpp:48-78 | the in-place call equals its step: SLEEP is refused, otherwise the first process that matches becomes ready and queued; the invariant is kept |
| `Mechanism.Mechanism.WakeAll` | src/kernel/lib/scheduler/mechanism/scheduler_mechanism.cpp:84-112 | equals its step: every process blocked for the reason becomes ready and is queued once; the invariant is kept |
| `Mechanism.Mechanism.WakeMutex` | src/kernel/lib/scheduler/mechanism/scheduler_mechanism.cpp:504-528 | equals its step: every process blocked on this mutex becomes ready and is queued once; the invariant is kept |
| `Mechanism.Mechanism.WakeSleepers` | src/kernel/lib/scheduler/mechanism/scheduler_mechanism.cpp:138-155 | popping the heap while its root is due wakes exactly the due sleepers |
| `Mechanism.Mechanism.PickNextProcess` | src/kernel/lib/scheduler/mechanism/scheduler_mechanism.cpp:290-301 | the head of the queue after waking due sleepers, or idle; never a dangling process |
| `Mechanism.Mechanism.Tick` | src/kernel/lib/scheduler/mechanism/scheduler_mechanism.cpp:615-623 | equals its step: due sleepers are woken, then at most one switch happens; the invariant is kept |
| `Mechanism.Mechanism.Preempt` | src/kernel/lib/scheduler/mechanism/scheduler_mechanism.cpp:305-355 | a process that is not idle loses the processor if and only if preemption is enabled and its time slice is over, and is then last in the queue |
| `Mechanism.Mechanism.YieldDead` | src/kernel/lib/scheduler/mechanism/scheduler_mechanism.cpp:362-382 | equals its step; another process is current afterwards, and the invariant is kept |
| `Mechanism.Mechanism.YieldZombie` | src/kernel/lib/scheduler/mechanism/scheduler_mechanism.cpp:389-407 | equals its step: status recorded, waiting parents woken, another process current; the invariant is kept |
| `Mechanism.Mechanism.FindChild` | src/kernel/lib/scheduler/mechanism/scheduler_mechanism.cpp:170-195 | the loop returns a matching zombie first, else the first match |
| `Mechanism.Mechanism.YieldToChild` | src/kernel/lib/scheduler/mechanism/scheduler_mechanism.cpp:415-452 | one round equals its step: no child, the collected status, or blocked until woken; the invariant is kept |
| `Mechanism.Mechanism.YieldSleep` | src/kernel/lib/scheduler/mechanism/scheduler_mechanism.cpp:493-500 | equals its step: the sleeper is in the heap under its deadline, or runs on if already due; the invariant is kept |
| `Mechanism.Mechanism.YieldMutex` | src/kernel/lib/scheduler/mechanism/scheduler_mechanism.cpp:532-538 | equals its step: blocked on that mutex; the invariant is kept |
| `Mechanism.Mechanism.YieldBlocked` | src/kernel/lib/scheduler/mechanism/scheduler_mechanism.cpp:544-570 | equals its step: blocked for the reason; the invariant is kept |
| `Mechanism.Mechanism.ExecCurrent` | src/kernel/lib/process/process.cpp:251-257 | equals its step: the current process counts as new; the invariant is kept |
| `Mechanism.Mechanism.YieldNewProcess` | src/kernel/lib/scheduler/mechanism/scheduler_mechanism.cpp:582-599 | equals its step: the replaced process is queued and another one is current; the invariant is kept |
| `Mechanism.Mechanism.Fork` | src/kernel/lib/process/process.cpp:298-333 | equals its step: a new child of the current process, in state NEW, is listed and queued; the invariant is kept |
| `Mechanism.Mechanism.AddKThread` | src/kernel/lib/scheduler/mechanism/scheduler_mechanism.cpp:605-613 | equals its step: a new process without parent is listed and queued; the invariant is kept |
| `Mechanism.Mechanism.Reap` | src/kernel/lib/scheduler/mechanism/scheduler_mechanism.cpp:239-265 | equals its step: exactly the dead processes are gone, and none of them was in use; the invariant is kept |
| `Mechanism.Mechanism.ReapAll` | src/kernel/lib/scheduler/mechanism/scheduler_mechanism.cpp:245-262 | the loop that erases while it walks removes exactly the dead processes, in spite of the index that wraps through zero |
| `Mechanism.NextIndex` | src/kernel/lib/scheduler/mechanism/scheduler_mechanism.cpp:245-261 | stepping the unsigned index back and forward again is the identity, also at zero |
| `KList.ReversedTwice` | src/kernel/include/containers/klist.hpp:167-183 | reversing twice is the identity |
| `KList.RotateBack` | src/kernel/include/containers/klist.hpp:312-324 | the two rotations undo each other |
| `KList.RingErased` | src/kernel/include/containers/klist.hpp:32-53 | bypassing one node of a ring leaves a ring of the others |
| `KList.RingTurned` | src/kernel/include/containers/klist.hpp:167-183 | swapping both pointers of every node leaves the ring of the reversed list |
| `KList.KList.constructor` | src/kernel/include/containers/klist.hpp:56-60 | the empty list |
| `KList.KList.PushBack` | src/kernel/include/containers/klist.hpp:245-268 | appends one element; the ring stays well-formed |
| `KList.KList.PushFront` | src/kernel/include/containers/klist.hpp:219-243 | prepends one element |
| `KList.KList.RemoveNode` | src/kernel/include/containers/klist.hpp:32-53 | removes exactly the given position, and says whether it did |
| `KList.KList.At` | src/kernel/include/containers/klist.hpp:145-165 | the element at the position, going round the ring past the end |
| `KList.KList.Front` | src/kernel/include/containers/klist.hpp:139-140 | the first element |
| `KList.KList.Back` | src/kernel/include/containers/klist.hpp:142-143 | the last element |
| `KList.KList.Erase` | src/kernel/include/containers/klist.hpp:185-198 | removes exactly that position, or nothing past the end |
| `KList.KList.Remove` | src/kernel/include/containers/klist.hpp:200-217 | removes the first equal element, and only if there is one |
| `KList.KList.PopFront` | src/kernel/include/containers/klist.hpp:270-290 | drops the first element; an empty list stays empty |
| `KList.KList.PopBack` | src/kernel/include/containers/klist.hpp:292-310 | drops the last element; an empty list stays empty |
| `KList.KList.RotateNext` | src/kernel/include/containers/klist.hpp:312-317 | the first element becomes the last |
| `KList.KList.RotatePrev` | src/kernel/include/containers/klist.hpp:319-324 | the last element becomes the first |
| `KList.KList.Reverse` | src/kernel/include/containers/klist.hpp:167-183 | the contents in reverse |
| `KList.KList.Clear` | src/kernel/include/containers/klist.hpp:326-331 | empties the list |
| `Tokens.JoinTokenize` | src/kernel/lib/algo/algo.cpp:65-92 | joining what tokenize cut gives every string back |
| `Tokens.TokenizeJoin` | src/kernel/include/algo/algo.hpp:31-49 | cutting what was joined gives the parts back if and only if they are not the single empty part |
| `Tokens.SplitPath` | src/kernel/lib/fs/fs.cpp:122-127 | a slash followed by joined names splits into those names |
| `Tokens.Split` | src/kernel/lib/algo/algo.cpp:5-33 | tokenize with the empty parts removed |
| `Tokens.Tokenize` | src/kernel/lib/algo/algo.cpp:65-92 | all parts between delimiters, none for the empty string |
| `Tokens.Join` | src/kernel/include/algo/algo.hpp:31-49 | the parts with one delimiter between each two |
| `Vfs.LookupChild` | src/kernel/lib/fs/tmpfs/tmpfs.cpp:131-142 | every child of a well-formed directory is found under its own name |
| `Vfs.NameThenUp` | src/kernel/lib/fs/fs.cpp:89-117 | stepping into a name and then ".." returns to the start, across mount points too |
| `Vfs.StepVisible` | src/kernel/lib/fs/fs.cpp:89-117 | resolution never leads to an inode hidden below a mount |
| `Vfs.NormalForm` | src/kernel/lib/fs/fs.cpp:73-127 | an absolute path that resolves leads to the same inode as its form without dots |
| `Vfs.CwdResolves` | src/kernel/lib/fs/fs.cpp:47-60 | whatever path led to a directory, getcwd gives the normal form of that path, and resolving it leads back |
| `Vfs.ReachableExactly` | src/kernel/lib/fs/fs.cpp:73-127 | the text of some absolute path leads to an inode if and only if no mount hides it and no name on its way up is a dot name or holds a slash |
| `VfsOps.ChildKeeps` | src/kernel/lib/fs/tmpfs/tmpfs.cpp:155-181 | a new child under a fresh name keeps the tree well-formed |
| `VfsOps.NamesKept` | src/kernel/lib/fs/fs.cpp:200-220 | names stay spellable if and only if the new one is no dot name and has no slash |
| `VfsOps.DotNeverResolves` | src/kernel/lib/fs/fs.cpp:89-103 | no path leads to a new directory called "." or ".." |
| `VfsOps.SlashNeverResolves` | src/kernel/lib/fs/fs.cpp:73-127 | no path text leads to a new child whose name holds a slash |
| `VfsOps.PathsKept` | src/kernel/lib/fs/fs.cpp:200-220 | every path that led somewhere before a mkdir still leads there |
| `VfsOps.NewChildFound` | src/kernel/lib/fs/fs.cpp:200-220 | the path given to mkdir leads to the new directory |
| `VfsOps.MountKeeps` | src/kernel/lib/fs/fs.cpp:143-150 | mounting on what a path resolves to keeps the tree well-formed |
| `VfsOps.MountCovers` | src/kernel/lib/fs/fs.cpp:62-71 | mounting changes exactly the steps onto the covered inode, and none if it is itself a root |
| `VfsOps.FileSystem.constructor` | src/kernel/lib/fs/fs.cpp:129-141 | a root file system registered first, with nothing in it yet |
| `VfsOps.FileSystem.Lookup` | src/kernel/lib/fs/tmpfs/tmpfs.cpp:131-142 | the first child of that name |
| `VfsOps.FileSystem.FindMountAt` | src/kernel/lib/fs/fs.cpp:62-71 | the first mount registered on the inode |
| `VfsOps.FileSystem.ResolveTokens` | src/kernel/lib/fs/fs.cpp:73-120 | the loop follows the tokens one by one from the root or the working directory, and ends on a visible inode |
| `VfsOps.FileSystem.ResolvePath` | src/kernel/lib/fs/fs.cpp:122-127 | the same for the non-empty parts of a path |
| `VfsOps.FileSystem.GetCwd` | src/kernel/lib/fs/fs.cpp:47-60 | a slash and the names on the way up, joined; roots are skipped |
| `VfsOps.FileSystem.CwdLeadsBack` | src/kernel/lib/fs/fs.cpp:47-127 | resolving an absolute path, taking getcwd there and resolving that again gives the same result |
| `VfsOps.FileSystem.AddChild` | src/kernel/lib/fs/tmpfs/tmpfs.cpp:155-181 | adds a child exactly if the name is not taken |
| `VfsOps.FileSystem.Mkdir` | src/kernel/lib/fs/fs.cpp:200-220 | succeeds if and only if the parent resolves to a directory without that name, and otherwise changes nothing |
| `VfsOps.FileSystem.MountEmpty` | src/kernel/lib/fs/fs.cpp:143-150 | a new root whose parent is what the path resolved to |
| `Initramfs.InsertExactly` | src/kernel/lib/fs/initramfs/initramfs.cpp:93-128 | inserting an entry keeps the tree well-formed if and only if its path led to nothing before |
| `Initramfs.PathSurvives` | src/kernel/lib/fs/initramfs/initramfs.cpp:93-128 | every path that led somewhere still leads to the same inode, also when the entry is a duplicate |
| `Initramfs.InsertFound` | src/kernel/lib/fs/initramfs/initramfs.cpp:93-128 | the new inode is found under its path if and only if nothing was there before; otherwise the older one still is |
| `Initramfs.InsertInode` | src/kernel/lib/fs/initramfs/initramfs.cpp:93-128 | the loop that enters or makes the directories on the way, then appends the last name, computes exactly that tree |
| `Line.CloseIsNearest` | src/kernel/lib/framebuffer/framebuffer.cpp:180-195 | being within half a pixel, ties below, determines the pixel |
| `Line.RoundStep` | src/kernel/lib/framebuffer/framebuffer.cpp:186-195 | one round of the decision variable picks the closer of the two next pixels |
| `Line.HalfPixel` | src/kernel/lib/framebuffer/framebuffer.cpp:162-237 | every plotted pixel is at most half a pixel from the ideal line |
| `Line.XPixelInBox` | src/kernel/lib/framebuffer/framebuffer.cpp:162-198 | plotted pixels lie in the end points' box, the first is the start, and the end point is one step further |
| `Line.YPixelInBox` | src/kernel/lib/framebuffer/framebuffer.cpp:200-237 | the same along the other axis |
| `Line.Framebuffer.DrawXDominantLine` | src/kernel/lib/framebuffer/framebuffer.cpp:162-198 | paints exactly the nearest pixel for each step in x, and no other |
| `Line.Framebuffer.DrawYDominantLine` | src/kernel/lib/framebuffer/framebuffer.cpp:200-237 | paints exactly the nearest pixel for each step in y, and no other |
| `Line.Framebuffer.DrawLine` | src/kernel/lib/framebuffer/framebuffer.cpp:239-254 | one pixel per step of the longer axis, for all end points inside the screen |
| `Clock.SplitFloor` | src/kernel/arch/x64/drivers/tsc/tsc.cpp:93-99 | converting whole seconds and the rest apart is the exact floor of the product |
| `Clock.RemainderFits` | src/kernel/arch/x64/drivers/tsc/tsc.cpp:93-99 | the remainder's product fits 64 bits for every time if and only if the frequency is at most 18446744092 |
| `Clock.NsToTicksExact` | src/kernel/arch/x64/drivers/tsc/tsc.cpp:93-99 | the result is the exact floor, modulo 2^64, for every time |
| `Clock.NsToTicksMonotone` | src/kernel/arch/x64/drivers/tsc/tsc.cpp:93-99 | up to a given time, later times give no fewer ticks if and only if that time's tick count fits 64 bits |
| `Clock.CyclesFit` | src/kernel/arch/x64/drivers/tsc/tsc.cpp:60-67 | the remainder's product fits 64 bits for every tick count if and only if the frequency is at most 18446744074 |
| `Clock.TicksToNsExact` | src/kernel/arch/x64/drivers/tsc/tsc.cpp:60-67 | the result is the exact floor, modulo 2^64, for every tick count |
| `Clock.TicksMonotone` | src/kernel/arch/x64/drivers/tsc/tsc.cpp:60-67 | up to a given counter value, later values give no earlier time if and only if that value's time fits 64 bits |
| `Clock.TimeMonotone` | src/kernel/arch/x64/drivers/tsc/tsc.cpp:60-67 | with a counter of at least 1 GHz the clock never runs backwards, for every counter value since boot |
| `Clock.RoundTrip` | src/kernel/arch/x64/drivers/tsc/tsc.cpp:60-99 | at 1 GHz or more, a time survives the way to ticks and back up to one nanosecond |
| `Clock.DeadlineTime` | src/kernel/arch/x64/drivers/tsc/tsc.cpp:101-104 | a deadline in raw ticks is within a nanosecond of its time |
| `Numbers.AtMost64` | src/kernel/include/fmt/fmt.hpp:142-152 | no 64-bit number has more than 64 digits in any format |
| `Numbers.GroupsOfFour` | src/kernel/include/fmt/fmt.hpp:99-105 | prefixed numbers have a digit count that is a multiple of four |
| `Numbers.ValueOfText` | src/kernel/include/fmt/fmt.hpp:123-166 | reading the digits of a number gives the number, plus seven per hexadecimal letter at its place |
| `Numbers.RoundTrip` | src/kernel/include/fmt/fmt.hpp:270-281 | reading a number's text gives it back if and only if the letters' excess is zero, which it is in every format but hexadecimal |
| `Numbers.ExcessIsLetters` | src/kernel/include/fmt/fmt.hpp:107-121 | that excess is zero if and only if the digits contain no letter |
| `Numbers.WriteThenRead` | src/kernel/include/fmt/fmt.hpp:123-281 | what parse_uint reads from the buffer that to_string filled is the number, if and only if the format is not hexadecimal or no digit is a letter |
| `Numbers.SignedIsText` | src/kernel/include/fmt/fmt.hpp:168-219 | signed text is the sign and the magnitude if and only if the number is not negative or the format is decimal |
| `Numbers.ParseUint` | src/kernel/include/fmt/fmt.hpp:270-281 | the value of the characters up to NUL, modulo 2^64 |
| `Numbers.CollectDigits` | src/kernel/include/fmt/fmt.hpp:142-152 | the digits backwards, within the 64-character scratch buffer |
| `Numbers.Insert` | src/kernel/include/fmt/fmt.hpp:74-97 | pads at a position and moves the rest right, inside the buffer |
| `Numbers.PadZero` | src/kernel/include/fmt/fmt.hpp:99-105 | inserts the zeros missing to a multiple of four at position two |
| `Numbers.ToString` | src/kernel/include/fmt/fmt.hpp:123-166 | the buffer holds the number's text and a terminator, without overrun |
| `Numbers.ToStringSigned` | src/kernel/include/fmt/fmt.hpp:168-219 | the buffer holds the signed text and a terminator, without overrun |

## Left out

- Boot-time frame accounting (`add_free_memory`, `set_addr_free`): the frame allocator starts from any bitmap, cursor and counter, and its claims are about what calls change.
- Panics on memory exhaustion: they are a result `None` or `false`, after which the invariants still hold. In `Kmalloc.dfy` page allocation always succeeds.
- Vmm.AddressSpaces.MapPageToFrame: covers user-half pages and the kernel's heap, with frames the allocator handed out, which is how its one caller uses it; other kernel-half mappings are part of the initial state.
- Vmm.AddressSpaces.MapPages: covers ranges inside the user half with at least one byte, as all its callers give.
- Vmm.AddressSpaces.MapRange: as `MapPages`.
- Vmm.AddressSpaces.UnmapPage: frames above the allocator's bitmap are excluded, for which the source indexes past its end.
- PageTables.NoSharedFrames: says nothing about two mappings of one device frame, which `map_phys` allows.
- Vmm.AddressSpaces.CloneTable: the four nested loops of the source are one method that calls itself per level; order of allocation and result are the same.
- KernelHeap.Allocator.MapHeapPage: ends where the boot loader's own slots begin (`heapEnd`); the source has no check there.
- KernelHeap.MapUserHeapPage: is one page of `sys_mmap`; its loop and size word are those of `AllocPages`.
- Kmalloc.KernelMemory.AllocKernel: works on a flat heap whose cursor only moves for kmalloc's own pages; pages that others take from the kernel heap in between are left out. `FlatHeap.dfy` ties its effect to the page tables.
- Kmalloc.KernelMemory.KMalloc: a page count of zero stops the kernel in the source and returns null here.
- Kmalloc.KernelMemory.Store: writes whole words at offsets that are multiples of eight.
- Process records are values in a table keyed by pid, so a parent pointer is a pid; reading the pid of a parent that was already deleted gives its old pid.
- Scheduler steps are the critical sections of the process lock on one processor. `yield_sleep_ns` and `yield_mutex` change the state before they take the lock; the model makes each one step. `context_switch` only changes which process is current.
- Mechanism.Mechanism.YieldToChild: is one round of the source's endless loop; that wait eventually returns is not claimed.
- Mechanism.Mechanism.YieldBlocked: excludes the child reason, which the source only uses through `yield_to_child`; `BlockOnChildExact` states when it would be safe. The idle process, which only halts, calls none of the yields.
- Mechanism.Mechanism.Reap: assumes fewer than 2^64 listed processes.
- The wait pid of a new process, which the constructor leaves unset, is taken to be "any child".
- Mutex progress, spinlocks, memory barriers and several processors.
- KList.KList.RemoveNode: deleted nodes leave the ring; that their memory is given back is not modelled, and neither are copy and move construction.
- VfsOps.FileSystem.constructor: makes the empty root; the source fills it from an archive with `Initramfs.InsertInode` before any path is resolved. When an entry of the archive is a duplicate, the tree has two siblings of one name and the theorems about well-formed trees do not apply to it.
- Initramfs.InsertInode: excludes paths without any name, for which the source counts below zero, and a file in the place of a directory on the way, which the source casts unchecked; reading the archive's headers is left out.
- VfsOps.FileSystem.MountEmpty: the mounted file system is an empty tmpfs; the fixed trees of devfs and procfs are left out, as are file contents and descriptors.
- VfsOps.FileSystem.Mkdir: a path without any name is excluded, for which the source reads the last element of an empty vector; names are compared as whole strings, without a terminator inside.
- Line.Framebuffer.DrawLine: pixels are cells of a two-dimensional array, colour channels and byte offsets are left out, and coordinates do not overflow.
- Not modelled: join over a `klist`, `kmax_heap` (the mirror image of the heap modelled), growth and copying of `kvector` and `kstring`, and the reference counts of the smart pointers.
- Assembly, MSRs, TLB, interrupts, drivers, ACPI, console, ELF loading and system call wrappers.
