# A verified model of the kernel's memory, files and queues

This project models the parts of the kernel that keep intricate state and proves, for every
input and every run, what they keep. The files build on each other in this order.

**Physical memory** (`kernel/src/memory.c`). `Dyadic` has the arithmetic of aligned indices and
the exclusive-or of buddies, `IntrusiveLists` the doubly linked lists threaded through frame
descriptors, `Blocks` and `Carving` the theory of partitions into aligned blocks, `PageFrames`
the conversions. `BuddySystem.Buddies` is the allocator itself over arrays of descriptors. Its
invariant says that every frame is reserved, in one free block or in one live block, that list
k holds exactly the free blocks of order k, and that no two free blocks are buddies that could
be merged. The last clause makes the free blocks a canonical form: they are the maximal aligned
runs of free frames and nothing else. That first fit is complete, that freeing undoes
allocating, and that freeing everything leads back to the state of boot all follow from it.
`KernelHeap.Heap` adds pages cut into chunks with bitmaps, counters and class lists, and the
front end. `HeapRuns` states what holds over whole runs, from reserving ranges and booting
through any operations (`HeapRuns.Lifetime`).

**Address spaces** (`kernel/src/mmu.c`, `mmap` in `kernel/src/syscall.c`). The descriptor format
is that of the VMSAv8-64 translation tables, section D5.3 of the Arm Architecture Reference
Manual DDI 0487 (D8.3 in later issues). `PageTree` relates tables in memory to a flat map from
page numbers to descriptors, and `PageTables.AddressSpace` maps pages into tables that come from the heap and
tears them down again; how many frames that takes is counted exactly, by the tables that are
missing. `AreaMaps` and `AreaLists` have the areas of a process and the list that links them,
`VirtualMemory.Process` faults, placement and process exit. Its invariant says that every area
that was given memory has its own. `FirstTouches` says what the first access to an area maps.
`Isolation` puts processes side by side on one heap: whatever one of them does, from its creation
to its end, the other keeps its tables, areas, memory and walks. `Protection` says when what a
process can reach is the memory of its own areas, and which operations keep it so.

**Files** (`kernel/src/vfs.c`, `kernel/src/tmpfs.c`). `Paths` is the path normaliser against
resolution on a stack of components. `FileTree` says what a path means across mounts and how
mounting and creating change that; `Vfs.FileSystem` is the code on linked nodes.

**Formats** (`kernel/src/cpio.c`, `kernel/src/initramfs.c`, `kernel/src/dtb.c`,
`kernel/src/utils.c`). `Cpio` is the "New ASCII Format" of cpio(5) and the loop that reads an
archive, `Words` alignment and byte order, `DeviceTree` the walk through the structure block of
the Devicetree Specification, sections 5.4 and 5.5, with the token numbers of the kernel and those of
the specification. For both formats there is an encoder, and
the reader recovers what was encoded. `InitialRamDisk` mounts an archive: what paths below the
mount point lead to is told by the bytes of the archive.

**Queues** (`kernel/src/irqtask.c`, `kernel/src/timer.c`). `SentinelLists` has the sorted linked
list between two sentinels. `TaskMachine` is a machine whose steps are the atomic sections of
the preemptive queue, with arrivals and nested runs between any two of them, and
`IrqTasks.Tasks` is the code in step with it. `Timers` is the timer queue with callbacks that
add timers.

## Main results

- Allocation over whole runs from boot: `HeapRuns.Lifetime`, with `Blocks.SameFramesSameBlocks` and
  `Blocks.FreeBlocksAreMaximalRuns` behind it, and `KernelHeap.Heap.KFree` for what a release does.
- Translation tables: `PageTables.AddressSpace.MapPages` and `PageTables.AddressSpace.FreeAllTables`
  against the walk of the hardware, `PageTree.WalkIsEntry`.
- Demand paging: `VirtualMemory.Process.Faults` is eager mapping with each area's access rights,
  `AreaMaps.FaultAgreesIff` says where.
- Placement: `VirtualMemory.Process.Mmap` finds the least gap, `FirstTouches.TouchAfterMmap` says
  what touching it does.
- Processes: `Isolation.Undisturbed` with one theorem for each operation, `Protection.OnlyOwnMemory`.
- Paths: `Paths.ScanIsNormal`, `Paths.TwoStepsAgreeIff`; mounting: `FileTree.MountedNewIs`; making:
  `FileTree.MadeIsNamed`; from archives to paths: `InitialRamDisk.MountArchive`.
- Formats: `Cpio.RamDisk.SetupMount`, `DeviceTree.Traverse`.
- Queues: `TaskMachine.AlwaysSafe`, `TaskMachine.SettleDoesAll` and `IrqTasks.Tasks.RunPreemptive`;
  `Timers.AlwaysSafe`, `Timers.FiresEarliest` and `Timers.TimerQueue.Handler`.

## What is not as one might expect

Some properties fail for the code as it stands. Each has an exact condition or a concrete case.

- The table of chunk sizes has ten slots and nine values, so the threshold of `kmalloc` is zero:
  every request of at least one byte is met from whole blocks (`KernelHeap.Heap.KMalloc`).
- The order computed for a request is enough if and only if the request is at most 2^32 - 4096
  bytes, because the rounding is done in 32 bits (`PageFrames.OrderSuffices`).
- A whole block is freed through any address that leads to its first frame, and since the index
  is cut to 32 bits addresses 2^44 bytes apart lead to the same frame (`PageFrames.AddressOfIndex`,
  `PageFrames.Aliased`, `KernelHeap.Heap.KFree`, `HeapRuns.FreeThroughOtherAddress`); chunks are
  freed through their own address only.
- An empty reservation at an address inside a frame reserves that frame
  (`PageFrames.ReservedFramesAreTouched`).
- `mmap` passes its length through the 32-bit parameter of `kmalloc`: the memory is as long as the
  area if and only if the length, rounded up to pages, is below 2^32 (`VirtualMemory.Process.Mmap`,
  `VirtualMemory.Process.MmapTooLong`).
- The bounds of an area are both inclusive in the fault handler; the exact condition is
  `AreaMaps.FaultAgreesIff`, a case where it fails is `AreaMaps.FaultAtEnd`. In the areas that a
  process starts with it fails at three addresses (`FirstTouches.ExecAgreesIff`).
- Touching the address that `mmap` returned can map a page behind another area's memory: it does
  whenever an area listed earlier ends there and the memory of the first such does not go on into
  the new one (`FirstTouches.TouchAfterMmap`). With hint 0 that happens behind the program
  (`FirstTouches.MmapBehindProgram`).
- A fault at the end of an area can map a frame that is not the process's
  (`Protection.GuardedFault`, `Protection.EndEscapes`).
- `exec` gives back the areas before it tears the tables down, so in between pages are mapped to
  memory that is not the process's any more (`Protection.GuardedDelete`).
- Resolving a path in two steps can differ from resolving it joined when the first step ends in
  an empty component, as after a trailing slash. It does not when the second step climbs above all
  that the first led to, or stops at a first component that is empty; in all other cases it does
  (`Paths.TwoStepsAgreeIff`, `Paths.TwoStepsExamples`).
- A task of priority 9999 or more never starts, because only tasks more urgent than the
  idle level do (`TaskMachine.SettleDoesAll`, `TaskMachine.NeverStarts`).
- Files of an archive whose names contain a slash are listed but no path leads to them
  (`InitialRamDisk.SlashIsUnreachable`, `InitialRamDisk.MountSlash`).
- The device tree reader takes 0 for the end token and 9 for no operation, and passes over every
  other word it does not know; section 5.4.1 of the Devicetree Specification has 9 for the end and
  4 for no operation. So the reader runs on behind the end of a blob of the specification. It
  still reports exactly the tree if what follows has no word 1 or 3 up to a zero word or the
  size (`DeviceTree.SpecTree`, `DeviceTree.TraverseExample`).
- Mounting on the empty path succeeds and has no effect, since lookup never redirects at the
  root itself (`FileTree.MountTakesEffectIff`).
- `vfs_mkdir` reports success also when the directory refuses the entry, which it does unless
  `FileTree.Accepts` holds (`FileTree.TakesIff`, `Vfs.MkdirTwice`, `Vfs.MkdirRefused`).

## Model
| member | source | states |
|---|---|---|
| `Dyadic.BuddyCases` | kernel/src/memory.c:217 | for an index aligned to its order, the exclusive-or with one bit is plus or minus the block length, an involution, and whichever of the two is lower is aligned to the next order |
| `Dyadic.Halves` | kernel/src/memory.c:162-169 | the two halves of an aligned block are aligned and each other's buddy, so the split computes the upper half and its corruption branch cannot be taken |
| `Dyadic.Nested` | kernel/src/memory.c:92-121 | two aligned runs that meet are nested: naturally aligned blocks never overlap partially |
| `IntrusiveLists.Links.PushFront` | kernel/src/memory.c:340-346 | the node heads exactly the list asked for, and all other lists are as before |
| `IntrusiveLists.Links.PopFront` | kernel/src/memory.c:131-140 | the first node leaves its list, and all other lists are as before |
| `IntrusiveLists.Links.Unlink` | kernel/src/memory.c:242-258 | the node leaves its list whatever its position; the branch that reports corruption is never reached |
| `IntrusiveLists.Links.Count` | kernel/src/memory.c:793-803 | the traversal ends and counts every node of the list once: lists are finite and acyclic |
| `Blocks.FreeBlocksAreMaximalRuns` | kernel/src/memory.c:92-121 | in canonical form a block is free exactly if it is a maximal aligned run of free frames (or one of the largest order) |
| `Blocks.SameFramesSameBlocks` | kernel/src/memory.c:219-346 | two canonical states with the same free frames have the same free blocks at every order |
| `Blocks.RunInOneBlock` | kernel/src/memory.c:131-137 | in canonical form every aligned run of free frames lies inside a single free block, so first fit misses none |
| `Blocks.SplitKeepsCanonical` | kernel/src/memory.c:162-177 | halving a taken block and freeing its upper half keeps the partition of the frames and leaves no two free buddies |
| `Blocks.MergeKeepsCanonical` | kernel/src/memory.c:219-258 | absorbing the free buddy keeps the partition and canonical form |
| `Blocks.ReleaseKeepsCanonical` | kernel/src/memory.c:219-221 | a block may become free without breaking canonical form when the loop condition of the merge is false |
| `Carving.CarveEnd` | kernel/src/memory.c:92-121 | after the pass for order 0 every unreserved frame is in a free block and the result is canonical |
| `PageFrames.IndexOfAddress` | kernel/src/memory.c:526-532 | every address inside a managed frame converts back to the frame's index, as 64-bit unsigned arithmetic stored in an int |
| `PageFrames.AddressOfIndex` | kernel/src/memory.c:530-532 | the index kept for an address is that of a frame if and only if the address, cut to 44 bits above the base, lies in the frame; for the first 2^44 bytes nothing is cut |
| `PageFrames.ReservedFramesAreTouched` | kernel/src/memory.c:551-555 | the index range computed for a reservation consists of exactly the frames that some byte of it touches, and for an empty reservation inside a frame of that frame |
| `PageFrames.OrderSuffices` | kernel/src/memory.c:51-63 | the order found for a request is enough if and only if the 32-bit rounding does not wrap (size at most 2^32 - 4096), and then it is the least that is |
| `PageFrames.SizeToOrder` | kernel/src/memory.c:51-63 | the loop finds the least order whose block has the number of frames that the rounding gives, zero for no bytes |
| `BuddySystem.StatusIsOrder` | kernel/src/memory.c:219-221 | a frame's status is k exactly if a free block of order k begins there, and exactly then it is on list k |
| `HeapRuns.Boot` | kernel/src/memory.c:534-605 | any reservations and then boot: exactly the frames of their index ranges are reserved, and nothing is in use |
| `HeapRuns.Lifetime` | kernel/src/memory.c:74-347 | from boot with any reservations through any sequence of malloc_s, malloc_b, kmalloc and kfree: the free blocks are canonical at every moment, the same whenever the same frames are free, those of boot whenever nothing is in use, and no byte of a reserved range is ever handed out |
| `BuddySystem.Buddies.Reserve` | kernel/src/memory.c:534-560 | exactly the frames between the two indices, clipped to the managed range, become reserved and all others keep their status |
| `BuddySystem.Buddies.Init` | kernel/src/memory.c:74-122 | from any reservations: the reserved frames are the marked ones, nothing is live, and the invariant holds (canonical form included) |
| `BuddySystem.Buddies.Allocate` | kernel/src/memory.c:124-208 | fails if and only if no aligned run of that many free frames exists (or the order is too large); else the result heads such a run, exactly these frames become live, and the lists are those of first fit with splitting |
| `BuddySystem.Buddies.Free` | kernel/src/memory.c:210-347 | a live block's frames become free and the lists are those of iterated merging; any index that heads no live block changes nothing at all |
| `BuddySystem.Buddies.MergeOnce` | kernel/src/memory.c:242-258 | one round of the merge: the buddy leaves its list, the lower of the two heads a live block of twice the length |
| `BuddySystem.Buddies.CarvePass` | kernel/src/memory.c:92-121 | one pass of boot-time carving takes every uncut run of its order |
| `HeapRuns.NoHugeRun` | kernel/src/memory.c:126-129 | no run of an order above the maximum fits into the frames the kernel manages, so refusing such orders loses nothing |
| `HeapRuns.RoundTrip` | kernel/src/memory.c:124-347 | freeing a just-allocated block restores the free blocks of every order |
| `HeapRuns.FreeAll` | kernel/src/memory.c:210-347 | freeing all live blocks in any order whatever leads back to the block sets of boot |
| `HeapRuns.Run` | kernel/src/memory.c:607-785 | over every sequence of malloc_s, malloc_b, kmalloc and kfree: each call changes the extents in use by exactly its own effect, also kfree of a pointer where none begins, and at each moment extents are disjoint, inside memory and clear of reserved frames and free blocks are canonical |
| `HeapRuns.FreeThroughOtherAddress` | kernel/src/memory.c:765-785 | a block just allocated is given back through any address in its first frame, and through those any multiple of 2^44 bytes beyond |
| `Bitmaps.FirstClear` | kernel/src/memory.c:388-397 | the scan finds the lowest clear bit, or there is none |
| `Extents.ExtentsDisjoint` | kernel/src/memory.c:393-395 | two extents in use, whole blocks or chunks of cut pages, are the same or share no byte |
| `KernelHeap.Heap.Init` | kernel/src/memory.c:562-605 | after boot no extent is in use, no page is cut, and the reserved frames are those marked |
| `KernelHeap.Heap.FindChunk` | kernel/src/memory.c:385-400 | the first page of the class that has room, and its lowest unused chunk; nothing found means that every page of the class is full |
| `KernelHeap.Heap.TakeChunk` | kernel/src/memory.c:392-395 | exactly one unused chunk of the page becomes an extent in use, and counter, bitmap and list still agree |
| `KernelHeap.Heap.CutPage` | kernel/src/memory.c:408-452 | a fresh page joins its class with chunk 0 in use; its descriptor is unused beforehand, so the corruption branch is unreachable |
| `KernelHeap.Heap.SlabAllocate` | kernel/src/memory.c:369-453 | fails if and only if there is no class for the size or no room in the class and no free frame; else one new extent of the class's size, from a new page exactly if no page of the class had room |
| `KernelHeap.Heap.ReleaseChunk` | kernel/src/memory.c:483-523 | the chunk is given back, and the page goes back to the buddy system exactly when it was the last chunk in use |
| `KernelHeap.Heap.UnlinkPage` | kernel/src/memory.c:493-523 | the page leaves its class list, at the head or inside, and its descriptor is reset; the corruption branch is unreachable |
| `KernelHeap.Heap.ChunkChecks` | kernel/src/memory.c:461-481 | an address passes the checks on release exactly if an extent in use begins there |
| `KernelHeap.Heap.SlabFree` | kernel/src/memory.c:455-524 | gives back the chunk in use at the address, and changes nothing for any other address |
| `KernelHeap.ClassIsLeast` | kernel/src/memory.c:373-383 | requests up to 2048 bytes get the least of 8, 16, 32 up to 2048 that is enough |
| `KernelHeap.Heap.MallocS` | kernel/src/memory.c:694-718 | null exactly if no chunk can be had; else a new extent of the least of the sizes 8, 16, 32 up to 2048 that is enough, and all others unchanged |
| `KernelHeap.Heap.MallocB` | kernel/src/memory.c:607-645 | null exactly if no run of the order is free; else a new extent, as large as requested if and only if the request is at most 2^32 - 4096 |
| `KernelHeap.Heap.KMalloc` | kernel/src/memory.c:752-763 | the threshold is the zero slot of the size table: every request of at least one byte is met from whole blocks; null exactly if it cannot be met |
| `KernelHeap.Heap.FreeBlock` | kernel/src/memory.c:647-692 | gives exactly that block back; a frame that heads no live block is refused |
| `KernelHeap.Heap.WholeBlockIff` | kernel/src/memory.c:765-785 | a frame heads a live block that is not cut into chunks if and only if an extent of at least a frame begins there, so what is in use decides what a release does |
| `KernelHeap.Heap.KFree` | kernel/src/memory.c:765-785 | with the index cut to 32 bits: if an extent of at least a frame begins at the frame of that index, it is released, whatever the pointer; else the extent that begins at the pointer, if one does; nothing else changes |
| `PageTree.WalkIsEntry` | kernel/src/mmu.c:36-60 | the hardware's four-step walk gives the descriptor of the flat map for every page number, nothing where it is not present |
| `PageTree.SetLeaf` | kernel/src/mmu.c:43-48 | writing one last-level entry keeps the tree of unshared tables and changes the flat map at that page only |
| `PageTree.AddTable` | kernel/src/mmu.c:50-56 | linking a zeroed table below an absent entry keeps the tree and the flat map |
| `PageTree.RemoveTable` | kernel/src/mmu.c:132-138 | clearing the entry of a table with no tables below keeps the tree of all other tables |
| `PageTables.IndexIsDigit` | kernel/src/mmu.c:41 | shifting and masking the address gives the digit of the page number for that level |
| `PageTables.EveryPageMapped` | kernel/src/mmu.c:112-119 | in a range shorter than the address space every page gets its own frame with the flags, every other page keeps its descriptor |
| `PageTables.AddressSpace.NewTable` | kernel/src/mmu.c:50-56 | a new table comes from a live block of its own and maps nothing yet; no other page changes |
| `PageTables.AddressSpace.FindTable` | kernel/src/mmu.c:36-57 | the last table on the way to a page; exactly the tables on the way that were missing are added, each on a frame of its own, and no page changes |
| `PageTables.TranslateIsWalk` | kernel/src/mmu.c:38-58 | the translation of an address by bits 47-39, 38-30, 29-21 and 20-12 in turn, each descriptor valid by its two low bits, is the walk for its page |
| `PageTables.AddressSpace.TablesAreLinked` | kernel/src/mmu.c:50-55 | every table but the root is pointed at by the entry above it, with bits 0x407: accessed, normal memory without caching, valid |
| `PageTables.AddressSpace.MapOnePage` | kernel/src/mmu.c:36-60 | translating va finds frame pa / 4096 with bits 0x0020_0000_0000_0407, the flags and what pa has below its frame; every other page is unchanged, exactly the missing tables on the way are added and as many frames used; it needs only that many |
| `PageTables.AddressSpace.MapPages` | kernel/src/mmu.c:112-119 | page k of a range not longer than the address space is found at frame pa / 4096 + k with bits 0x0020_0000_0000_0407 and the flags; the flat map afterwards for every page number and every length, also for ranges that wrap around; exactly the missing tables of the pages visited are added, and it needs only frames for these |
| `PageTables.AddressSpace.FreeEntry` | kernel/src/mmu.c:125-141 | one entry done: the tables left are those not below it, and exactly the blocks of the others have been given back |
| `PageTables.AddressSpace.FreeTables` | kernel/src/mmu.c:122-142 | from any level: every table below is given back once, nothing else is; the recursion ends |
| `PageTables.AddressSpace.FreeAllTables` | kernel/src/mmu.c:122-142 | every table but the root is given back exactly once, no data page is, and every walk from the root ends unmapped |
| `AreaMaps.EagerMaps` | kernel/src/mmu.c:112-119 | mapping disjoint areas as a whole gives each page of an area what the area says and leaves other pages alone, whatever their order |
| `AreaMaps.FaultAgreesIff` | kernel/src/mmu.c:168-176 | the page mapped for a fault is what eager mapping would map, if and only if the area found does not end at the address (the search bound is inclusive) or an area begins there that goes on with the same memory and the same attributes; empty areas included, wherever their memory lies |
| `AreaMaps.ContinuesWhole` | kernel/src/mmu.c:199-220 | for areas in whole pages of memory, going on means the next place in memory and the same access rights |
| `AreaMaps.FaultIsEager` | kernel/src/mmu.c:199-221 | a handled fault maps the page of its address and no other, and as eager mapping would if and only if the two agree there |
| `AreaMaps.FaultAtEnd` | kernel/src/mmu.c:168-176 | a concrete area and address where the inclusive bound maps a page that no area holds |
| `AreaMaps.CountDrops` | kernel/src/syscall.c:271-285 | restarting the search at the end of an overlapping area leaves strictly fewer areas ending beyond the address: the recursion ends |
| `AreaMaps.GapBeyond` | kernel/src/syscall.c:271-285 | the least gap from the end of an overlapping area is the least gap from the place that was tried |
| `AreaMaps.PlacedStaysWell` | kernel/src/syscall.c:288-308 | placing an area in the gap keeps disjoint areas disjoint, and keeps them in whole pages if and only if the new one ends inside the address space and begins at a page in memory, which it does for every length below 2^32 |
| `AreaLists.AreaList.Append` | kernel/src/mmu.c:77-91 | the walk to the end and the link writes put a new node behind the last one; next and prev stay inverse and the other areas stay in order |
| `VirtualMemory.Process.AddArea` | kernel/src/mmu.c:63-93 | the area joins the list with its size rounded up to whole pages; if its memory belonged to neither a table nor an area of the process before, every area still has an extent in use of its own that holds no table of the process |
| `VirtualMemory.Process.FindArea` | kernel/src/mmu.c:168-176 | the first area whose bounds, both inclusive, hold the address |
| `AreaMaps.PageInServes` | kernel/src/mmu.c:214-220 | what an area says about an address in it: its place in memory, bit 54 exactly without the right to execute (4), bit 7 exactly without the right to write (2), bit 6 exactly with access (1), and otherwise 0x0020_0000_0000_0407 |
| `VirtualMemory.Process.Fault` | kernel/src/mmu.c:145-226 | a translation fault inside an area changes exactly one page of the flat map, and translating the address then finds its place in the area's memory with exactly the area's access rights; exactly the missing tables of that page are added; any other abort changes nothing and ends the process |
| `VirtualMemory.Process.Faults` | kernel/src/mmu.c:145-226 | after any sequence of faults at which search and areas agree, the page of every handled one is what mapping all areas up front would give, translating a handled address in an area finds its place with the area's access rights, every other page is as before, and exactly the missing tables of the handled pages have been added; it needs only frames for these |
| `VirtualMemory.Process.MapAll` | kernel/src/mmu.c:112-119 | mapping all areas in turn gives the flat map that the eager specification describes, translating every address of an area finds its place with the area's access rights, and exactly the tables missing for their pages are added |
| `VirtualMemory.Process.FindOverlap` | kernel/src/syscall.c:271-285 | finds an overlapping area, with the requested start before its end, or there is none |
| `VirtualMemory.Process.Mmap` | kernel/src/syscall.c:258-309 | the start is the least page-aligned address at or above the rounded hint whose range overlaps no area, whatever the order of the list; one area backed by a fresh extent is appended, which is as long as the area if and only if the rounded length is below 2^32; page tables are unchanged, areas still own their memory, and the recursion ends |
| `VirtualMemory.Process.MmapTooLong` | kernel/src/syscall.c:288-304 | the concrete case: a length of 2^32 + 4096 gets a single page of memory for an area that is recorded at full length |
| `FirstTouches.FirstTouch` | kernel/src/mmu.c:168-176 | a fault at the start of the last area in the list maps that area's own first page if and only if no earlier area ends there or the first that does goes on into it |
| `FirstTouches.TouchAfterMmap` | kernel/src/syscall.c:258-309 | the same for the address that mmap has returned, in every process: touching it maps the new area's own page if and only if no earlier area ends there or the first that does goes on into it |
| `FirstTouches.MmapBehindProgram` | kernel/src/syscall.c:258-309 | the concrete case of hint 0: the memory is placed right behind the program, and touching the address returned maps a page behind the program's memory |
| `FirstTouches.ExecAgreesIff` | kernel/src/sched.c:219-225 | in the areas of a new process search and areas agree everywhere but at the ends of the program, of the devices and of the user stack; the signal wrapper and the user stack, which begin where others end, are served rightly |
| `VirtualMemory.Process.DeleteAreas` | kernel/src/mmu.c:96-110 | for every process in a reachable state, areas of length zero included: the memory of every area goes back to the heap, nothing else does, no area is left, and page tables keep what they map |
| `VirtualMemory.Process.Reap` | kernel/src/sched.c:141-142 | tables first and then areas: all that the process had in use is given back except its root table, nothing else is, and no page is mapped any more |
| `Isolation.Undisturbed` | kernel/src/mmu.c:36-60 | whoever gives back and writes to only its own and takes only what was nobody's leaves every other process sound, with the same tables, areas, extents and walks, and apart from it |
| `Isolation.Create` | kernel/src/sched.c:203-204 | a new process with a zeroed root from the heap maps nothing, shares nothing with another and changes nothing of it |
| `Isolation.AddAreaBeside` | kernel/src/mmu.c:63-93 | an area over memory that belongs to neither of two processes keeps them apart |
| `Isolation.MmapBeside` | kernel/src/syscall.c:258-309 | mmap in one process keeps the two apart and changes nothing of the other |
| `Isolation.FaultBeside` | kernel/src/mmu.c:145-226 | no fault, whatever it maps, takes or changes anything of another process |
| `Isolation.FaultsBeside` | kernel/src/mmu.c:145-226 | nor does a sequence of faults |
| `Isolation.MapBeside` | kernel/src/mmu.c:112-119 | nor does mapping a range |
| `Isolation.MapAllBeside` | kernel/src/mmu.c:112-119 | nor does mapping all areas |
| `Isolation.FreeBeside` | kernel/src/mmu.c:122-142 | nor does tearing the tables down |
| `Isolation.DeleteAreasBeside` | kernel/src/mmu.c:96-110 | nor does giving back the areas: memory and root tables of others stay |
| `Isolation.ReapBeside` | kernel/src/sched.c:141-142 | nor does the end of a process |
| `Protection.FaultConfinedIff` | kernel/src/mmu.c:168-220 | a fault leaves every mapped page in the memory of an area of the process if and only if it is not at the end of the area found or the page of memory behind that area is the process's, too |
| `Protection.EndEscapes` | kernel/src/mmu.c:168-220 | the concrete case: a fault at the end of a lone area maps the frame behind its memory, whatever that holds |
| `Protection.OnlyOwnMemory` | kernel/src/mmu.c:145-226 | no walk of a guarded process (areas in place and backed, mapped pages in areas) finds a byte of an extent that is not of its own areas |
| `Protection.NeverATable` | kernel/src/mmu.c:145-226 | in particular no walk finds a table, of its own or of another process |
| `Protection.EmptyIsGuarded` | kernel/src/sched.c:203-204 | a new process is guarded |
| `Protection.GuardedFault` | kernel/src/mmu.c:145-226 | a fault keeps a process guarded if and only if what it maps stays inside |
| `Protection.GuardedFaults` | kernel/src/mmu.c:145-226 | every sequence of faults at which search and areas agree keeps a process guarded |
| `Protection.GuardedMapAll` | kernel/src/mmu.c:112-119 | so does mapping all areas up front |
| `Protection.GuardedMmap` | kernel/src/syscall.c:258-309 | mmap of a length below 2^32 keeps a process guarded if and only if the area ends inside the address space |
| `Protection.GuardedDelete` | kernel/src/syscall.c:48-72 | giving back the areas before the tables, as exec does, leaves a process guarded if and only if it has no page mapped |
| `Paths.ScanResolves` | kernel/src/vfs.c:314-367 | on rendered components the one-pass scanner with its backtracking is resolution on a stack of components |
| `Paths.ScanIsNormal` | kernel/src/vfs.c:314-367 | for every absolute path, empty components included, the scanner is: split, drop ".", pop on "..", render |
| `Paths.NormalIsIdempotent` | kernel/src/vfs.c:281-383 | normalising a normal path gives it back |
| `Paths.NormalInTwoSteps` | kernel/src/vfs.c:285-320 | resolving one path and then a relative one from there is resolving them joined, when the first does not end in an empty component |
| `Paths.ResolveIsMove` | kernel/src/vfs.c:314-367 | a relative path goes so many components up, stopping at the root, and then down: what it does to every stack |
| `Paths.TwoStepsAgreeIff` | kernel/src/vfs.c:285-320 | for every absolute path and every relative one, the two agree if and only if the first ends in no empty component, or the second climbs above all of it, or it climbs to a first component that is empty and stops there |
| `Paths.TwoStepsExamples` | kernel/src/vfs.c:294-300 | concrete cases: after /a/ the name b is found elsewhere in two steps, and ../../x is not |
| `Paths.StepBack` | kernel/src/vfs.c:336-342 | the backwards search drops the last slash and what follows it, never passing the start |
| `Paths.GetAbsolutePath` | kernel/src/vfs.c:281-383 | for an absolute path of at most 255 characters the result is its normal form, for a relative one with at most 253 characters together with the working directory that of the joined path, and for any longer one the path itself |
| `Paths.NormalExamples` | kernel/src/vfs.c:314-367 | /a/../b comes to /b, /a/./b to /a/b, /.. to / and /a//b to itself |
| `Paths.GetAbsolutePathExamples` | kernel/src/vfs.c:281-383 | the function on literal paths and working directories |
| `FileTree.ChildIffNamed` | kernel/src/tmpfs.c:96-125 | in a sound table the search of a temporary directory finds a node if and only if it is an entry of that name |
| `FileTree.WalkMounted` | kernel/src/vfs.c:168-208 | after mounting, a walk that never stands at the mount point ends where it did, and any other goes on from the new root with the components that are left |
| `FileTree.MountedOnPath` | kernel/src/vfs.c:133-151 | after mounting on a non-empty path it names the new root, longer paths are looked for below that root, and paths not through it are unchanged |
| `FileTree.MountTakesEffectIff` | kernel/src/vfs.c:162-168 | mounting takes effect if and only if the path is not empty: lookup never redirects at the root itself |
| `FileTree.MountedNewIs` | kernel/src/vfs.c:133-151 | all of this for the mount of a newly set up file system, with the invariants of the table kept (mount chains acyclic) |
| `FileTree.WalkGrown` | kernel/src/tmpfs.c:155-160 | after a node has been added every path names what it named, and the new node is named by its directory's paths with its name and by no other |
| `FileTree.MadeKeeps` | kernel/src/tmpfs.c:127-165 | creating keeps names distinct and entries contiguous, and what is named afterwards |
| `FileTree.MadeIsNamed` | kernel/src/vfs.c:107-131 | after mkdir by path, the path names the new node exactly when the directory takes it; every path that named something still names the same |
| `FileTree.MadeOnce` | kernel/src/tmpfs.c:127-165 | a name that has been offered to a directory once is not taken again |
| `Vfs.FileSystem.LookupIn` | kernel/src/tmpfs.c:96-125 | finds the entry of that name, or null when there is none before the first free entry |
| `Vfs.FileSystem.Redirected` | kernel/src/vfs.c:187-189 | following mounts ends at a node with none |
| `Vfs.FileSystem.Lookup` | kernel/src/vfs.c:153-209 | the character loop with its component buffer computes the fold of directory lookup and redirection over the components; the empty path is the root, unredirected |
| `FileTree.TakesIff` | kernel/src/tmpfs.c:127-180 | the conditions that creating checks hold if and only if it is a directory of a temporary file system with fewer than 16 entries, none of that name, and the name has at most 15 characters |
| `Vfs.FileSystem.Make` | kernel/src/tmpfs.c:127-205 | a new node in the first free entry exactly if the directory is one of a temporary file system with fewer than 16 entries and none of that name, and the name has at most 15 characters; else nothing changes |
| `Vfs.MakeAll` | kernel/src/tmpfs.c:127-165 | an empty directory that is offered different names of at most 15 characters takes the first 16, each then names its node, and refuses the others |
| `Vfs.FileSystem.Mkdir` | kernel/src/vfs.c:107-131 | succeeds exactly if the directory part names a node, and then does what creating in it does, even when that refuses; the path names the new node exactly if the directory has fewer than 16 entries, none of that name of at most 15 characters |
| `Vfs.MkdirAtBoot` | kernel/src/vfs.c:220-232 | in a new file system /initramfs and then /dev are made, and each names its directory |
| `Vfs.MkdirTwice` | kernel/src/vfs.c:107-131 | making a directory a second time reports what the first time did and changes nothing |
| `Vfs.MkdirRefused` | kernel/src/vfs.c:107-131 | the concrete case: making /a twice in a new file system is refused the second time and reports success |
| `Vfs.FileSystem.SetupMount` | kernel/src/initramfs.c:19-50 | a new root whose first entries are the given files in order, linked to nothing else |
| `Vfs.FileSystem.Mount` | kernel/src/vfs.c:133-151 | a new file system is attached at the end of the mount chain of what the path names; fails exactly if it names nothing |
| `Vfs.FileSystem.constructor` | kernel/src/tmpfs.c:21-42 | the initial file system is one empty directory and satisfies the invariants |
| `Cpio.ValueOfHex` | kernel/src/cpio.c:90-101 | the digits of a number, in either case, read back as the number |
| `Cpio.ParseHex` | kernel/src/cpio.c:90-101 | the loop computes the 32-bit value of the field, and for a field with a foreign character what the early return leaves |
| `Cpio.HeaderOfEncoded` | kernel/src/cpio.c:103-127 | parsing an encoded header recovers name, size, contents and the next header |
| `Cpio.HeaderInCharacters` | kernel/src/cpio.c:103-127 | a header given in characters: 070701, at 54 the size, at 94 the length of the name, the name at 110, padding to four, and TRAILER!!! for the end |
| `Cpio.DigitsInCharacters` | kernel/src/cpio.c:90-101 | the digits 0 to 9, a to f and A to F, and the characters next to them |
| `Cpio.EncodedArchive` | kernel/src/cpio.c:103-127 | files written one after the other and closed by a trailer form an archive that the reader can follow |
| `Cpio.RamDisk.SetupMount` | kernel/src/initramfs.c:31-48 | the root directory lists exactly the files of the archive, in order, with name, contents and size, and the loop stops at the trailer or at a header that is none |
| `Cpio.RamDisk.Lookup` | kernel/src/initramfs.c:112-139 | the first file of that name, or none |
| `InitialRamDisk.MountedFiles` | kernel/src/vfs.c:153-209 | after mounting, a path of one component below the mount point leads to the first file of that name, and any longer path leads nowhere, also when a file's name contains a slash |
| `InitialRamDisk.SlashIsUnreachable` | kernel/src/vfs.c:153-209 | no path at all, below the mount point or elsewhere, leads to a file whose name contains a slash |
| `InitialRamDisk.MountArchive` | kernel/src/initramfs.c:19-50 | from the bytes of an archive to paths: every path below the target leads to the node of the archive's first file of that name or nowhere, and the disk lists where that file's contents lie |
| `InitialRamDisk.MountSlash` | kernel/src/initramfs.c:19-50 | the concrete case: an archive with a file named a/b is mounted, the disk lists the file, and no path leads to it |
| `Words.AlignIs` | kernel/src/utils.c:53-57 | alignment to a power of two gives a multiple less than one step above, and one at or above the size if and only if the 64-bit sum does not wrap |
| `Words.LoadBig` | kernel/src/utils.c:65-70 | swapping the bytes of a loaded word gives the number that was stored most significant byte first |
| `DeviceTree.ReportedIsPreorder` | kernel/src/dtb.c:91-137 | a reader that remembers only the last node begun still reports every property with its own node, in preorder, because properties precede child nodes |
| `DeviceTree.StripReportsSame` | kernel/src/dtb.c:130-135 | no-operation tokens anywhere make no difference |
| `DeviceTree.EncodedPieces` | kernel/src/dtb.c:92-138 | an encoded structure block can be followed piece by piece to its end token |
| `DeviceTree.EncodedTree` | kernel/src/dtb.c:88-104 | a blob written as header, structure block and strings block, with pieces that flatten to the tree, is one the reader handles |
| `DeviceTree.EncodedBytes` | kernel/include/dtb.h:7-12 | the pieces in bytes: 00000001 with a name filled up with zeros begins a node, 00000003 with length, offset of the name and value is a property, 00000002 ends a node, 00000000 ends everything |
| `DeviceTree.HeaderBytes` | kernel/src/dtb.c:74-92 | the header in bytes: d00dfeed, the size, where the structure block is and where the strings block is, most significant byte first |
| `DeviceTree.SpecTree` | kernel/src/dtb.c:92-138 | a blob as the specification writes it, with 4 for no operation and 9 for the end, is one the reader handles when the bytes behind the end token, up to a whole word, are zero or at least 4, as those of names are |
| `DeviceTree.TraverseExample` | kernel/src/dtb.c:74-140 | one blob of the specification byte by byte: its one property is shown to the callback, and nothing else |
| `DeviceTree.StringLength` | kernel/src/utils.c:59-63 | the length of the null-terminated string |
| `DeviceTree.ReadProperty` | kernel/src/dtb.c:105-129 | at a property the callback gets the right node name, name, value and length, and the reader stands at the next token |
| `DeviceTree.Traverse` | kernel/src/dtb.c:74-140 | for every well-formed tree the callback is called once per property, in preorder, with node name, property name, value and length, whatever words other than 1 and 3 lie between the tree and a zero word or the end; the loop ends; without the magic number no call is made |
| `SentinelLists.InsertIsAt` | kernel/src/irqtask.c:37-47 | the place where the search stops is the place of sorted insertion behind equal keys |
| `SentinelLists.InsertKeepsOrder` | kernel/src/irqtask.c:37-56 | insertion keeps the order by key and arrival and adds exactly one entry |
| `SentinelLists.SentinelList.InsertAfter` | kernel/src/irqtask.c:49-56 | the four link writes put the node behind its predecessor; next and prev stay inverse |
| `SentinelLists.SentinelList.Unlink` | kernel/src/timer.c:64-65 | the two link writes take exactly that node out |
| `SentinelLists.SentinelList.RemoveFirst` | kernel/src/irqtask.c:76-79 | the first node leaves, forward and backward links agree |
| `TaskMachine.RunKeeps` | kernel/src/irqtask.c:61-93 | every step of every run, with arrivals and nested runs anywhere, keeps the invariant |
| `TaskMachine.AlwaysSafe` | kernel/src/irqtask.c:27-93 | in every reachable state running tasks are a stack of strictly increasing urgency, each arrived task waits, runs or is done exactly once, and equal priorities have started in order of arrival |
| `TaskMachine.CheckDecides` | kernel/src/irqtask.c:64-84 | a check starts the most urgent waiting task, first come first, only if it is more urgent than all that run; otherwise the run ends and nothing that waits is more urgent than the current level |
| `TaskMachine.SettleDoesAll` | kernel/src/irqtask.c:61-93 | without further interrupts all runs return, and a task that arrived has been done if and only if its priority is below 9999 |
| `TaskMachine.NeverStarts` | kernel/src/irqtask.c:70-73 | the concrete case: a task of priority 9999 that has arrived is still waiting when the run returns |
| `IrqTasks.Tasks.Add` | kernel/src/irqtask.c:27-59 | the linked list afterwards is the machine's queue after an arrival |
| `IrqTasks.Tasks.RunPreemptive` | kernel/src/irqtask.c:61-93 | whatever interrupts happen between atomic sections, a call is a run of the machine that restores the stack, leaves nothing more urgent than its level waiting, and ends |
| `Timers.NextKeeps` | kernel/src/timer.c:59-134 | adding a timer and handling an interrupt keep deadline order with ties by arrival, the armed deadline and conservation of events |
| `Timers.AlwaysSafe` | kernel/src/timer.c:59-134 | in every reachable state the armed deadline of a non-empty queue is its first event's, and every event is pending or has fired, once |
| `Timers.FiresEarliest` | kernel/src/timer.c:78-89 | a handler call fires exactly one event, before all others that were pending, also when its callback adds earlier ones |
| `Timers.TimerQueue.AddTimer` | kernel/src/timer.c:112-131 | the event goes behind those of the same deadline, and the timer is armed for it exactly if it is the first |
| `Timers.TimerQueue.Callback` | kernel/src/timer.c:61 | events added by a running callback do not lose the event being fired: it is still linked, and the list around it is as if it had gone before |
| `Timers.TimerQueue.TimerEventCallback` | kernel/src/timer.c:59-76 | the event fired is removed wherever it stands by then, and the timer is armed for what is first, or far away |
| `Timers.FireArms` | kernel/src/timer.c:59-89 | after an interrupt the timer is armed for the first event, or 10000 seconds on if there is none |
| `Timers.FireArmsFar` | kernel/src/timer.c:67-84 | 10000 seconds on after an interrupt with nothing pending, and after the last event |
| `Timers.TimerQueue.Handler` | kernel/src/timer.c:78-89 | one handler call is one firing of the specification, for any timers the callback adds; the timer is then armed for the first event, or 10000 seconds on for an empty queue |

## Left out

Contracts that are weaker than the code's full behaviour, or have preconditions of their own:

- PageTables.AddressSpace.MapOnePage: requires a free frame for each table that is missing, because the source dereferences a null table when the heap is exhausted; so do the members built on it, for the tables missing for all their pages.
- PageTables.AddressSpace.MapPages: the memory attributes of the descriptor are bit patterns; the effect of TLB entries and barriers is not modelled.
- VirtualMemory.Process.Fault: the address and the cause are parameters in place of the fault registers, and ending the process is an outcome; the memory of an area is not cleared or read here.
- VirtualMemory.Process.Faults: for areas that are disjoint, in whole pages and below the end of the address space, and addresses below 2^48, as others are not translated through these tables; what a fault does where search and areas disagree is in `AreaMaps.FaultAgreesIff`.
- VirtualMemory.Process.Mmap: addresses are unbounded integers, so a range that wraps around 2^64 is not modelled; the heap must be able to meet the request as `kmalloc` receives it, because the source uses the result unchecked; clearing the new memory is not modelled.
- VirtualMemory.Process.AddArea: the nodes of the list are fresh objects and not taken from the heap; memory that belongs to the process already is excluded, and memory of other processes in `Isolation.AddAreaBeside`.
- VirtualMemory.Process.DeleteAreas: the list nodes are not given back, as they do not come from the heap; areas over device memory are those not marked as allocated.
- VirtualMemory.Process.Reap: the open files, stacks and the root table, which the scheduler gives back afterwards, are not part of the process here.
- Isolation.Undisturbed: processes two at a time, any two; copying areas on `fork` is not modelled.
- Protection.OnlyOwnMemory: reachability through translation tables; access rights are attribute bits of descriptors, and what the kernel itself reads and writes is not limited.
- KernelHeap.Heap.KFree: a pointer below the managed range, for which the source indexes its array with a negative number, is excluded.
- BuddySystem.Buddies.Free: indices outside the managed range, for which the source reads beyond its array, are excluded.
- BuddySystem.Buddies.Allocate: negative orders are excluded.
- Cpio.RamDisk.SetupMount: at most 100 files, none named like the trailer, names and sizes that do not wrap when padded; the archive lies wholly in memory.
- Cpio.RamDisk.Lookup: comparison of strings is equality of the characters before the terminator.
- DeviceTree.Traverse: memory that begins with the magic number must hold a well-formed tree, with no word 1 or 3 between it and a zero word or the size; the base is 4-byte aligned, the version fields of the header are not looked at, as in the source, and the callback is a list of calls.
- Vfs.FileSystem.Lookup: components longer than 15 characters, which overflow the component buffer in the source, are excluded.
- Vfs.FileSystem.Mkdir: the empty path, for which the source reads beyond the string, is excluded; buffers for whole paths are unbounded.
- Vfs.FileSystem.Mount: the file system is given by its kind, not looked up by name, and the files of an initial ram disk are given by their names; `InitialRamDisk` takes these from an archive.
- InitialRamDisk.MountArchive: the archive is read before the target is looked up, which makes a difference only to the disk and only when the target names nothing.
- Vfs.FileSystem.Make: creating a file and creating a directory are one method with the kind of node as a parameter; nodes are not taken from the heap.
- Timers.TimerQueue.AddTimer: the deadline is a parameter in place of the counter register, and the argument string that the event copies is not modelled.
- IrqTasks.Tasks.RunPreemptive: a task is what happens while it runs, a finite list of arrivals and nested runs; a context switch from within a task is not modelled, and priorities are unbounded numbers compared as the source's conversions would.
- SentinelLists.SentinelList.InsertAfter: list nodes are fresh objects and never taken from or given back to the heap.

Parts of the repository that are not modelled:

- Logging, the print flag and integer-to-text conversion: output without effect on state.
- Device registers, mailbox, UART, framebuffer, the bootloader and the uploader: hardware.
- Assembly, barriers and exception entry: enabling and disabling interrupts marks atomic sections.
- Scheduling, `fork`, `exec` and signals: they depend on switching register contexts.
- The bump allocator at boot and the order in which `init_allocator` reserves ranges: the arrays are separate from the start, and reservations are arbitrary.
- `set_2M_kernel_mmu`: a fixed table of constants.
- `utils_string_compare` and the functions that search archives with it: it skips null characters and has no clean meaning on strings.
- Reading and writing of file contents, and `vfs_open`: easy sequence operations, and a failed lookup without the create flag is used unchecked.
- Registration of file systems and devices: tables filled once at boot.
- The memory reservation block of the device tree: a loop that passes each entry on.
