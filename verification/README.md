# PyramidOS memory, keyboard, storage and loader proofs

A Dafny model of the stateful core of PyramidOS and proofs about all of its runs.
`dafny verify dfyconfig.toml` checks the whole project.

* **Physical memory** (`Bits`, `Frames`, `Pmm`, `PmmRuns`, `SelfTest`): the bitmap, its
  32-bit word scan, the two next-fit cursors and the E820 initialisation of
  `kernel/core/pmm.c`, specified by plain first-fit on a map of used frames.
* **Virtual memory** (`Paging`, `Vmm`, `VmmRuns`): two-level 32-bit paging (section 4.3,
  "32-Bit Paging", of the Intel SDM Volume 3A). Once paging is on, the model reads and
  writes page tables through the translation they define, as the kernel does.
* **Heap** (`HeapSpec`, `HeapOps`, `HeapRuns`, `HeapLinks`, `HeapWords`, `Heap`, `HeapClient`):
  the linked headers of `kernel/core/heap.c` as words of memory, rewritten in place and
  specified by a list of blocks; the list is proved to be a function of the live
  allocations alone. Headers that merges leave behind stay in memory and count in what
  `kfree` sees.
* **Boot** (`Supply`, `Boot`): `pmm_init`, `vmm_init` and `heap_init` composed, and the heap's
  words in the physical memory behind its pages.
* **Keyboard** (`Keyboard`, `KeyboardRuns`, `KeyboardProtocol`): the ring buffer, runs of
  scancodes in terms of the keys, and the consumer interleaved with the interrupt at every
  instruction, with `cli`, `sti` and `hlt`: what is delivered, and that it is delivered.
* **Files** (`Mounts`, `Blocks`, `Mbr`, `MbrLayout`, `Pyfs`, `Files`, `Vfs`, `FileReads`, `VfsRuns`,
  `VfsNodes`): mount lookup, the block registry, partition discovery from the bytes of a
  table, the descriptor table over DevFS and PyFS with its heap ownership, sequences of
  reads, whole runs of calls on the table, and what each name gives its reader.
* **Loader** (`Loader`): the two memory loops of the second-stage loader.

`Machine.Outcome` is a call that either returns or ends in `panic`. Where a panic cannot
happen, the model keeps the test and proves its branch dead. Words of the bitmap are lists
of bits with the C operators defined bit by bit; page-table words are numbers below 2^32,
where OR-ing flags into an aligned address is an addition. Device answers, scancodes,
memory contents at boot and the bytes that a failed device read leaves behind are
parameters.

What turned out different from what the code or its documentation suggests:

* The cursors are called next-fit, but freeing rolls them back, so every frame below a
  cursor is used and every allocation is first-fit (`Pmm.FrameAllocator.AllocPage`).
* `kfree` is meant to detect a double free by the flag in the old header. A later header can
  be stored across an old one: if it starts 12 bytes before it and the address of its
  predecessor is a multiple of 256, the old flag becomes 0 while the magic number stays.
  `HeapClient.MissedDoubleFree` is a run of five calls, without any client store, after which
  a second free of a freed pointer passes both tests. `HeapWords.OverlapIff` (one store),
  `HeapWords.MissedIff` (one call) and `HeapClient.DetectedIff` (whole runs) give the exact
  condition, and `HeapClient.FreeLater` proves detection in every run that avoids it.
* Usable E820 ranges are rounded outwards; line 60 of the kernel's `README.md` asks for inward
  rounding. `PmmRuns.RoundingConservativeIff` gives the exact condition for an entry,
  `PmmRuns.BootConservativeIff` for the whole map.
* `frame * PMM_PAGE_SIZE` is a 32-bit product: frame addresses are faithful exactly up to
  2^20 frames (`Pmm.AddressesFaithfulIff`). `pmm_init` itself is right beyond that, but what it
  leaves names every frame by its own address exactly when usable memory ends at or below
  4 GiB (`Pmm.FrameAllocator.Init`). Beyond that, a null answer of `pmm_alloc_page` means that
  memory is full if and only if no free frame number is a multiple of 2^20
  (`PmmRuns.NullMeansFullIff`), so `heap_init` can fail on memory that is not full; `Supply`
  counts the allocations that succeed.
* `vmm_map` below 4 MiB keeps the invariant, which includes the identity map of low memory,
  exactly when it maps a page onto itself (`Vmm.AddressSpace.Map`).
* A PyFS read whose device read fails leaves a cache that later reads trust: they are right
  for all leftover bytes if and only if that first device read succeeded
  (`FileReads.FailedFillPoisonsIff`, with an input in `FileReads.FailedFillExample`).
* The file position is a 32-bit sum: the next read continues where the reads before it ended,
  on every device, if and only if they sum to less than 4 GiB (`FileReads.WrapBreaksIff`).

## Model

| member | source | states |
|---|---|---|
| `Bits.TestBit` | kernel/core/pmm.c:39-39 | `b & (1 << k)` is non-zero exactly when bit k is set |
| `Bits.SetBit` | kernel/core/pmm.c:41-41 | `b \| (1 << k)` sets bit k and leaves every other bit |
| `Bits.ClearBit` | kernel/core/pmm.c:56-56 | `b & ~(1 << k)` clears bit k and leaves every other bit |
| `Bits.LowMask` | kernel/core/pmm.c:127-127 | `(1 << (e+1)) - 1` keeps exactly the bits up to e |
| `Frames.FirstFreeSpec` | kernel/core/pmm.c:143-170 | the specification value is the lowest free frame of a range, or -1 exactly when all are used |
| `Frames.FreeBelowZero` | kernel/core/pmm.c:158-159 | a free count of zero is the same as no first-fit candidate |
| `Frames.FreeBelowCounts` | kernel/core/pmm.c:39-61 | the count kept in `used_blocks` is the number of free frames |
| `Pmm.AddressesFaithfulIff` | kernel/core/pmm.c:239-240 | 32-bit frame addresses identify frames if and only if there are at most 2^20 frames |
| `Pmm.HighestAddress` | kernel/core/pmm.c:175-186 | the largest end of a usable entry, attained unless it is 0 |
| `Pmm.FindFirstSetBit` | kernel/core/pmm.c:89-97 | lowest set bit, or -1 exactly when the word is zero |
| `Pmm.EdgeMask` | kernel/core/pmm.c:111-129 | the start and end masks together keep exactly the frames of [start, end) |
| `Pmm.FrameAllocator.Set` | kernel/core/pmm.c:31-44 | marks one frame, keeps bitmap, counter and frame map in agreement, panics exactly out of range |
| `Pmm.FrameAllocator.Unset` | kernel/core/pmm.c:47-61 | clears one frame with the same agreement; the underflow panic is unreachable |
| `Pmm.FrameAllocator.Test` | kernel/core/pmm.c:64-69 | the stored bit is the frame map's value |
| `Pmm.FrameAllocator.BitmapWord` | kernel/core/pmm.c:72-87 | bit k of the word is the use of frame 32w+k, frames past the bitmap reading as used |
| `Pmm.FrameAllocator.FindFreeInRange` | kernel/core/pmm.c:100-141 | lowest free frame of any range, -1 exactly when every frame there is used |
| `Pmm.FrameAllocator.FirstFreeFrom` | kernel/core/pmm.c:143-153 | with all frames below the cursor used, the cursor scan equals first-fit from 0 |
| `Pmm.FrameAllocator.NextFree` | kernel/core/pmm.c:156-162 | the next-fit finder is first-fit over all frames |
| `Pmm.FrameAllocator.NextFreeLow` | kernel/core/pmm.c:164-170 | the low finder is first-fit below the limit |
| `Pmm.FrameAllocator.AllocPage` | kernel/core/pmm.c:224-241 | hands out the lowest free frame, above 4 GiB too, and returns its 32-bit address; within 4 GiB null means out of memory |
| `Pmm.FrameAllocator.AllocPageLow` | kernel/core/pmm.c:243-268 | the same below any limit, for any sequence of limits |
| `Pmm.FrameAllocator.FreePage` | kernel/core/pmm.c:270-300 | panics on exactly the pointers that are unaligned, out of range or not in use; otherwise frees one frame and rolls the cursors back |
| `Pmm.FrameAllocator.GetFreeMemory` | kernel/core/pmm.c:338-341 | free frames times 4096; the 32-bit product does not wrap |
| `Pmm.FrameAllocator.MarkRegionUsed` | kernel/core/pmm.c:302-318 | uses exactly the frames that some byte of the range touches |
| `Pmm.FrameAllocator.MarkRegionFree` | kernel/core/pmm.c:320-336 | frees exactly the frames that some byte of the range touches |
| `Pmm.FrameAllocator.FreeUsable` | kernel/core/pmm.c:199-206 | from all used, a frame is free exactly when it holds a byte of an entry of kind 1, for overlapping and repeated entries too |
| `Pmm.FrameAllocator.LockRegions` | kernel/core/pmm.c:208-221 | afterwards every frame with a byte of [0, 0x1000), [0x5000, 0x6000), the kernel from 0x10000 or the bitmap from 0x20000 is used |
| `Pmm.FrameAllocator.Init` | kernel/core/pmm.c:172-222 | every frame with a byte of [0, 0x1000), [0x5000, 0x6000), the kernel or the bitmap is used, and every free frame holds a byte of an entry of kind 1; the frame count is the smallest that reaches every usable end; the invariant of the other calls holds if and only if usable memory ends at or below 8 TiB, and frames have addresses of their own if and only if it ends at or below 4 GiB |
| `Pmm.BootMapBytes` | kernel/core/pmm.c:199-221 | in bytes: a frame is free after boot if and only if an entry of kind 1 has a byte in it and none of the four reserved ranges has |
| `PmmRuns.Perform` | kernel/core/pmm.c:224-300 | every call on the allocator object is one step of the abstract first-fit machine, and an honest free does not panic |
| `PmmRuns.PerformAll` | kernel/core/pmm.c:224-300 | a whole honest run on the allocator object: no call panics, every address is the one first-fit gives, and the frame map is the abstract run's |
| `PmmRuns.PerformBooted` | kernel/core/pmm.c:172-300 | in every honest run after boot no page handed out has a byte of page 0, the BootInfo page, the kernel or the bitmap, and each has a byte of an entry of kind 1 |
| `PmmRuns.RunKeepsAccounts` | kernel/core/pmm.c:224-300 | in every honest run a frame is used exactly when boot reserved it or a client holds it, never both |
| `PmmRuns.GrantsAreFresh` | kernel/core/pmm.c:224-300 | no frame is handed out while held or reserved; a failure means nothing in reach is free; the grant is the lowest free frame |
| `PmmRuns.ReservedNeverGranted` | kernel/core/pmm.c:208-300 | no page with a byte of the four reserved ranges is ever granted or held, so within 4 GiB null always means out of memory |
| `PmmRuns.RoundingConservativeIff` | kernel/core/pmm.c:325-330 | an entry frees only frames that lie wholly inside it if and only if both its ends are page-aligned |
| `PmmRuns.RoundingExample` | kernel/core/pmm.c:199-206 | on a typical PC map `pmm_init` leaves a frame free whose last kilobyte is not usable memory |
| `PmmRuns.BootConservativeIff` | kernel/core/pmm.c:172-222 | the map after `pmm_init` frees only wholly usable frames if and only if every unaligned end of a usable entry falls into a locked or wholly usable frame |
| `PmmRuns.NullMeansFullIff` | kernel/core/pmm.c:224-241 | in every sequence of allocations null means that memory is full, if and only if no free frame number is divisible by 2^20 |
| `SelfTest.PagesToTest` | kernel/core/selftest.c:45-50 | all free pages below 8, 8 below 64, an eighth below 2056, then 256 |
| `SelfTest.Refill` | kernel/core/selftest.c:77-83 | first-fit gives back the lowest missing member of the batch |
| `SelfTest.AllocateBatch` | kernel/core/selftest.c:62-68 | no allocation fails; the batch is the lowest free frames in order |
| `SelfTest.FreeEveryOther` | kernel/core/selftest.c:70-75 | no free panics; exactly the even members are released |
| `SelfTest.RefillGaps` | kernel/core/selftest.c:77-83 | the refill puts the same frames back at the same indices |
| `SelfTest.FreeAll` | kernel/core/selftest.c:85-93 | no free panics and the frame map is as before the test |
| `SelfTest.SelftestPmm` | kernel/core/selftest.c:38-115 | returns 0 from every valid state with a free page, 1 with none, and restores the frame map |
| `Paging.OutsideEdit` | kernel/core/vmm.c:32-32 | editing a frame that is neither directory nor table changes no translation |
| `Paging.DataEdit` | kernel/core/vmm.c:14-61 | editing a frame that holds neither the directory nor a table changes no translation and no table |
| `Paging.AddTable` | kernel/core/vmm.c:34-36 | entering an empty table changes no translation and keeps the tables sound |
| `Paging.SetEntry` | kernel/core/vmm.c:55-57 | writing one table entry changes the translation of exactly one page |
| `Vmm.AddressSpace.EditEntry` | kernel/core/vmm.c:55-57 | the word paddr + 3, present and writable, is stored through the table's own virtual address and remaps exactly one page; the invariant survives if and only if the page is above 4 MiB or maps onto itself |
| `Vmm.AddressSpace.StoreData` | kernel/core/vmm.c:95-120 | a store to such a frame keeps every translation and the invariant |
| `Vmm.AddressSpace.ClearFrame` | kernel/core/vmm.c:32-32 | clearing a new table through its own address hits that table only |
| `Vmm.AddressSpace.CreateTable` | kernel/core/vmm.c:24-37 | panics exactly when no low frame is free; otherwise one new table, entered present and writable, no translation changed |
| `Vmm.AddressSpace.GetPageTable` | kernel/core/vmm.c:14-40 | finds or creates the table, keeps the invariant and every translation |
| `Vmm.AddressSpace.Map` | kernel/core/vmm.c:43-61 | exact panic condition; one page's translation changes, by the word paddr + 3; every present slot and entry stays writable; the invariant survives if and only if the page is above 4 MiB or maps onto itself |
| `Vmm.AddressSpace.AllocPage` | kernel/core/vmm.c:64-72 | maps the frame that the allocator's address names; false exactly when that address is null; exact panic condition |
| `Vmm.AddressSpace.EnablePaging` | kernel/core/vmm.c:95-120 | low memory maps onto itself and nothing else is mapped |
| `Vmm.AddressSpace.Init` | kernel/core/vmm.c:74-123 | panics exactly when fewer than two low frames are free; otherwise establishes the invariant and uses exactly two frames |
| `VmmRuns.RunKeeps` | kernel/core/vmm.c:14-72 | in every run at or above 4 MiB low memory stays identity-mapped, directory and tables stay distinct low frames in use, and no table moves |
| `VmmRuns.RunTranslates` | kernel/core/vmm.c:43-61 | the translation after a run is exactly the calls made, the last one winning |
| `VmmRuns.TablesReachThemselves` | kernel/core/vmm.c:7-8 | in every state of a run the directory and each table are reached at their own addresses |
| `VmmRuns.AllocationsIsolated` | kernel/core/vmm.c:64-72 | in every run within 4 GiB the allocating calls get pairwise different frames, none of them the directory or a page table of any state of the run |
| `VmmRuns.Perform` | kernel/core/vmm.c:43-72 | one call succeeds exactly when tables and free frames suffice, and is then one step of a run |
| `VmmRuns.PerformAll` | kernel/core/vmm.c:43-72 | a sequence of calls on the object succeeds exactly when tables and free frames suffice, and is then a run of exactly these calls that keeps the invariant and every entry writable |
| `HeapSpec.Canonical` | kernel/core/heap.c:132-152 | two well-formed block lists with the same live allocations are equal |
| `HeapSpec.SpliceLive` | kernel/core/heap.c:66-91 | replacing a run of blocks by one of the same extent changes only that run's live set |
| `HeapOps.FirstFit` | kernel/core/heap.c:52-100 | lowest block that is free and large enough, or -1 when there is none |
| `HeapOps.GrabKeeps` | kernel/core/heap.c:62-98 | an allocation keeps the list well formed, adds exactly its grant at a new address, and grants at most 24 bytes too many |
| `HeapOps.ReleaseKeeps` | kernel/core/heap.c:129-152 | a release keeps the list well formed and removes exactly its block |
| `HeapRuns.MallocGrant` | kernel/core/heap.c:39-102 | null exactly when n is 0 or no free block holds n bytes; otherwise the lowest such block, whole unless more than align4(n)+24 bytes, else exactly align4(n) |
| `HeapRuns.FreesCommute` | kernel/core/heap.c:105-153 | freeing two live blocks in either order gives the same list |
| `HeapRuns.MallocFreeRoundTrip` | kernel/core/heap.c:32-153 | `kmalloc` then `kfree` restores the exact list |
| `HeapRuns.RunKeepsWellFormed` | kernel/core/heap.c:32-153 | every run keeps the blocks tiling the region, sizes multiples of 4, no two free neighbours |
| `HeapRuns.RunsAgree` | kernel/core/heap.c:23-153 | two runs that leave the same allocations live leave the same list |
| `HeapRuns.FreeingAllRestores` | kernel/core/heap.c:23-153 | a run that frees all it allocated, in any order, ends with its first list; with nothing live that is the single initial block |
| `HeapRuns.BytesConserved` | kernel/core/heap.c:25-25 | payload bytes plus 20 per header always sum to 1 MiB |
| `HeapRuns.PayloadIsolated` | kernel/core/heap.c:96-97 | a payload byte lies in the region, in no header and in no other payload |
| `HeapLinks.SplitLinked` | kernel/core/heap.c:68-91 | the split's header stores turn a doubly linked list into the linked split list |
| `HeapLinks.MergeLinked` | kernel/core/heap.c:133-152 | a merge's header stores turn a doubly linked list into the linked merged list |
| `HeapLinks.ReleaseSteps` | kernel/core/heap.c:129-152 | marking, merging right and merging left add up to the abstract release |
| `HeapWords.SplitSits` | kernel/core/heap.c:68-91 | the word stores of a split hold the linked split list, hit no word outside its headers, and let no former header pass but one in a blind spot |
| `HeapWords.MergeSits` | kernel/core/heap.c:133-152 | the same for the word stores of a merge; the absorbed header is refused from then on |
| `HeapWords.StepSettled` | kernel/core/heap.c:114-126 | stores into headers of the list leave every former header refused, however they overlap it, except in a blind spot |
| `HeapWords.OverlapIff` | kernel/core/heap.c:78-82 | a new header stored over or beside an intact old one leaves it refused if and only if it does not start 12 bytes before it with a predecessor at a multiple of 256 |
| `HeapWords.MissedIff` | kernel/core/heap.c:114-126 | after any call, an old header whose magic is still there is refused if and only if it is in no blind spot of the list |
| `HeapWords.TestsDecide` | kernel/core/heap.c:114-126 | on every trusted address the magic and flag tests pass exactly for the live blocks |
| `HeapWords.PayloadKept` | kernel/core/heap.c:32-153 | a call that stores into headers only changes no word of a client's payload |
| `Heap.KernelHeap.InitList` | kernel/core/heap.c:23-29 | one free block spans the region |
| `Heap.KernelHeap.Kmalloc` | kernel/core/heap.c:32-103 | equals the abstract first-fit allocation; stores into headers only; the walk ends; corruption and bounds panics are unreachable |
| `Heap.KernelHeap.Kfree` | kernel/core/heap.c:105-153 | releases a live block, ignores null, stores into headers only; panics before any change on every other trusted pointer, so on double frees, and on stray ones whose bytes fail a test |
| `Heap.KernelHeap.Put` | kernel/core/heap.c:96-97 | a client's store into its payload keeps the list and all trust but that in the words it hits |
| `HeapClient.LiveUnique` | kernel/core/heap.c:96-97 | no two live allocations share an address |
| `HeapClient.Take` | kernel/core/heap.c:32-103 | null exactly when no free block holds the size, and then nothing changes; success adds one grant at an address no live block had |
| `HeapClient.Give` | kernel/core/heap.c:105-153 | freeing an owned grant never panics and removes exactly it |
| `HeapClient.PerformAll` | kernel/core/heap.c:32-153 | a whole honest run of allocations, frees and client stores: no call panics, every pointer is the one first-fit grants, the block list is the abstract run's, and memory goes through a history of single calls |
| `HeapClient.StaysTrusted` | kernel/core/heap.c:114-126 | an address keeps being judged rightly through every run that does not disturb it |
| `HeapClient.FreeLater` | kernel/core/heap.c:105-127 | freeing a grant after any such run returns exactly when its address heads a live block, and otherwise panics |
| `HeapClient.DetectedIff` | kernel/core/heap.c:114-126 | while an old magic word is intact and no client overwrote the header, the tests are right about its address after every call of a run if and only if no call puts it in a blind spot |
| `HeapClient.MissedDoubleFree` | kernel/core/heap.c:105-127 | a run without client stores after which a freed pointer passes both tests |
| `Supply.SupplyStep` | kernel/core/pmm.c:224-241 | an allocation answers with an address exactly while there is supply, and takes one of it |
| `Supply.SupplyReaches` | kernel/core/pmm.c:224-241 | every free frame below 4 GiB counts as supply, and on memory that ends there nothing else does |
| `Boot.TurnCounted` | kernel/core/heap.c:14-21 | a turn of the mapping loop succeeds exactly when the supply at the start suffices for it, and takes its share |
| `Boot.FirstPage` | kernel/core/vmm.c:64-72 | the first heap page takes the lowest frame, and its table is available exactly when two low frames were free |
| `Boot.MapHeapPage` | kernel/core/heap.c:14-21 | one turn of the mapping loop fails exactly when the supply does not suffice for it |
| `Boot.HeapInit` | kernel/core/heap.c:7-30 | succeeds if and only if 257 allocations can succeed in a row and two low frames are free; with 257 frames free below 4 GiB it takes exactly 257, and heap pages get distinct fresh frames, none a directory or table |
| `Boot.BootMemory` | kernel/core/main.c:194-208 | the three initialisers succeed if and only if the map leaves a supply of 259 frames, four low; with 259 frames free below 4 GiB pages 0 to 1023 map onto themselves, pages 0xD0000 to 0xD00FF onto frames of their own that hold no table and no byte of a reserved range, and nothing else is mapped |
| `Boot.HeapStore` | kernel/core/heap.c:78-97 | after boot a store to a heap address changes the one physical word it names, so memory still holds the heap's words, and leaves every translation and the invariant alone |
| `Boot.HeapLoad` | kernel/core/heap.c:54-60 | after boot a load from a heap address reads the heap's word |
| `Keyboard.PutAppends` | kernel/drivers/keyboard.c:43-52 | a write appends and overwrites no unread slot; it drops exactly at 255 pending |
| `Keyboard.AdvanceDrops` | kernel/drivers/keyboard.c:55-63 | pointers are equal exactly when nothing is pending; advancing removes the oldest character |
| `Keyboard.CapsAndShift` | kernel/drivers/keyboard.c:119-141 | caps lock and shift cancel on letters; caps lock changes no other key |
| `Keyboard.Driver.BufferWrite` | kernel/drivers/keyboard.c:43-52 | the new ring is the abstract write of the old one |
| `Keyboard.Driver.TryGetChar` | kernel/drivers/keyboard.c:55-63 | returns and removes the oldest pending character, or 0 with nothing changed |
| `Keyboard.Driver.Handler` | kernel/drivers/keyboard.c:90-150 | updates the modifiers and enqueues the decoded character |
| `KeyboardRuns.TypeAll` | kernel/drivers/keyboard.c:90-150 | for every run of scancodes: shift is on exactly when the last shift code was a press, caps lock after an odd number of presses; a letter key enters lower case exactly when they agree, else upper case of the same letter; releases and modifiers enter nothing, other keys their symbols; the ring holds the first 255 |
| `KeyboardRuns.LettersOnKeys` | kernel/drivers/keyboard.c:17-34 | each of the 26 letters is on one key and no other |
| `KeyboardRuns.TablesAgree` | kernel/drivers/keyboard.c:17-34 | the two tables hold the characters of the keys, row by row |
| `KeyboardProtocol.NextKeeps` | kernel/drivers/keyboard.c:43-88 | every instruction and every interrupt keeps the protocol invariant |
| `KeyboardProtocol.RunKeeps` | kernel/drivers/keyboard.c:43-88 | the invariant holds in every state of every interleaving |
| `KeyboardProtocol.DeliveredInOrder` | kernel/drivers/keyboard.c:43-88 | under every interleaving the delivered characters are a prefix of the accepted ones, and the rest is in the ring or in flight |
| `KeyboardProtocol.GetDelivers` | kernel/drivers/keyboard.c:66-88 | called with a character pending, in every reachable state and interleaving, get_char can go on until its sixth own instruction, which has returned the oldest character |
| `KeyboardProtocol.LoopDelivers` | kernel/drivers/keyboard.c:66-88 | the same whenever get_char is back at the start of its loop |
| `KeyboardProtocol.WokenDelivers` | kernel/drivers/keyboard.c:66-88 | a halted consumer is woken by the first key that enters a character and returns it by its sixth own instruction |
| `KeyboardProtocol.TryDelivers` | kernel/drivers/keyboard.c:55-63 | try_get_char ends empty-handed exactly when nothing is pending at its check, and otherwise returns the oldest character by its fourth own instruction |
| `KeyboardProtocol.WaitsWhenEmpty` | kernel/drivers/keyboard.c:66-88 | with nothing pending get_char comes to hlt and delivers nothing |
| `KeyboardProtocol.DropOnlyWhenFull` | kernel/drivers/keyboard.c:43-52 | a key is dropped only with 255 pending; otherwise it becomes the newest pending one |
| `KeyboardProtocol.NoLostWakeup` | kernel/drivers/keyboard.c:66-88 | whenever the consumer is halted the ring is empty and a waiting key can interrupt and wake it |
| `Mounts.MatchesIffSplits` | kernel/fs/vfs.c:56-77 | a mountpoint matches exactly the paths that split at it on a component boundary |
| `Mounts.OrderIndependent` | kernel/fs/vfs.c:87-104 | tables with the same entries in any order and slots select the same entry |
| `Mounts.SplitUnique` | kernel/fs/vfs.c:109-122 | a path has one relative part at a mountpoint |
| `Mounts.Table.FindMount` | kernel/fs/vfs.c:79-127 | selects the unique longest mountpoint that is the path, or a beginning of it up to a slash; mountpoint and relative path recombine to the path; exact error conditions |
| `Mounts.Table.Mount` | kernel/fs/vfs.c:150-188 | fills one unused slot, or fails under exact conditions and changes no lookup |
| `Blocks.LittleEndianRoundTrip` | kernel/drivers/mbr.c:42-48 | the field reads back the number whose bytes are stored lowest first |
| `Blocks.ReadFlattens` | kernel/drivers/mbr.c:78-100 | a nest of partitions is one flat window of its drive: sector lba is the drive's sector at the sum of the bases plus lba, every read past what all windows leave fails, and the 32-bit sum never wraps |
| `Blocks.SectorsIndependent` | kernel/drivers/mbr.c:87-99 | two sectors of a device agree on every drive content if and only if they are the same sector or both are cut off |
| `Blocks.WindowsDisjoint` | kernel/drivers/mbr.c:87-99 | two partitions of a disk share a sector of the drive if and only if what is left of their ranges overlaps |
| `Blocks.Registry.Register` | kernel/drivers/block.c:16-44 | appends exactly the devices with a new name while fewer than 8 are there |
| `Blocks.Registry.GetByName` | kernel/drivers/block.c:59-74 | finds the device of that name, nothing exactly when there is none |
| `Mbr.BuildName` | kernel/drivers/mbr.c:50-76 | disk name, `p`, the character 0x30 + index, zero padding; exact error conditions |
| `Mbr.ExpectedWanted` | kernel/drivers/mbr.c:137-181 | the devices the scan asks for are exactly those of the wanted entries |
| `Mbr.PartitionReads` | kernel/drivers/mbr.c:151-181 | the device of a wanted entry reads exactly the sectors [start, start+count) of the disk |
| `Mbr.ScanEntry` | kernel/drivers/mbr.c:139-188 | fails exactly when a wanted entry gets no block or no place in the registry; registers exactly the other wanted entries with a fitting name; keeps two heap blocks exactly when it registers, on every exit path |
| `Mbr.ScanTable` | kernel/drivers/mbr.c:137-189 | registers the wanted entries up to the first that fails, and reports no space exactly when there is one |
| `Mbr.ScanAndRegister` | kernel/drivers/mbr.c:112-192 | exact condition for every return code; registers the wanted entries in order up to the first that heap or registry cannot take, and the block list is the old one plus two blocks for each |
| `MbrLayout.ScanLaidOut` | kernel/drivers/mbr.c:112-192 | for any four (type, start, count) entries laid out at their bytes the scan registers exactly the windows [start, start+count) of those whose type is none of 0, 5, 15 and whose count is not 0, in order |
| `MbrLayout.EntryIs` | kernel/drivers/mbr.c:139-152 | type, start and count are the bytes 4, 8 to 11 and 12 to 15 of the entry, lowest first |
| `MbrLayout.SectorIs` | kernel/drivers/mbr.c:78-100 | sector l of such a partition is the disk's sector start + l, and from count on there is none |
| `Pyfs.Probe` | kernel/fs/pyfs.c:55-76 | succeeds exactly on a readable sector 0 that begins with the bytes "PYFS", 1 0 0 0, 0 2 0 0 |
| `Pyfs.Create` | kernel/fs/pyfs.c:78-102 | exact condition for every return code; keeps one heap block on success, and a failed probe restores the exact block list |
| `Files.OpenStep` | kernel/fs/vfs.c:272-274 | a new descriptor takes its context; all descriptors still own distinct live blocks |
| `Files.CacheStep` | kernel/fs/pyfs.c:125-129 | a filled cache becomes the descriptor's second block without overlap |
| `Files.CloseStep` | kernel/fs/vfs.c:322-326 | closing removes exactly the descriptor's blocks from the account |
| `Files.GrantsAre` | kernel/fs/pyfs.c:154-161 | a descriptor's blocks are its context and, if filled, its cache, and they differ |
| `Vfs.ReadSectors` | kernel/fs/devfs.c:79-87 | whole sectors up to the first failure, complete exactly when every read succeeds |
| `Vfs.FileSystem.FindNode` | kernel/fs/devfs.c:138-191 | a path names null, zero, the one registered disk of that name, or the PyFS superblock |
| `Vfs.FileSystem.FsOpen` | kernel/fs/devfs.c:126-192 | exact condition for every return code, out of space included; one new heap block on success, nothing changed on failure |
| `Vfs.FileSystem.Open` | kernel/fs/vfs.c:233-278 | exact condition for every return code; on success the lowest free descriptor shows the file that the longest mount names, at 0; other descriptors are untouched |
| `Vfs.FileSystem.Close` | kernel/fs/vfs.c:309-329 | the live blocks lose exactly the descriptor's own; never panics, leaves other descriptors alone |
| `Vfs.FileSystem.FillCache` | kernel/fs/pyfs.c:124-133 | no space exactly when the heap has no room for a sector; otherwise the cache holds sector 0, or leftover bytes exactly when the device read fails |
| `Vfs.FileSystem.PyRead` | kernel/fs/pyfs.c:112-147 | exact return code; the slice of the cached sector at the position, cut off at its end; leftover bytes enter the cache only with an I/O error of the device |
| `Vfs.FileSystem.BlockRead` | kernel/fs/devfs.c:54-91 | exact condition for every return code; succeeds exactly on aligned requests whose sectors all read, and returns those sectors |
| `Vfs.FileSystem.ReadFile` | kernel/fs/vfs.c:280-307 | exact return code on every descriptor; the right bytes and a moved 32-bit position on success; on failure no moved position and no trace but an unfilled PyFS cache after a device error; other descriptors untouched |
| `Vfs.FileSystem.AllClosedRestores` | kernel/fs/vfs.c:309-329 | in every reachable state with all descriptors closed the heap's block list is exactly the first one |
| `FileReads.PyReadsConcatenate` | kernel/fs/pyfs.c:135-146 | successful reads add up to one read, cut off at the end of the sector |
| `FileReads.FailedFillPoisonsIff` | kernel/fs/pyfs.c:125-133 | all runs of reads after the first deliver the superblock, for all leftover bytes, if and only if the device read of the first succeeded |
| `FileReads.FailedFillExample` | kernel/fs/pyfs.c:125-146 | after a read from a silent drive, the next read returns four leftover zeros where the disk holds the magic |
| `FileReads.DeviceReadsConcatenate` | kernel/fs/devfs.c:66-90 | successful reads return contiguous device bytes as long as each starts below 4 GiB |
| `FileReads.PositionAfter` | kernel/fs/vfs.c:305-305 | after successful block reads the position is the sum of the sizes modulo 2^32 |
| `FileReads.WrapBreaksIff` | kernel/fs/vfs.c:305-305 | for every sequence of whole-sector requests the next read continues where they ended, on every device, if and only if they sum to less than 2^32 bytes |
| `VfsRuns.Perform` | kernel/fs/vfs.c:233-329 | one call is one exact step: return code, what the descriptor shows, and the heap's block list, from what descriptors, mounts, devices and heap were before |
| `VfsRuns.PerformAll` | kernel/fs/vfs.c:233-329 | a run of opens, reads and closes is a trace of exactly these calls, each with its exact return code, its effect on one descriptor and its use of the heap; beginning and ending all closed it leaves the exact block list |
| `VfsRuns.ReadsOf` | kernel/fs/vfs.c:280-307 | the successful reads of one descriptor form a read sequence whatever the calls on the others are |
| `VfsRuns.InterleavedPyReads` | kernel/fs/pyfs.c:112-147 | interleaved with any other calls, the reads of a PyFS descriptor add up to one read of the superblock |
| `VfsRuns.InterleavedDeviceReads` | kernel/fs/devfs.c:54-91 | interleaved with any other calls, the reads of a device node return contiguous bytes of the device |
| `VfsNodes.OpenAndRead` | kernel/fs/devfs.c:19-192 | on the table: DevFS's `null` reads nothing and its `zero` as many zeros as asked for, every time |
| `VfsNodes.NodeReads` | kernel/fs/devfs.c:19-192 | in every run: a descriptor opened on `null`, `zero` or a registered disk and not closed reads nothing, zeros, or that disk's bytes from its position on |
| `VfsNodes.SuperblockReads` | kernel/fs/pyfs.c:104-147 | in every run without a device error on it, a descriptor on `superblock` reads the bytes of sector 0 from its position on, cut off at 512 |
| `VfsNodes.NodeOpens` | kernel/fs/devfs.c:126-192 | which names open: `null`, `zero`, the registered disks with room for 8 bytes, `superblock` with room for 12, nothing with the write flag |
| `Loader.BatchSize` | boot/src/legacy/stage2.asm:231-250 | the largest batch within the rest, 18 sectors and the segment, and at least one sector |
| `Loader.ReadBatch` | boot/src/legacy/stage2.asm:223-262 | one turn makes the one legal request its registers name, places its sectors and changes nothing else |
| `Loader.AdvancePointer` | boot/src/legacy/stage2.asm:264-273 | ES:BX stays the address of the next sector; BX wraps exactly when the segment is full |
| `Loader.ReadKernel` | boot/src/legacy/stage2.asm:221-289 | terminates; sector j lands at 0x10000+512j, nothing else changes; every transfer is legal (one segment, at most 18 sectors), none could be longer, and the requests tile the body in order |
| `Loader.Checksum` | boot/src/legacy/stage2.asm:1766-1799 | the sum of exactly the first size bytes at 0x10000 modulo 2^32 |
| `Loader.SumAdds` | boot/src/legacy/stage2.asm:1766-1799 | the sum is additive and counts each byte with its value |
| `Loader.ChecksumDetects` | boot/src/legacy/stage2.asm:1766-1799 | an image with one byte changed has another checksum |
| `Loader.LoadAndCheck` | boot/src/legacy/stage2.asm:121-147 | memory holds the image and the checksum equals the build-time sum, for every kernel ending below 1 MiB |

## Left out

- ATA, PIC, PIT, RTC, IDT stubs and BIOS calls: hardware; a device is a function from sector numbers to optional sectors and a BIOS read is a copy.
- Terminal, splash, progress bar, fonts, Arabic shaping, shell and panic printing: output only.
- CHS fallback reads of the loader: their multi-track behaviour depends on the BIOS.
- `kernel/lib/string.c`: used as sequence equality, prefix and length; strings are their characters before the terminator.
- The TLB: `invlpg` is not modelled, translations are always walked.
- Physical placement of kernel BSS, boot stack and bitmap: the bitmap is its own array, and locked ranges follow `kernel_size`.
- Heap.KernelHeap.Kfree: a pointer that heads no live block but passes both tests, because a client forged the bytes or the run left it in a blind spot, is outside the contract, and so are unaligned stray pointers.
- Pmm.FrameAllocator.Init: usable entries end below 16 TiB, so that counts fit 32 bits; 64-bit wrap-around of base plus length is outside the model.
- Boot.BootMemory: when the supply suffices only with frames above 4 GiB, success is decided, but which frames then back the heap's pages is not described. Usable memory ends at or below 8 TiB, where frame numbers fit the signed results of the source.
- Pmm.FrameAllocator.MarkRegionFree: called after boot it would leave the cursors behind; no caller does.
- Vfs.FileSystem.BlockRead: sectors are 512 bytes, the only size that `ata_block.c` registers and `mbr.c` accepts.
- Vfs.FileSystem.Open: the descriptor table is proved for registered devices with 512-byte sectors, the only size the drivers create.
- Vfs.FileSystem.ReadFile: the caller's buffer is the returned byte sequence; bytes stored before a failed sector are returned but not claimed for PyFS.
- Paging.Write: `memset` of a table is done a word at a time instead of a byte at a time.
- `selftest_heap` and `selftest_ata`: short straight-line clients that add nothing to the run theorems.
