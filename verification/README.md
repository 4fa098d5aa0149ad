# MatrixOS kernel: a verified model

This project models the stateful core of the MatrixOS kernel in Dafny and proves what that
core is for: the buddy page allocator, the kernel heap, the processes and address spaces that
use the pages, the two-level open-file tables, the text screen and the keyboard ring.

Each part comes in two layers. A value layer defines the state and every operation as functions
and proves the laws over whole runs. An imperative layer has the kernel's own form (classes whose
methods rewrite list links, bitmaps, tables and buffers in place, with the kernel's loops) and
every public method is proved to take the value layer's step, so the laws hold of it.

| part | value layer | in place |
|---|---|---|
| page allocator | BitArith, BuddyBlocks, BuddyLists, BuddyArith, BuddyRuns, BuddyMisaligned | IntrusiveList, Bitmap, PageAllocator |
| kernel heap | HeapChain, HeapRuns | KernelHeap, HeapClients |
| clients of the page allocator | PageLedger, PageLog, PageTables, ProcessRuns, SpaceRuns, PageShortage | TempMapping, PagePool, Vmm, ProcessTable |
| open files | OpenFiles, OpenFileRuns, FileResults, FileStreams, FilePositions | FileSystems, VirtualFs |
| screen and keyboard | ScreenText, Keyboard | Display, Keyboard |
| putting the objects together | | Boot |

Locked regions are single steps. Addresses and page frame numbers are natural numbers; words are
written out where they can wrap (file positions and results, heap counters). Writing a block
header is modelled as overwriting its 16 bytes of the heap with anything, so that the frame
results about payloads do not depend on what a header looks like in memory. The page allocator's
list heads are objects that live at the start of every page, linked in circles as in `list.h`.

## What the proofs found

* Splitting and merging compute a block's buddy differently: on the absolute address and on the
  page index. They agree on all pages and all orders exactly when the page frame of the base is a
  multiple of 2048, that is, when the base is aligned to 8 MiB up to its offset within a page. The
  allocator restores its free lists, after one allocation and release in every state and after every
  run that releases what it took, for exactly the same bases. A base aligned to 4 MiB is not enough:
  a run of six operations lists a misplaced block, and a seventh lists a block that is still
  allocated.
* With a base that lets blocks merge correctly, initialisation always lists memory beyond the end
  of the range it was given, because the gap in front of the first block is never deducted. The
  shipped range shows it: the second of its two blocks starts where the range ends.
* The bitmap is indexed from the base but has no bits for the gap in front of the first block. Its
  bits stay within the gap, except where the range has exactly as many pages as the gap has bits, as
  the 128 MiB from 0x7FF000 have.
* A process creation that runs out of pages at the kernel stack leaves four pages allocated. It
  does so exactly when the module and a slot were there and five pages were free, and every allocator
  with a block gets there by taking its other pages one by one; every other failed creation leaves
  the table and, as sets, all free lists as they were. An exit gives back two of the six pages of a
  process.
* The user stack is mapped at 0xFFBFF000. Nothing is mapped at the address that the comments in
  `vmm.c` name, nor at `USER_STACK_TOP`, and the entry of the stack's table replaces an entry of
  the kernel's part of the directory.
* `temp_unmap_page` with an address inside a slot but not at its start releases the slot one number
  lower, and clears the entry of the slot the address lies in. The mapping table stays sound exactly
  when the two are not both held.
* `ramfs_read`, short of the end, copies beyond it exactly when position plus count does not fit a
  word, and `ramfs_seek` misses exactly when its target is 2^32 or more, or is negative and wraps
  to before the end of the file. Below 2 GiB seeking is always right.
* The position kept in a descriptor agrees with the position of its handle all through a run exactly
  when no seek moves a descriptor and no read copies 2^31 bytes or more. Such a read moves the handle
  only, because its result counts as negative; two runs without any seek show it.
* A tab is four spaces, unless it is cut off at the end of the screen; then, and only then, the
  screen no longer is a window on the text.
* The keyboard ring behaves as a queue that the 256th pending character empties.

## Model

| member | source | states |
|---|---|---|
| BuddyArith.BuddiesAgree | kernel/mm/pmm.c:155-156 | the merge buddy and the split buddy are the same address for every page and every order that can merge, if and only if the page frame number of the base is divisible by 2048, whatever its offset in the page |
| BuddyArith.FourMiBBaseDisagrees | kernel/mm/pmm.c:105 | a 4 MiB aligned base and a page on which the two buddies differ |
| BuddyMisaligned.NotRestored | kernel/mm/pmm.c:99-191 | for every base that is not aligned, and every place of the first block, allocating and releasing the order at which the base is misaligned leaves a block listed that was not |
| BuddyMisaligned.RoundTripsIffAligned | kernel/mm/pmm.c:65-197 | allocating and releasing restores the lists in all well-formed states if and only if the base is aligned to the largest block |
| BuddyMisaligned.RunNotRestored | kernel/mm/pmm.c:65-197 | for every other base a run from the initial state that releases what it took and does not restore the lists |
| BuddyMisaligned.RestoresIffAligned | kernel/mm/pmm.c:65-197 | all runs from all initial states that release what they took restore the lists, if and only if the base is aligned |
| BuddyMisaligned.FourMiBBaseMisplaces | kernel/mm/pmm.c:153-191 | a run of six operations, from a base of 4 MiB, after which an 8 MiB block that is not aligned to its size is listed |
| BuddyMisaligned.FourMiBBaseBooksTwice | kernel/mm/pmm.c:99-191 | one allocation more, after which a block is listed as free that is allocated |
| BuddyArith.BuddiesAreFlips | kernel/mm/pmm.c:200-202 | both computations flip one bit of a page frame number, for all pages and orders |
| BuddyArith.InitStaysInRange | kernel/mm/pmm.c:37-59 | initialisation stays within its range if and only if the alignment gap fits in the part of the range that is no whole block |
| BuddyArith.MergeableBaseOverruns | kernel/mm/pmm.c:37-59 | with an 8 MiB aligned base the listed blocks always end beyond the range |
| BuddyArith.ShippedRange | include/boot_config.h:28-29 | in the shipped configuration the two blocks are at 24 and 32 MiB, of a range that ends at 32 MiB |
| BuddyBlocks.BlockGeometry | kernel/mm/pmm.c:178-184 | taking the buddy is an involution, a block and its buddy are disjoint and make up their common parent exactly |
| BuddyBlocks.CanonicalForm | kernel/mm/pmm.c:153-191 | disjoint, aligned, fully coalesced free blocks are exactly the maximal aligned blocks inside the set of free pages |
| BuddyBlocks.TilingUnique | kernel/mm/pmm.c:153-191 | a set of free pages has one coalesced tiling only |
| BuddyBlocks.LargeEnough | kernel/mm/pmm.c:77-82 | some listed block has order at least o exactly when some aligned run of 2^o pages is free |
| BuddyLists.AllocateMeaning | kernel/mm/pmm.c:74-133 | allocation fails exactly when no aligned run of that many free pages exists; else the result is aligned, was wholly free, comes from the smallest sufficient order, and the rest is tiled again |
| BuddyLists.ReleaseMeaning | kernel/mm/pmm.c:153-191 | releasing a block of pages that are not free makes just those pages free, in the coalesced tiling |
| BuddyLists.AllocateRelease | kernel/mm/pmm.c:65-197 | allocating and releasing again restores every free list exactly, in the same order |
| BuddyLists.SplitRelease | kernel/mm/pmm.c:100-185 | halving a block down and releasing the part that is left merges all the halves again, list by list |
| BuddyLists.FreeCountIsPages | kernel/mm/pmm.c:219-226 | the total computed from the list lengths is the number of free pages |
| BuddyRuns.InitialInv | kernel/mm/pmm.c:45-59 | the state after initialisation satisfies the invariant |
| BuddyRuns.RunKeeps | kernel/mm/pmm.c:65-197 | every run of matched allocations and releases keeps the invariant |
| BuddyRuns.RunPartition | kernel/mm/pmm.c:77-191 | after every run free and live blocks are pairwise disjoint, aligned and together cover the arena, and no two free buddies are left unmerged |
| BuddyRuns.RunCanonical | kernel/mm/pmm.c:99-191 | two runs that end with the same live pages end with the same free lists, as sets, whatever happened in between |
| BuddyRuns.RunReleasingAll | kernel/mm/pmm.c:153-191 | releasing everything live in any order restores the lists and their lengths |
| BuddyRuns.RunConserves | kernel/mm/pmm.c:219-226 | the free total plus the live pages is the arena, over every run |
| BuddyRuns.AllocSize | kernel/mm/pmm.c:118-132 | an allocation makes exactly 2^order more pages live |
| BuddyRuns.FreeSize | kernel/mm/pmm.c:146-191 | a release makes exactly 2^order fewer pages live |
| BuddyRuns.AllocFree | kernel/mm/pmm.c:65-197 | in every reachable state, releasing what was just allocated is a release of a live block and gives back every free list in its order and the live blocks |
| BuddyRuns.RunBitmap | kernel/mm/pmm.c:113-151 | in every reachable state a page whose bit is clear is in a listed free block |
| BuddyRuns.AllocBits | kernel/mm/pmm.c:113-125 | an allocation sets the bits of its pages and of the first page of every upper half that it lists, and no other bit changes |
| BuddyRuns.FreeBits | kernel/mm/pmm.c:135-151 | an accepted release clears the bits of its pages and no other; a rejected one changes none |
| BuddyRuns.ReleasedBitsClear | kernel/mm/pmm.c:113-151 | from every initial state, for every order, a run after which the bits of a whole block are clear |
| IntrusiveList.ListInit | include/list.h:12-15 | the head becomes an empty circle |
| IntrusiveList.ListAdd | include/list.h:17-22 | the circle goes through the new element first and then through the old ones, in both directions |
| IntrusiveList.ListDel | include/list.h:24-28 | the circle goes through the other elements in their order, and the removed links are null |
| IntrusiveList.ListEmpty | include/list.h:30-32 | answers whether the circle has no elements |
| Bitmap.SetRange | kernel/mm/pmm.c:124-125 | sets the bits of consecutive pages and no other bit |
| Bitmap.ClearRange | kernel/mm/pmm.c:149-151 | clears the bits of consecutive pages and no other bit |
| PageAllocator.BitmapFitsIff | kernel/mm/pmm.c:30-55 | the bits that initialisation sets lie before the first listed block, unless the range has exactly as many pages as the gap before that block has bits |
| PageAllocator.BitmapOverruns | kernel/mm/pmm.c:30-55 | a page-aligned range of 128 MiB whose bits do not lie there |
| PageAllocator.BuddySystem.constructor | kernel/mm/pmm.c:8-63 | initialisation establishes the circles, counters and bitmap of the initial state, which is a working allocator if the base is aligned |
| PageAllocator.BuddySystem.FindOrder | kernel/mm/pmm.c:77-82 | the search finds the smallest order with a block |
| PageAllocator.BuddySystem.SplitBlock | kernel/mm/pmm.c:100-116 | the split loop lists the upper halves down to the order, in circles, counters and bitmap |
| PageAllocator.BuddySystem.FindAndUnlink | kernel/mm/pmm.c:159-172 | the scan unlinks the buddy exactly if it is on the list, and the circle is well formed after the deletion inside the scan |
| PageAllocator.BuddySystem.TryMerge | kernel/mm/pmm.c:154-184 | one turn of the merge loop |
| PageAllocator.BuddySystem.MergeLoop | kernel/mm/pmm.c:154-185 | the merge loop ends with the block that the release lists |
| PageAllocator.BuddySystem.AllocPages | kernel/mm/pmm.c:65-133 | takes the allocation step, returns its address, and 0 exactly if there is no block; in the array the bits of the block and of the first pages of the upper halves are set and all others are as before |
| PageAllocator.BuddySystem.FreeBlock | kernel/mm/pmm.c:135-197 | takes the release step, and ignores an invalid order or an address below the base; in the array the bits of the released pages, and no others, are cleared |
| PageAllocator.BuddySystem.Stats | kernel/mm/pmm.c:219-226 | the reported free pages are the free pages |
| PageLedger.TakeMeaning | kernel/mm/pmm.c:65-133 | a single-page allocation fails exactly if no page is free, and else takes one free page |
| PageLedger.GiveMeaning | kernel/mm/pmm.c:135-197 | releasing a live single page makes exactly that page free |
| PagePool.Pool.SameLists | kernel/mm/pmm.c:99-191 | when the same pages are live again, the same blocks are on the same lists of the allocator object again |
| PagePool.LoggedPool.Alloc | kernel/mm/pmm.c:65-133 | pages taken since a mark are distinct and were free; allocation fails exactly when all that were free are taken |
| PagePool.LoggedPool.GiveBack | kernel/mm/pmm.c:135-197 | giving a taken page back undoes its taking |
| HeapChain.BestFitMeaning | kernel/mm/kmalloc.c:53-64 | the search returns the first smallest block that fits, and nothing exactly if none fits |
| HeapChain.UsedDeterminesChain | kernel/mm/kmalloc.c:124-143 | two well-formed heaps with the same blocks in use are the same block by block |
| HeapChain.TakeKeeps | kernel/mm/kmalloc.c:66-85 | splitting and taking a block keeps the tiling, the sizes and the coalescing |
| HeapChain.GiveKeeps | kernel/mm/kmalloc.c:124-143 | freeing with merging on both sides keeps the tiling, the sizes and the coalescing |
| HeapRuns.RunKeeps | kernel/mm/kmalloc.c:40-186 | every run of kmalloc, kfree and krealloc keeps the tiling of the 1 MiB region, the coalescing and the counters |
| HeapRuns.RunHistoryIndependent | kernel/mm/kmalloc.c:66-143 | two runs that end with the same blocks in use end with the same block list |
| HeapRuns.RunFreeingAll | kernel/mm/kmalloc.c:124-143 | once everything is freed, in any order, one free block of 1 MiB remains |
| HeapRuns.RunLedger | kernel/mm/kmalloc.c:91-122 | usage is the sum of the used blocks, and the totals differ by at most 31 bytes an allocation |
| HeapRuns.MallocFree | kernel/mm/kmalloc.c:66-143 | kmalloc followed by kfree restores the block list exactly |
| HeapRuns.MallocCompleteness | kernel/mm/kmalloc.c:50-104 | kmalloc fails exactly when no contiguous region of the rounded size exists that no block in use covers |
| HeapRuns.MallocChoice | kernel/mm/kmalloc.c:53-86 | the result is 8-byte aligned, in the first smallest block that fits |
| HeapRuns.MallocUsable | kernel/mm/kmalloc.c:66-86 | the usable size is at least the request and at most 31 bytes more |
| HeapRuns.MallocSplits | kernel/mm/kmalloc.c:66-85 | a block with 32 bytes or more to spare is cut, the rest becoming a free block behind it; with fewer all of it is taken |
| HeapRuns.MallocResult | kernel/mm/kmalloc.c:66-104 | the granted block is the only new block in use, and a failure changes nothing |
| HeapRuns.ReallocResult | kernel/mm/kmalloc.c:160-186 | krealloc of NULL puts at most one new block in use; to size 0 it takes just the block at the pointer out of use; else it changes nothing or puts one new block in use in place of the old one |
| HeapRuns.LiveStays | kernel/mm/kmalloc.c:66-85 | an allocation leaves every live block where and as it is |
| HeapRuns.FreshPointer | kernel/mm/kmalloc.c:86-97 | the result is not a pointer that is live already |
| HeapRuns.PayloadsApart | kernel/mm/kmalloc.c:12-14 | a payload meets no header and no other payload |
| KernelHeap.KernelHeap.constructor | kernel/mm/kmalloc.c:29-34 | the heap begins as one free block of the region |
| KernelHeap.KernelHeap.Kmalloc | kernel/mm/kmalloc.c:40-105 | takes the allocation step, returns zeroed bytes inside the region, and changes no byte of a live payload |
| KernelHeap.KernelHeap.Kfree | kernel/mm/kmalloc.c:107-149 | takes just the block at the pointer out of use, leaves NULL and blocks that are free alone, and changes no byte of a live payload |
| KernelHeap.KernelHeap.Kcalloc | kernel/mm/kmalloc.c:151-158 | an allocation of the product, taken as one of 32-bit words, inside the region and all of it zero |
| KernelHeap.KernelHeap.Krealloc | kernel/mm/kmalloc.c:160-186 | NULL: at most one new block; size 0: the block goes out of use; large enough: the same pointer and nothing changes; growing: one new block in place of the old one, with the old usable bytes and then zeros; failing: the old block stays as it was; no other payload changes in any case |
| KernelHeap.KernelHeap.Stats | kernel/mm/kmalloc.c:198-213 | the block totals add up to the region and to the number of blocks, and the used bytes are the usage counter |
| HeapClients.TestHeap | kernel/mm/test_mm.c:129-202 | the kernel's own test of its heap, on every heap and whichever of its allocations fail: all bytes from kcalloc are zero, what was written before krealloc is there after it, and in the end the list of blocks and the bytes of every payload in use are as they were |
| TempMapping.SlotGeometry | kernel/mm/temp_mapping.c:113-115 | every slot lies under directory entry 768, so mapping one never maps another |
| TempMapping.UnalignedSlot | kernel/mm/temp_mapping.c:75-95 | an address inside a slot but not at its start counts for the slot one number lower, and its table entry is that of the slot it lies in |
| TempMapping.Mapper.constructor | kernel/mm/temp_mapping.c:10-22 | no slot is held |
| TempMapping.Mapper.MapPage | kernel/mm/temp_mapping.c:139-141 | writes one entry of the page table |
| TempMapping.Mapper.UnmapPage | kernel/mm/temp_mapping.c:148-153 | clears one entry of the page table |
| TempMapping.Mapper.Map | kernel/mm/temp_mapping.c:24-63 | shows the page through the lowest free slot, and fails exactly if the address is unaligned or all four are held; no other entry of the table changes |
| TempMapping.Mapper.Unmap | kernel/mm/temp_mapping.c:65-105 | releases the slot, and keeps the mapping sound if and only if it does not clear the entry of another held slot; one entry of the table is cleared and no other changes |
| PageTables.NewSpacePages | kernel/mm/vmm.c:74-102 | what the directory, the two tables and the code page hold afterwards, and that every other page is as before; byte for byte the code page begins with the program |
| PageTables.NewSpaceWalk | kernel/mm/vmm.c:74-86 | the page walk of every address of the user's directory entries and of entry 0x3FE: the first page is the code, one page is the stack, everything else is unmapped |
| PageTables.NewSpaceAccess | kernel/mm/vmm.c:70-86 | both entries on the way to a mapped user page are present, writable and the user's |
| PageTables.StackTopUnmapped | kernel/mm/vmm.c:81-86 | nothing is mapped at the named stack address or at the stack top; the stack is at 0xFFBFF000 |
| PageTables.NewSpaceKernel | kernel/mm/vmm.c:15-18 | every kernel entry is the kernel's own except entry 0x3FE |
| PageTables.NewSpaceFrame | kernel/mm/vmm.c:74-102 | the two memories agree outside the five pages |
| Vmm.AddressSpaces.CreateUserSpace | kernel/mm/vmm.c:7-22 | takes one page, fails exactly if none is left, and makes it a directory with the kernel's upper entries |
| Vmm.AddressSpaces.DestroyUserSpace | kernel/mm/vmm.c:24-27 | gives the directory page back, and nothing for 0 |
| Vmm.AddressSpaces.LoadUserProgram | kernel/mm/vmm.c:29-105 | takes four pages and fills them, or, exactly if fewer are left, takes none and writes nothing; all slots are released on every path |
| Vmm.AddressSpaces.Abort | kernel/mm/vmm.c:50-67 | the cascading cleanup gives back exactly what was taken |
| Vmm.AddressSpaces.FillTable | kernel/mm/vmm.c:75-79 | one entry in an otherwise zero table, through a slot that is released |
| Vmm.AddressSpaces.CopyPage | kernel/mm/vmm.c:92-102 | the code page begins with the first bytes of the program, byte for byte |
| Vmm.AddressSpaces.CheckMappings | kernel/process/process.c:71-129 | holds at most three slots and releases them on every path |
| ProcessRuns.StepKeeps | kernel/process/process.c:18-168 | creation, start and exit keep the invariant of table, pages and identifiers |
| ProcessRuns.RunKeeps | kernel/process/process.c:18-168 | so does every run |
| ProcessRuns.RunExclusive | kernel/process/process.c:34-63 | in every run no page belongs to two processes, and no process's page is free |
| ProcessRuns.RunLedger | kernel/process/process.c:34-168 | in every run the pages held are six for a process, four for an exited one and four for every creation that failed at the kernel stack |
| ProcessRuns.RunMonotone | kernel/process/process.c:157-168 | a used slot keeps its identifier and is never used again, and an exited process stays as it is |
| ProcessRuns.RunExitsOnce | kernel/process/process.c:157-168 | no process exits twice, so its two pages are given back at most once |
| ProcessRuns.FailedCreation | kernel/process/process.c:34-54 | a failed creation never changes the table; it changes nothing at all, if and only if it is not the one that finds exactly five free pages, which leaves four more pages allocated and one free |
| ProcessRuns.CreateMeaning | kernel/process/process.c:25-63 | a creation puts a ready process with the next identifier into the first unused slot; its directory and its kernel stack are in pages that were free, and four more are taken |
| ProcessRuns.StartMeaning | kernel/process/process.c:134-150 | the ready process of that identifier, and no other, becomes running and current; without one nothing changes |
| ProcessRuns.ExitMeaning | kernel/process/process.c:157-168 | the current process is terminated, the page of its directory and the page below its kernel stack become free, and nothing else changes |
| PageShortage.SinglesTaken | kernel/mm/pmm.c:65-133 | in every reachable state, as many allocations of one page as pages are free succeed, and each leaves one page fewer free |
| PageShortage.FivePages | kernel/process/process.c:49-54 | for every allocator that has a block, once all but five of its pages are taken one by one, creating the first process fails and four of the five are lost |
| ProcessRuns.InitialInv | kernel/process/process.c:13-16 | the cleared table satisfies the invariant |
| ProcessTable.Processes.constructor | kernel/process/process.c:13-16 | the object begins in the initial world |
| ProcessTable.Processes.FindUnused | kernel/process/process.c:25-31 | the search finds the first unused slot |
| ProcessTable.Processes.Create | kernel/process/process.c:18-132 | takes a creation step, writes no page that was not free, holds at most three slots and none at the end; on success it leaves the address space that `PageTables` describes, with the program at address 0; on failure the free lists are as before, as sets, if and only if it is not the failure that loses four pages |
| ProcessTable.Processes.Start | kernel/process/process.c:134-155 | takes the start step |
| ProcessTable.Processes.Exit | kernel/process/process.c:157-168 | takes the exit step: the directory and the kernel stack are live single pages and become free |
| SpaceRuns.RunOwned | kernel/process/process.c:18-168 | over every run a process that has not exited keeps its pages, and creations, starts and exits leave their contents alone |
| SpaceRuns.RunTranslates | kernel/process/process.c:18-168 | so every user address of a process means, until it exits, what it meant when the process was created, and the code page holds the program |
| SpaceRuns.CreatedCode | kernel/mm/vmm.c:70-95 | a new process finds the first bytes of its program at address 0, for every program that was not in a free page |
| Boot.InitPages | kernel/boot.c:36-40 | allocator and heap from nothing: the heap has its 256 pages exactly if the range holds a block, and all other pages are free |
| Boot.InitTested | kernel/kmain.c:14-24 | the test of the heap leaves it with the one free block it began with, and the pages alone |
| Boot.InitProcesses | kernel/boot.c:36-45 | mappings, address spaces and the process table over those pages begin in their initial states |
| Boot.RunOneProcess | kernel/process/process.c:18-168 | from nothing, a process is created, started and exits, and exactly the heap and four pages remain allocated, or, for a range without a block, nothing |
| OpenFiles.AccessTests | kernel/fs/vfs.c:122-124 | reads and writes are denied exactly for flags whose two low bits are clear |
| OpenFileRuns.OneToOne | kernel/fs/vfs.c:68-114 | a private handle is occupied exactly if one descriptor, and only one, is open on it |
| OpenFileRuns.NeverFull | kernel/fs/ramfs.c:41-48 | each private table always has a free handle |
| OpenFileRuns.OpenMeaning | kernel/fs/vfs.c:68-95 | a failed open changes neither table, it fails for want of a descriptor exactly if all 29 are open, and a successful one opens the lowest descriptor on a handle that was free |
| FileResults.RamOpenMeaning | kernel/fs/ramfs.c:18-55 | an open of the RAM file system answers with the lowest free handle, at the beginning of the first file whose name is the path without its leading slashes |
| FileResults.RamOpenErrors | kernel/fs/ramfs.c:31-48 | it fails with ENOENT exactly if no file has that name, and with EACCES exactly if a flag asks to write and no octal digit of the mode permits it |
| FileResults.DevOpenMeaning | kernel/fs/devfs.c:22-50 | an open of the device file system answers with the lowest free handle on the device of that path, and with ENOENT exactly if it is none of the three |
| FileResults.ResolveMeaning | kernel/fs/vfs.c:47-66 | paths that begin with /dev/ are asked of what was registered last as devfs, all others of ramfs |
| FileResults.RegisterMeaning | kernel/fs/vfs.c:31-45 | a registration goes in front under the first 15 characters of its name, and the errors |
| FileResults.OpenNames | kernel/fs/vfs.c:68-95 | an open answers with a descriptor at the beginning of what the path names, in the file system that serves it |
| FileResults.OpenErrors | kernel/fs/vfs.c:68-84 | the exact condition of each error of an open |
| FileResults.ReadResult | kernel/fs/ramfs.c:67-86 | a read of a file answers with the number of bytes it moves by, as a signed word: the count or all that is left, if their sum is within a word |
| FileResults.ReadDevice | kernel/fs/devfs.c:62-98 | a read of the console takes characters up to the count, a newline or the last; one of the null device none, of the zero device the count |
| FileResults.ReadRefused | kernel/fs/vfs.c:116-128 | the errors of a read, with nothing changed |
| FileResults.WriteMeaning | kernel/fs/vfs.c:138-167 | a write answers with the count on the standard outputs and on devices, and with an error else |
| FileResults.SeekMeaning | kernel/fs/vfs.c:169-180 | a seek answers with the position it leaves the handle at, as a signed word, and with an error else, changing nothing |
| FileResults.CloseShared | kernel/fs/vfs.c:97-104 | closing a descriptor that is used more than once takes one use away and changes nothing else |
| FileResults.InitialMeaning | kernel/fs/vfs.c:11-29 | after initialisation both file systems serve their paths, both outputs can be written, and the input has nothing to read |
| OpenFileRuns.CloseMeaning | kernel/fs/vfs.c:97-114 | closing frees the descriptor and its handle, and is refused exactly for a descriptor that is not open |
| OpenFileRuns.OpenClose | kernel/fs/vfs.c:68-114 | opening and closing again restores both tables exactly |
| OpenFileRuns.StepKeeps | kernel/fs/vfs.c:31-180 | every operation keeps the correspondence, and every position within its file |
| OpenFileRuns.RunKeeps | kernel/fs/vfs.c:31-180 | so does every run |
| OpenFileRuns.RunNeverFull | kernel/fs/devfs.c:34-41 | in every run the file systems' own EMFILE exits are out of reach |
| OpenFileRuns.InitialInv | kernel/fs/vfs.c:11-29 | the tables after initialisation correspond |
| FileStreams.ReadExact | kernel/fs/ramfs.c:77-80 | a read copies what is left up to the count if and only if position plus count fits a word, and else more than is left |
| FileStreams.ReadEnd | kernel/fs/ramfs.c:75-80 | a read of a positive count copies nothing exactly at the end of the file |
| FileStreams.SeekLands | kernel/fs/ramfs.c:104-119 | seeking lands on the target, or on the end if that is outside the file, if and only if the target does not wrap into the file |
| FileStreams.SmallFileSeek | kernel/fs/ramfs.c:104-121 | below 2 GiB it always does, and returns the position |
| FileStreams.WordsWrap | kernel/fs/ramfs.c:77-119 | inputs for which a seek and a read wrap |
| FileStreams.OthersStay | kernel/fs/ramfs.c:67-122 | nothing done through other descriptors moves a descriptor, not even on the same file |
| FileStreams.StepStream | kernel/fs/ramfs.c:67-86 | every operation moves a descriptor by what it delivers |
| FileStreams.RunStream | kernel/fs/ramfs.c:67-86 | over every run without seeking, what a descriptor delivers is the stretch of the file from where it was to where it is |
| FileStreams.ReadToEnd | kernel/fs/ramfs.c:75-85 | a read returns 0 exactly when the chunks so far make up the rest of the file |
| FilePositions.ReadIsShort | kernel/fs/ramfs.c:75-85 | a read copies fewer than 2^31 bytes if and only if it is at the end, or asks for fewer, or does not wrap and fewer are left |
| FilePositions.ReadKeeps | kernel/fs/vfs.c:130-133 | a read keeps the position of a descriptor equal to that of its handle if and only if it is refused or such a short one |
| FilePositions.SeekKeeps | kernel/fs/vfs.c:179 | a seek of any kind keeps them equal if and only if its kind is unknown, its target, taken as a word, is the position, or it is at the end and the target is beyond |
| FilePositions.StepInStep | kernel/fs/vfs.c:116-180 | where all positions agree, an operation keeps them so if and only if it is neither of the two that do not |
| FilePositions.RunInStep | kernel/fs/vfs.c:116-180 | they agree all through a run if and only if no operation of it is one of these |
| FilePositions.LongReadLosesStep | kernel/fs/vfs.c:130-133 | one read of a file of 0x90000000 bytes, without any seek, after which they differ |
| FilePositions.WrappedReadLosesStep | kernel/fs/vfs.c:130-133 | two reads of a file of 20 bytes, without any seek, after which they differ |
| FileSystems.RamFileSystem.Find | kernel/fs/ramfs.c:18-29 | the first file of that name, leading slashes skipped |
| FileSystems.RamFileSystem.Open | kernel/fs/ramfs.c:31-55 | takes the open step of the RAM file system with its three errors; on success the handle is at the beginning of the file that the path names |
| FileSystems.RamFileSystem.Close | kernel/fs/ramfs.c:57-65 | takes its close step |
| FileSystems.RamFileSystem.Read | kernel/fs/ramfs.c:67-86 | takes its read step, and the buffer begins with the bytes at the position |
| FileSystems.RamFileSystem.Seek | kernel/fs/ramfs.c:96-122 | takes its seek step |
| FileSystems.DeviceFileSystem.Open | kernel/fs/devfs.c:29-50 | takes the open step of the device file system, with the device of that path |
| FileSystems.DeviceFileSystem.Close | kernel/fs/devfs.c:52-60 | takes its close step |
| FileSystems.DeviceFileSystem.ReadLine | kernel/fs/devfs.c:72-85 | reads the typed characters up to the count, a newline or the last, and leaves the rest |
| FileSystems.DeviceFileSystem.Read | kernel/fs/devfs.c:62-98 | takes its read step; zeros from the zero device |
| FileSystems.DeviceFileSystem.Write | kernel/fs/devfs.c:100-125 | takes its write step; the console shows the bytes |
| VirtualFs.Vfs.constructor | kernel/fs/vfs.c:11-29 | the object begins in the initial tables |
| VirtualFs.Vfs.Register | kernel/fs/vfs.c:31-45 | registers in front, the name cut to 15 characters, or fails for a null argument or for want of memory |
| VirtualFs.Vfs.ResolveFs | kernel/fs/vfs.c:47-66 | the file system registered last under the name that the path selects |
| VirtualFs.Vfs.Open | kernel/fs/vfs.c:68-95 | takes the open step of the tables, with its result; the descriptor is at the beginning of what the path names |
| VirtualFs.Vfs.Close | kernel/fs/vfs.c:97-114 | takes the close step of the tables, with its result |
| VirtualFs.Vfs.Read | kernel/fs/vfs.c:116-136 | takes the read step, with its result, and delivers the bytes of the file, of the keyboard or of the zero device |
| VirtualFs.Vfs.Write | kernel/fs/vfs.c:138-167 | takes the write step, with its result, and the screen shows the bytes exactly for standard output and the console |
| VirtualFs.Vfs.Seek | kernel/fs/vfs.c:169-180 | takes the seek step, with its result |
| ScreenText.PutAll | kernel/drivers/fb.c:39-66 | after every character of every stream the cursor is on the screen |
| ScreenText.CharRefines | kernel/drivers/fb.c:43-65 | one character other than a tab does to the screen what it does to the last 25 rows of the text |
| ScreenText.TabIsFourSpaces | kernel/drivers/fb.c:45-49 | a tab equals four spaces if and only if all four are on the screen |
| ScreenText.Controls | kernel/drivers/fb.c:43-60 | what backspace, newline, carriage return and a character do, by their codes, where the screen does not scroll |
| ScreenText.LastRow | kernel/drivers/fb.c:62-65 | a newline in the last row moves all rows up by one and leaves the last one blank |
| ScreenText.AttrNibbles | kernel/drivers/fb.c:78 | the foreground is in the upper four bits of the attribute, the background in the lower |
| ScreenText.WriteRefines | kernel/drivers/fb.c:43-65 | one character refines the text if and only if it is not a tab that is cut off |
| ScreenText.StreamRefines | kernel/drivers/fb.c:33-70 | for every stream without such tabs the screen is the last 25 rows of an unbounded text |
| ScreenText.TabFree | kernel/drivers/fb.c:45-49 | a stream without tabs is such a stream |
| ScreenText.PutAppend | kernel/drivers/fb.c:33-70 | two writes are one write of both |
| Display.FrameBuffer.constructor | kernel/drivers/fb.c:24-30 | a blank screen, light gray on black |
| Display.FrameBuffer.WriteCell | kernel/drivers/fb.c:73-80 | writes the character and the two colours of one cell of the buffer, and nothing off the screen |
| Display.FrameBuffer.CopyUp | kernel/drivers/fb.c:120-125 | the copying loop moves all bytes up by one row, in place |
| Display.FrameBuffer.Scroll | kernel/drivers/fb.c:118-127 | rows move up by one and the last becomes blank in the current colours |
| Display.FrameBuffer.Put | kernel/drivers/fb.c:43-65 | one turn of the loop takes the screen's step |
| Display.FrameBuffer.SetCursor | kernel/drivers/fb.c:154-167 | the two cursor registers hold the position, or the last cell for one off the screen |
| Display.FrameBuffer.Write | kernel/drivers/fb.c:33-70 | a write takes the steps of its characters, returns their number and leaves the hardware cursor at the cursor |
| Display.FrameBuffer.Puts | kernel/drivers/fb.c:130-137 | writes the string and then a zero character, which takes a cell |
| Keyboard.RingLaw | kernel/interrupts/keyboard.c:64-94 | after any interleaving of H stores and T reads, what is left to read is the last (H - T) mod 256 characters, in order |
| Keyboard.PlainQueue | kernel/interrupts/keyboard.c:64-94 | nothing is lost if and only if at most 255 characters are pending |
| Keyboard.KeyMeaning | kernel/interrupts/keyboard.c:18-62 | the conversion gives every key its character, row by row, and nothing to releases and other codes |
| Keyboard.OneKey | kernel/interrupts/keyboard.c:18-27 | every character comes from one key |
| Keyboard.Ring.Input | kernel/interrupts/keyboard.c:64-81 | pressing a key appends its character, or empties the ring if 255 are pending; releases and all other codes change nothing |
| Keyboard.Ring.GetChar | kernel/interrupts/keyboard.c:88-94 | the oldest readable character, and 0 exactly if there is none |

## Left out

- PageAllocator.BuddySystem.constructor: requires a page-aligned base, a bitmap that fits the gap (PageAllocator.BitmapFitsIff; elsewhere the source overwrites the header of its first block), and enough page frames behind the range for the blocks that it lists beyond it; the allocator's operations are modelled in place for bases aligned to 8 MiB, and for the others as values (BuddyMisaligned).
- PageAllocator.BuddySystem.FreeBlock: requires a live block with its own order, or a call that the allocator rejects; the source does not detect other misuse.
- KernelHeap.KernelHeap.constructor: takes the region of 256 pages as given; Boot.InitPages asks the page allocator for it, and makes no heap where there is none to give, which the source does not check.
- KernelHeap.KernelHeap.Kfree: requires NULL or the payload address of a block of the list; the source does not detect other pointers.
- HeapClients.TestHeap: the fifth part of the test, which allocates and frees fifty more blocks, is left out, and so are the printed totals.
- TempMapping.Mapper.MapPage: models the path on which the page table is present, which is the only one for the slots while directory entry 768 is present; the path that allocates a table is left out.
- Vmm.AddressSpaces.CreateUserSpace: requires that no temporary slot be held, as at its only call.
- Vmm.AddressSpaces.LoadUserProgram: requires that no temporary slot be held, a directory page whose content is known, a page-aligned program, and one of at most a page: the source checks no size, and its copy of a larger one runs on from the second temporary slot into the first; the contents of a page are a table, the beginning of an image or unknown, not single bytes.
- ProcessTable.Processes.Create: the module is looked up by the caller, and the name of a process is not kept.
- Display.FrameBuffer.Write: a null buffer is an empty one; the ports behind the cursor registers are left out.
- VirtualFs.Vfs.Register: whether the kernel heap has memory for the record is a parameter.
- FileSystems.RamFileSystem.Read: bytes beyond the end of a file are arbitrary.
- `ioctl` and `stat` of the file systems, `fb_direct_write`, `process_list` and `loader.c`: single reads or writes without state of their own.
- Locks are not modelled; every locked region is one step.
- Serial logging, port input and output, interrupt and descriptor tables, the switch to user mode, TLB flushes and boot code are left out.
- `switch.asm`, `syscall.c` and the string library are left out; copying and clearing are loops of the model or updates of values.
