# Pristine, modelled and proved in Dafny

Pristine is a small x86-64 kernel with its own filesystem (BSFS) and a userspace heap. This project models the parts of
it that keep state and proves what each of them keeps, over every input and every run.

* **Memory** (`Bitmap`, `FrameAllocator`, `PageTables`, `Ownership`, `Vmm`, `VmmRuns`, `Teardown`, `Processes`,
  `ProgramBreak`). Four-level page tables live in physical frames that a bitmap hands out. A path is a position in a tree
  of tables; the invariant says that two paths lead to one table only through a PML4 slot copied from the kernel. On top
  of it each process owns frames, each reached once. Main results: after any sequence of maps and unmaps of any page sizes
  every page translates as the last call that covers it says; copied slots agree with the kernel for ever; destroying a
  process frees exactly what it owns but three tables.
* **ELF loader and process life** (`Segments`, `ProgramPages`, `Elf`, `ElfFiles`, `ProcessLife`). Segments are read
  through the caching reader, page by page, into frames mapped in a new address space; what any file leads to is a
  function. Main results: the exact condition under which the pages of a segment are right for every content of the file;
  what the headers of a file, written out byte by byte, ask for is what memory holds; and over the whole life of a process, with any file and any break requests, exactly three frames stay behind and one for every page
  mapped again, and everything else is as before.
* **Userspace heap** (`BinMaps`, `TreeIndex`, `Tries`, `TrieStore`, `TrieUnlink`, `TreeBins`, `BestFit`, `SmallBins`,
  `Tags`, `Sorting`, `Serving`, `Heap`, `HeapRuns`). The bitwise tries of dlmalloc with their rings and parent pointers, the small
  bins, boundary tags, the designated victim and the top. Main results: which free chunk serves a request, a best fit
  among all of them for a large one, and that the system is asked only when none has room; any run of malloc and free keeps the segment an exact tiling with every free chunk in the one bin of its size; what the
  program may write is apart from everything the allocator keeps.
* **BSFS** (`Layout`, `BlockAllocator`, `DiskFormat`, `LittleEndian`, `Packed`, `Checksum`, `Polynomial`, `DiskTree`, `DiskWrites`, `Populate`,
  `PopulateFile`, `ImageBytes`, `Metadata`, `PopulateTree`, `Extract`, `Overflow`, `Resolve`, `Cursors`, `Reader`,
  `EndToEnd`). The image is a sequence of blocks of bytes, header, bitmaps and inode table included, addressed by 32-bit
  offsets; every field is where the packed structures have it, digit by digit. Main results: extracting a populated image, from the image alone, yields the tree it was populated with,
  when that ends below 4 GiB; a tree that reaches the block 4 GiB behind the header loses it; paths resolve to the nodes the tree has there; every sequence of
  seeks and reads returns what an explicit function of the calls says, which is the file's bytes exactly when stated;
  every file passes its checksum, a change within four bytes never does, and the checksum is the remainder of a polynomial
  division.
* **Kernel heap** (`SlabPages`, `SlabLists`, `Slab`, `KernelHeap`). Free lists inside pages, two doubly linked lists of
  slabs per bin, and the kernel's page tables below them. Main results: exactly the objects handed out are in use and they
  never overlap; a page goes back exactly with its last object; the frames in use are those at the start, one for each
  slab page and the tables made for their walks, which stay.
* **Scheduler and reaper** (`Scheduler`, `Reaping`). A state machine with ticks, exits, additions, removals and destructions, and the
  code that performs its steps. A process is one life at an address that may be used again. Main results: whole-run
  safety, bounded waiting, contexts that survive being switched out, and exits that are final and reaped within bounds.

Code that updates things in place is a class with methods; each is proved against a function or relation of the state, and
the theorems are lemmas about those. `Division`, `Machine` and `Sequences` hold what the others share.

Where the code does less than one would expect, the exact extent is proved, with an input at which it fails:

* the tools compute offsets in 32 bits, so that a tree must end below 4 GiB (`ImageBytes.SeekExact`,
  `ImageBytes.PlacesApart`, `Overflow.BlockLost`, `Overflow.EightGigabytes`), and mkfs.bsfs the size of the inode table
  (`Layout.RegionsFit`);
* a small chunk without a usable rest is not always taken before the designated victim, as the comment of dlmalloc has it
  (`Serving.RemainderlessFirst`, `Serving.RemainderlessPassedOver`);
* the tree index narrows to 32 bits (`TreeIndex.NarrowingExact`, `TreeIndex.NarrowingExample`);
* the reader's cache does not record where in the buffer its block lies (`Cursors.ReadExact`,
  `Cursors.CrossingReadGoesStale`), and a read's blocks can exceed the buffer (`Cursors.OverrunExact`);
* a segment is loaded right only when its offsets, its size and the blocks agree (`Segments.LoadExact`,
  `Segments.ShortExample`, `Segments.IncongruentExample`, `Segments.WrapExample`, `Elf.LoadShort`);
* the kernel heap keeps its page tables (`KernelHeap.NothingLost`, `KernelHeap.FirstObject`), a destroyed process leaves
  three frames (`Processes.ThreeLeft`), and the loader loses a frame for every page it maps again (`ProcessLife.Life`,
  `Elf.SharedPage`);
* the check for shrinking the break wraps around (`ProgramBreak.ShrinkCheckExact`, `ProgramBreak.ShrinkCheckFails`,
  `ProgramBreak.Sbrk`);
* checking a file with reads of no bytes does not end (`Cursors.EndsExact`);
* directory entries need a block size that is a multiple of 128 (`Populate.EntriesWithinBlocks`), and names survive up to
  123 characters (`DiskFormat.NameSurvives`);
* an empty path component can lead to inode 0 (`Resolve.SentinelExact`, `Resolve.ResolvesToZero`, `Resolve.DoubleSlash`).

## Model

| member | source | states |
|---|---|---|
| Bitmap.Set | kernel/bitmap.c:14-17 | the bits become the old ones with that one set |
| Bitmap.Clear | kernel/bitmap.c:19-22 | the bits become the old ones with that one cleared |
| Bitmap.Test | kernel/bitmap.c:24-27 | the bit's value |
| Bitmap.Find | kernel/bitmap.c:29-47 | the search by 64-bit words, masked last word included, returns the least clear bit below the count, and UINT32_MAX exactly when there is none |
| Bitmap.MaskIsShift | kernel/bitmap.c:14-17 | the mask of bit k is one shifted left by k: bits are counted from the lowest |
| FrameAllocator.Pmm.Alloc | kernel/kernel/pmm.c:24-39 | takes the lowest free frame into use and nothing else; fails exactly when none is free |
| FrameAllocator.Pmm.Free | kernel/kernel/pmm.c:42-54 | takes exactly that frame out of use |
| FrameAllocator.Pmm.FreePageCount | kernel/kernel/pmm.c:62-70 | frames minus frames in use |
| PageTables.LeafWriteRemaps | kernel/kernel/vmm.c:72 | for any set of tree-shaped address spaces, writing a leaf of any size keeps the tree invariant and changes the translation of exactly the pages that leaf covers, in exactly the spaces that share its PML4 slot |
| PageTables.AttachInv | kernel/kernel/vmm.c:40-65 | hanging a fresh zeroed table into an empty entry keeps the tree invariant and all other PML4 slots |
| PageTables.AttachTranslate | kernel/kernel/vmm.c:40-65 | a new empty table changes no translation in any address space |
| PageTables.CopySlotInv | kernel/kernel/process.c:18-20 | copying a kernel slot keeps the tree invariant |
| PageTables.SeesTable | kernel/kernel/process.c:18-20 | two address spaces reach the same table at a path exactly when they share its PML4 slot |
| Vmm.AddressSpaces.constructor | kernel/kernel/vmm.c:13-17 | the kernel's empty address space satisfies the invariant and maps nothing |
| Vmm.AddressSpaces.Descend | kernel/kernel/vmm.c:40-65 | one level of the walk: the table at the entry, created when missing from a frame no table or mapping uses, with the flags asked for; every other entry is as before |
| Vmm.AddressSpaces.Walk | kernel/kernel/vmm.c:40-65 | the page table of an address, with the missing tables created with the flags asked for, no translation changed |
| Vmm.AddressSpaces.Map | kernel/kernel/vmm.c:19-73 | exactly the named page changes its translation, in exactly the spaces that share its slot; tables appear only on its walk, and the frames taken are exactly theirs; the page is reached from user mode exactly when it was mapped for it and the tables there were on its walk let user mode through; the owners' frame sets balance, a frame that was mapped there before leaving its owner's |
| Vmm.AddressSpaces.Unmap | kernel/kernel/vmm.c:75-120 | exactly the named page loses its translation; every table stays |
| Vmm.AddressSpaces.MapLarge | kernel/kernel/vmm.c:122-170 | exactly the 512 pages of the 2 MiB range change; reached from user mode under the same condition |
| Vmm.AddressSpaces.UnmapLarge | kernel/kernel/vmm.c:172-206 | exactly the 2 MiB range loses its translation |
| Vmm.AddressSpaces.MapHuge | kernel/kernel/vmm.c:208-242 | exactly the 512 * 512 pages of the 1 GiB range change; reached from user mode under the same condition |
| Vmm.AddressSpaces.UnmapHuge | kernel/kernel/vmm.c:244-271 | exactly the 1 GiB range loses its translation |
| Vmm.LeafAccess | kernel/kernel/vmm.c:36-72 | for leaves of every size: all entries on the walk have the user bit exactly when the leaf was mapped with it and no table that was there lacks it |
| Vmm.SharedAgree | kernel/kernel/process.c:18-20 | through a copied slot a process translates every address as the kernel does |
| Vmm.SharedForever | kernel/kernel/process.c:18-20 | after any run of steps that keep shared slots shared, as every map, unmap and free does, a process still translates each address of a slot copied at its creation as the kernel does |
| Vmm.LowerHalfIsolated | kernel/kernel/vmm.c:40-73 | a map or unmap in the lower half of one process changes no translation of any other |
| VmmRuns.Perform | kernel/kernel/vmm.c:19-271 | one map or unmap of any page size changes exactly its range, and no slot becomes shared or ceases to be |
| VmmRuns.Run | kernel/kernel/vmm.c:19-271 | after any sequence of maps and unmaps of all page sizes in any mix of spaces, each page of each space translates to what the last call wrote that covers it in a space with the same table in that slot, and otherwise as before |
| VmmRuns.SharedSlots | kernel/kernel/process.c:18-20 | so a process translates each page of a slot it shares as the kernel does, whatever is mapped and unmapped |
| VmmRuns.LowerHalves | kernel/kernel/vmm.c:40-73 | and no call of another space changes its lower half |
| Ownership.AttachOwned | kernel/kernel/vmm.c:40-65 | a new private table adds exactly its frame to the frames its process owns, and nothing to any other |
| Ownership.LeafOwned | kernel/kernel/vmm.c:72 | replacing a private 4 KiB leaf exchanges exactly its frame in the frames its process owns |
| Ownership.RemoveRoot | kernel/kernel/process.c:58-66 | an address space and frames it owns can go while all others keep the invariant and what they own |
| Teardown.FreeRun | kernel/kernel/vmm.c:287-289 | takes exactly that run of frames out of use |
| Teardown.Free | kernel/kernel/vmm.c:273-319 | frees exactly the frames behind the 4 KiB, 2 MiB or 1 GiB leaf, and unmaps exactly its range |
| Teardown.BelowDisjoint | kernel/kernel/vmm.c:321-343 | what the traversal frees for one entry it frees for no other: nothing is freed twice |
| Teardown.LowerFrames | kernel/kernel/vmm.c:321-343 | the traversal meets exactly the tables and 4 KiB pages of the lower half |
| Teardown.ReleaseTable | kernel/kernel/vmm.c:325-341 | one level of the nested loops frees exactly the frames below its entries |
| Teardown.Destroy | kernel/kernel/vmm.c:321-343 | exactly the lower-half tables and 4 KiB pages leave use |
| Processes.MapPages | kernel/kernel/process.c:23-26 | a run of pages gets fresh frames, and the process owns exactly the frames that came into use |
| Processes.CopyKernelHalf | kernel/kernel/process.c:18-20 | the upper half is the kernel's, and no space owns more or less than before |
| Processes.MapStacks | kernel/kernel/process.c:22-32 | both stacks are mapped with fresh frames; the private upper half is the kernel stack and its tables |
| Processes.Create | kernel/kernel/process.c:13-56 | a process whose private memory is 4 KiB pages, whose upper half agrees with the kernel's, and that owns exactly the frames newly in use; its stack is the one asked for, or the kernel stack when none is |
| Processes.FreePages | kernel/kernel/process.c:61-63 | unmaps exactly those pages and frees exactly their frames |
| Processes.DestroyProcess | kernel/kernel/process.c:58-66 | takes exactly the frames the process owns out of use, except its private upper-half tables; every other space keeps its frames and translations |
| Processes.ThreeLeft | kernel/kernel/vmm.c:322 | with the default kernel stack the frames left behind are exactly three: the PDPT, PD and PT of slot 510 |
| ProgramBreak.HeapGrows | kernel/kernel/syscall.c:52-58 | after a growth the heap is mapped exactly from its start to the new break rounded up |
| ProgramBreak.HeapShrinks | kernel/kernel/syscall.c:43-47 | after a shrink likewise, and the frames of the pages given up are free |
| ProgramBreak.ShrinkCheckExact | kernel/kernel/syscall.c:40-42 | the wrapping comparison tells whether the break would fall below its start exactly when the request is at most the break |
| ProgramBreak.ShrinkCheckFails | kernel/kernel/syscall.c:40-42 | a request larger than the break for which it does not: the new break wraps around and lies above the old one |
| ProgramBreak.Sbrk | kernel/kernel/syscall.c:36-63 | returns the old break and moves it by the request, keeping the heap mapped exactly up to the rounded break; a shrink below the start changes nothing; a shrink by more than the break is accepted, wraps the break around and leaves every page mapped; other spaces and their frames are untouched |
| ProgramBreak.NewSpace | kernel/kernel.c:455-458 | a fresh empty address space that owns its PML4 alone |
| ProgramPages.NewPage | kernel/kernel/elf.c:85-86 | one page, mapped before or not, gets a frame that was not in use; the process gains exactly the frames that came into use and loses exactly the one that was mapped there; no other page or space changes |
| ProgramPages.LoadingStep | kernel/kernel/elf.c:85-88 | with its bytes in that frame, the pages mapped below the stack are exactly those loaded so far, each to a frame of the process that holds its bytes; outside the process everything is as before, but for one more frame that is nobody's exactly when the page was mapped already |
| ProcessLife.Launch | kernel/kernel.c:455-484 | for every file whose segments lie below the stack: kmain's new address space, the loader and process_create leave a living process with exactly the pages `Elf.Execution` says, each in a frame with its bytes, its break one page above the highest segment, and everything outside it as it was but for one lost frame for every page mapped again; otherwise which error, or that no frame is left |
| ProcessLife.Breaks | kernel/kernel/syscall.c:36-63 | any sequence of break requests keeps the process living and the rest untouched; the break ends where the requests, one by one, lead |
| ProcessLife.Life | kernel/kernel.c:455-484 | from the first frame to process_destroy, with any such file and any sequence of break requests: afterwards the frames in use are those in use at the start plus exactly three and one for every page mapped again, every other space translates as before and owns what it owned; the break ends where the requests lead |
| ProcessLife.RightLife | kernel/kernel.c:455-484 | for a file that is read right these are three and one for every page of a segment that an earlier segment has too |
| BinMaps.NegBits | userspace/libc/malloc.c:2938-2944 | two's complement negation keeps a word up to its lowest set bit and complements it above |
| BinMaps.MarkedAbove | userspace/libc/malloc.c:4472 | `left_bits(idx2bit(i)) & map` keeps exactly the marks above bin i |
| BinMaps.FirstMarked | userspace/libc/malloc.c:4475-4476 | least_bit and compute_bit2idx find the first marked bin |
| BinMaps.MarkedBeyond | userspace/libc/malloc.c:4608 | the marks of the small bins after bin i |
| TreeIndex.IndexRange | userspace/libc/malloc.c:2846-2857 | sizes below 2^40 go to the bin whose interval holds them |
| TreeIndex.BinsAdjoin | userspace/libc/malloc.c:2918-2920 | each bin ends where the next begins |
| TreeIndex.BinsOrdered | userspace/libc/malloc.c:2846-2857 | every size of a lower bin is smaller than every size of a higher one |
| TreeIndex.NarrowingExact | userspace/libc/malloc.c:2848 | the index with its value narrowed to 32 bits is the intended one exactly for sizes below 2^40 and those whose narrowed value still selects the last bin |
| TreeIndex.NarrowingExample | userspace/libc/malloc.c:2848 | a size for which the narrowed index is wrong |
| Tries.InsertHolds | userspace/libc/malloc.c:3656-3705 | inserting adds exactly the one chunk |
| Tries.InsertTrie | userspace/libc/malloc.c:3656-3705 | inserting keeps every subtree's sizes in agreement with the bits that lead to it |
| Tries.RemoveHolds | userspace/libc/malloc.c:3724-3793 | removing takes out exactly the one chunk |
| Tries.RemoveTrie | userspace/libc/malloc.c:3724-3793 | removing keeps sizes and bits in agreement, also when a descendant leaf replaces an inner node |
| TrieStore.InsertRep | userspace/libc/malloc.c:3669-3704 | the pointer writes turn the memory of a trie into that of the trie with the chunk inserted |
| TrieUnlink.UnchainHere | userspace/libc/malloc.c:3727-3733 | taking a chunk out of the ring of its size leaves the memory of the node without it |
| TrieUnlink.CutRep | userspace/libc/malloc.c:3740-3748 | cutting the last leaf leaves the memory of the tree without it |
| TrieUnlink.AdoptRep | userspace/libc/malloc.c:3768-3788 | the replacement takes over parent and children |
| TrieUnlink.RemoveBelow | userspace/libc/malloc.c:3754-3793 | changing only the node of the chunk and the pointer to it gives the memory of the trie without the chunk |
| TreeBins.LeadingStep | userspace/libc/malloc.c:3671-3675 | the shifted size word selects the child whose sizes agree with the chunk's next bit |
| TreeBins.Bins.constructor | userspace/libc/malloc.c:3918-3919 | empty bins |
| TreeBins.Bins.FindSpot | userspace/libc/malloc.c:3670-3688 | the walk ends at the node of the size or at the empty child on its path |
| TreeBins.Bins.Insert | userspace/libc/malloc.c:3656-3705 | the binned chunks are the old ones and this one; sizes agree with bits, and a map bit is set exactly when its bin has a chunk |
| TreeBins.Bins.LastBelow | userspace/libc/malloc.c:3742-3746 | the leaf reached by going right where possible and left otherwise |
| TreeBins.Bins.Detach | userspace/libc/malloc.c:3727-3753 | finds the replacement: a chunk of the same size, a leaf below, or none |
| TreeBins.Bins.Relink | userspace/libc/malloc.c:3754-3792 | puts the replacement where the chunk was |
| TreeBins.Bins.Unlink | userspace/libc/malloc.c:3724-3793 | the binned chunks are the old ones without this one, with the same invariant |
| BestFit.PathStep | userspace/libc/malloc.c:4452-4469 | a step down the path of nb keeps every chunk that could be better in the subtree taken or in the last right subtree passed by |
| BestFit.LeftStep | userspace/libc/malloc.c:4481-4488 | a step to the leftmost child loses no smaller chunk |
| BestFit.SearchPath | userspace/libc/malloc.c:4448-4470 | the walk down the path of nb |
| BestFit.SearchLeft | userspace/libc/malloc.c:4481-4488 | the leftmost walk finds a smallest chunk of its tree |
| BestFit.FindLarge | userspace/libc/malloc.c:4442-4488 | for every request the chunk found is of least size at least nb among all binned chunks, and none is found only when none is that large |
| BestFit.FindSmall | userspace/libc/malloc.c:4517-4528 | finds a smallest binned chunk |
| SmallBins.Bins.constructor | userspace/libc/malloc.c:3918-3925 | empty bins |
| SmallBins.Bins.Insert | userspace/libc/malloc.c:3578-3594 | the binned chunks are the old ones and this one, which goes to the front of the ring of its size; a map bit is set exactly when its ring has a chunk |
| SmallBins.Bins.Unlink | userspace/libc/malloc.c:3597-3620 | the binned chunks are the old ones without this one |
| SmallBins.Bins.UnlinkFirst | userspace/libc/malloc.c:3623-3638 | takes out the front chunk of the ring, which is of exactly the bin's size |
| Tags.Tiling | userspace/libc/malloc.c:2158-2164 | an address is in the segment exactly when it is in a chunk, and then in one only |
| Tags.Take | userspace/libc/malloc.c:3067-3069 | using a free chunk whole keeps tiling, heads and feet |
| Tags.Carve | userspace/libc/malloc.c:4500-4502 | splitting a free chunk keeps tiling, heads and feet |
| Tags.CarveTop | userspace/libc/malloc.c:4666-4671 | taking from the front of the top keeps them |
| Tags.MergeInv | userspace/libc/malloc.c:4713-4772 | joining a freed chunk with its free neighbours keeps them, so that no two free chunks touch |
| Tags.ResizeTop | userspace/libc/malloc.c:3904-3916 | a longer or shorter top keeps them |
| Sorting.SortedTake | userspace/libc/malloc.c:4590-4600 | using a chunk whole keeps every other free chunk in the one bin of its size |
| Sorting.SortedNewDv | userspace/libc/malloc.c:3642-3651 | so does the rest of a split becoming the designated victim (dv) |
| Sorting.SortedSplitDv | userspace/libc/malloc.c:4649-4654 | so does taking from the dv |
| Sorting.SortedSplitBin | userspace/libc/malloc.c:4496-4503 | so does binning the rest of a split |
| Sorting.SortedSplitTop | userspace/libc/malloc.c:4666-4671 | so does taking from the top |
| Sorting.SortedMergeTop | userspace/libc/malloc.c:4742-4753 | so does joining the top |
| Sorting.SortedMergeDv | userspace/libc/malloc.c:4754-4759 | so does joining the dv |
| Sorting.SortedMergeBin | userspace/libc/malloc.c:4760-4784 | so does binning a merged chunk |
| Heap.Padded | userspace/libc/malloc.c:2239-2244 | 32, or the least multiple of 16 that holds the request and its overhead if that is more |
| Heap.Allocator.constructor | userspace/libc/malloc.c:4184-4192 | an empty heap |
| Heap.Allocator.Separate | userspace/libc/malloc.c:4552-4797 | chunks in use never overlap |
| Heap.Allocator.InsertChunk | userspace/libc/malloc.c:3797-3799 | the chunk goes to the kind of bin its size selects; a small one is then the newest of its size |
| Heap.Allocator.UnlinkChunk | userspace/libc/malloc.c:3801-3803 | the chunk leaves its bin |
| Heap.Allocator.UseSmall | userspace/libc/malloc.c:4590-4598 | the newest chunk of the bin comes into use whole; every other free chunk, the break and the chunks in use stay |
| Heap.Allocator.SplitSmall | userspace/libc/malloc.c:4604-4625 | a chunk of a larger small bin comes into use, whole or its front; the rest becomes the dv and the old dv goes to its bin |
| Heap.Allocator.CarveToDv | userspace/libc/malloc.c:4538-4540 | the front of a binned chunk comes into use, the rest becomes the dv and the old dv goes to its bin |
| Heap.Allocator.CarveToBin | userspace/libc/malloc.c:4500-4502 | the front of a binned chunk comes into use and the rest goes to the bin of its size |
| Heap.Allocator.TmallocSmall | userspace/libc/malloc.c:4513-4548 | a smallest tree chunk comes into use, whole or its front, the rest becoming the dv |
| Heap.Allocator.TmallocLarge | userspace/libc/malloc.c:4442-4510 | a tree chunk of least sufficient size comes into use, whole or its front, the rest going to a bin; it declines only when none fits or the dv fits at least as well, and then changes nothing |
| Heap.Allocator.FromDv | userspace/libc/malloc.c:4646-4661 | the dv comes into use: its front, the rest staying the dv, or all of it when the rest could not be a chunk |
| Heap.Allocator.FromTop | userspace/libc/malloc.c:4666-4672 | exactly the front of the top comes into use |
| Heap.Allocator.Morecore | userspace/libc/malloc.c:4108 | the break moves up by the amount asked exactly when the system grants the call and the limit allows it, and stays otherwise |
| Heap.Allocator.InitTop | userspace/libc/malloc.c:3904-3916 | the head of the top and of what lies behind it |
| Heap.Allocator.AddSpace | userspace/libc/malloc.c:4184-4217 | new space joins the top or becomes the first segment; the chunks in use stay |
| Heap.Allocator.GetContiguous | userspace/libc/malloc.c:4091-4123 | asks the break for the fewest whole pages that suffice; it fails only when the call was refused or the size is absurd, and then contiguous extension is given up |
| Heap.Allocator.AskSystem | userspace/libc/malloc.c:4091-4180 | what is granted, less than a page more than the request and its overhead, lies at the old break; it fails only when every call made, one at least, was refused or went beyond the limit, or when the size is absurd |
| Heap.Allocator.SysAlloc | userspace/libc/malloc.c:4045-4251 | serves the request from the front of the top extended, or of the new segment, with less than a page asked for in vain; or changes nothing, and then only when refused or near 2^63; bins and dv stay |
| Heap.Allocator.MallocSmall | userspace/libc/malloc.c:4583-4634 | serves exactly the small requests that `Serving.Server` gives to the small bins or the trees, with the chunk it names, the newest one if one has the very size; else changes nothing |
| Heap.Allocator.MallocLarge | userspace/libc/malloc.c:4638-4643 | serves exactly the large requests that `Serving.Server` gives to the trees, with the chunk it names; else changes nothing |
| Heap.Allocator.MallocRest | userspace/libc/malloc.c:4645-4680 | the last choices: the dv, the top, the system, in that order |
| Heap.Allocator.Malloc | userspace/libc/malloc.c:4552-4686 | the chunk that comes into use is the one `Serving.Server` names among the free chunks there were, as much of it as `Serving.Portion` says, less than 32 bytes more than needed, the rest staying free where `Serving.Dealt` says; the system is asked or null returned only when no small chunk, no tree chunk and not the dv has room and the top is not larger; then the new chunk is the front of the extended top; it is apart from all others, and nothing else changes for the program; null only when every call of sbrk made, one at least, was refused or went beyond the limit, or the request is near 2^63 |
| Heap.Allocator.Trim | userspace/libc/malloc.c:4303-4354 | asks for whole pages of the top to be taken back exactly when it is larger than its foot; if that is granted, a page and the foot at most are left, else the break stays and trimming is switched off; chunks in use, bins and dv stay |
| Heap.Allocator.JoinTop | userspace/libc/malloc.c:4742-4749 | exactly the freed chunk leaves use; it and its free neighbours are the front of the top |
| Heap.Allocator.FreeToTop | userspace/libc/malloc.c:4742-4753 | the same; pages are offered back exactly when the top exceeds the trim threshold |
| Heap.Allocator.FreeToDv | userspace/libc/malloc.c:4754-4759 | exactly the freed chunk leaves use and joins the dv |
| Heap.Allocator.FreeToBin | userspace/libc/malloc.c:4760-4784 | exactly the freed chunk leaves use; joined with its free neighbours it is the dv or in the bin of its size, where a small one is the newest |
| Heap.Allocator.UseTree | userspace/libc/malloc.c:4497-4498 | a tree chunk is used whole |
| Heap.Allocator.TagFreed | userspace/libc/malloc.c:4761-4772 | the tags of the freed chunk joined with a free one behind it, which leaves its bin |
| Heap.Allocator.SettleDv | userspace/libc/malloc.c:4765-4768 | exactly the freed chunk leaves use, the joined one being the dv |
| Heap.Allocator.SettleBin | userspace/libc/malloc.c:4774-4784 | exactly the freed chunk leaves use, the joined one going to its bin |
| Heap.Allocator.Free | userspace/libc/malloc.c:4690-4797 | exactly the freed chunk leaves use; it and the free chunks before and behind it, out of their bins, become one: front of the top, dv, or a chunk in the bin of its size, as `Serving.Rejoined` says; pages of the top are offered back exactly when it exceeds the trim threshold; null does nothing |
| HeapRuns.ChunkTags | userspace/libc/malloc.c:2141-2169 | after any run each head tells size and use, each P bit the use of the chunk before, each foot the size of a free chunk before, and two free chunks never touch |
| HeapRuns.Tiled | userspace/libc/malloc.c:2158-2164 | after any run each address of the segment is in exactly one chunk |
| HeapRuns.OneBin | userspace/libc/malloc.c:3797-3803 | after any run a chunk is in a bin exactly when it is free and neither dv nor top, and the bin is the one its size selects |
| Serving.SystemLast | userspace/libc/malloc.c:4552-4680 | the order of choices comes to the system exactly when no small chunk, no tree chunk and not the dv has room and the top is not larger than the request |
| Serving.TreeServes | userspace/libc/malloc.c:4454-4510 | a large request is served by a tree exactly when some tree chunk has room and the dv does not fit at least as well |
| Serving.LargeBestFit | userspace/libc/malloc.c:4566-4573 | a large request not served by the top or the system gets a smallest of all the free chunks with room, the dv included |
| Serving.SmallBestFit | userspace/libc/malloc.c:4554-4565 | a small request served from a bin gets a smallest of all the binned chunks with room; one served by the dv finds no chunk of its very size |
| Serving.FreedServesAgain | userspace/libc/malloc.c:4552-4797 | a chunk freed alone serves the next request of its size |
| Serving.LittleWaste | userspace/libc/malloc.c:4610-4625 | what is handed out exceeds the request by less than a chunk |
| Serving.NeighbourNext | userspace/libc/malloc.c:4559-4562 | small requests in a row get chunks in a row: after a split the next one is served from what lies behind it, unless a chunk has its very size or the rest is too small |
| Serving.LargeKeepsDv | userspace/libc/malloc.c:4496-4503 | a large request leaves the dv alone unless it is served by it |
| Serving.RemainderlessFirst | userspace/libc/malloc.c:4556-4562 | a small chunk whose rest could not be a chunk is taken before the dv exactly when it is of the very size or the dv is too small |
| Serving.RemainderlessPassedOver | userspace/libc/malloc.c:4588-4600 | a chunk of 80 bytes is passed over for a request of 64 when the dv has room |
| HeapRuns.Run | userspace/libc/malloc.c:4552-4797 | over any run of requests and releases the objects held are those the answers and releases leave, each with a chunk of its own, large enough, and no other chunk is in use |
| HeapRuns.FreeThenMalloc | userspace/libc/malloc.c:4552-4797 | a chunk freed between chunks in use serves the next request of its size without asking for memory; it is the very same chunk if it is small, or if no other free chunk is of its size |
| HeapRuns.PayloadApart | userspace/libc/malloc.c:2141-2169 | no byte of a chunk in use behind its head, up to the head of the next chunk, belongs to a head, a foot, a ring or a trie |
| HeapRuns.OwnBytes | userspace/libc/malloc.c:4552-4797 | so over any run the program may write every byte it asked for: none belongs to the allocator or to another object |
| Layout.BitmapPerMegablock | tools/bsfs/mkfs.bsfs.c:124-146 | the block bitmap has one block for every megablock |
| Layout.RegionsFit | tools/bsfs/mkfs.bsfs.c:124-146 | the regions follow each other without gaps, and the bitmaps have room for what they describe; the inode table has exactly on images of less than 2^27 blocks, its size being a 32-bit product |
| Layout.NothingWasted | tools/bsfs/mkfs.bsfs.c:124-146 | no region has a block, and the megablock bitmap no byte, that what it holds does not need; there is one inode for every four blocks |
| BlockAllocator.SliceFull | tools/bsfs/bsfs.c:84-88 | the byte scan tells whether the slice is full |
| BlockAllocator.LowestOfAll | tools/bsfs/bsfs.c:59-76 | the first open megablock and the first clear bit of its slice give the first clear bit of the whole bitmap |
| BlockAllocator.SummaryStep | tools/bsfs/bsfs.c:83-90 | taking a block and marking its megablock when full keeps: a mark is set exactly when its slice is full |
| BlockAllocator.BlockMap.constructor | tools/bsfs/bsfs-populate.c:221-251 | metadata blocks in use and no others, with the marks right |
| BlockAllocator.BlockMap.Reserve | tools/bsfs/bsfs-populate.c:238-240 | exactly the metadata blocks are set |
| BlockAllocator.BlockMap.Summarise | tools/bsfs/bsfs-populate.c:243-251 | a mark is set exactly when its slice is full |
| BlockAllocator.BlockMap.Search | tools/bsfs/bsfs.c:59-76 | the least clear bit of the whole block bitmap, below the number of blocks |
| BlockAllocator.BlockMap.Alloc | tools/bsfs/bsfs.c:58-96 | takes the lowest free block, never a metadata block, keeps the marks right and the free count exact |
| BlockAllocator.InodeMap.constructor | tools/bsfs/bsfs-populate.c:222-227 | no inode in use |
| BlockAllocator.InodeMap.Alloc | tools/bsfs/bsfs.c:98-107 | takes the lowest free inode |
| DiskFormat.WordRoundTrip | include/common/bsfs/bsfs.h:90-93 | a 32-bit word reads back as written |
| LittleEndian.FieldUnique | include/common/bsfs/bsfs.h:31-93 | a field of a packed structure, byte k of which is digit k of its value in base 256, has one value |
| DiskFormat.DirentRoundTrip | tools/bsfs/bsfs-populate.c:339-345 | an entry reads back with its inode and its name cut to 123 characters |
| DiskFormat.NameSurvives | tools/bsfs/bsfs-populate.c:342 | storing loses nothing exactly for names of at most 123 characters |
| DiskFormat.EmptySlot | tools/bsfs/bsfs-extract.c:236-238 | an unused slot reads as inode 0 with the empty name |
| Checksum.Update | kernel/common/crc32.c:19-26 | the register after the bytes |
| Checksum.OneShot | kernel/common/crc32.c:9-17 | all at once what crc32_update and crc32_finalize do in pieces |
| Checksum.FedSplit | tools/bsfs/bsfs-populate.c:417 | chunked updates equal one update over the whole, for every split |
| Checksum.FedInjective | kernel/common/crc32.c:19-26 | different registers stay different while reading the same bytes |
| Checksum.WindowDetected | kernel/common/crc32.c:9-26 | a change confined to four consecutive bytes always changes the checksum |
| Checksum.CheckValue | kernel/common/crc32.c:9-17 | the digits 1 to 9 have the checksum by which CRC-32 is known, 0xCBF43926 |
| Polynomial.FeedDivides | kernel/common/crc32.c:19-26 | for every register and message, reading the bits one by one is the long division by the generator of the bits times x^32 with the register added in front |
| Polynomial.CrcIsRemainder | kernel/common/crc32.c:9-26 | the checksum is the CRC-32 of section 8 of RFC 1952: the complement of the remainder, modulo x^32 + x^26 + x^23 + ... + x + 1, of the message times x^32 with its first 32 coefficients complemented |
| DiskTree.RepFrame | tools/bsfs/bsfs-populate.c:325-467 | a tree on disk stays where none of its blocks and inodes is written |
| ImageBytes.SeekExact | tools/bsfs/bsfs-populate.c:411-450 | a block begins at the offset the tools compute, an unsigned 32-bit product, exactly when that is below 4 GiB; every byte of the first n blocks is where they look for it exactly when they end there |
| ImageBytes.PlacesApart | tools/bsfs/bsfs-populate.c:411-450 | the first n blocks are at offsets that do not overlap exactly when the last of them begins below 4 GiB |
| ImageBytes.FetchedExact | tools/bsfs/bsfs-extract.c:283-285 | a block that begins below 4 GiB is read where it is |
| Metadata.InodeRoundTrip | include/common/bsfs/bsfs.h:71-88 | an inode reads back as written, each field cut to its width, whatever its other fields hold |
| Metadata.HeaderRoundTrip | include/common/bsfs/bsfs.h:31-55 | so does a header |
| Packed.InodeOffsets | include/common/bsfs/bsfs.h:71-88 | where the members of an inode begin, counted from the sizes of those before them |
| Packed.HeaderOffsets | include/common/bsfs/bsfs.h:31-55 | where those of the header begin |
| Packed.HeaderEnd | include/common/bsfs/bsfs.h:31-93 | the members of a header fill 512 bytes and those of a directory entry 128 |
| Packed.InodeStored | include/common/bsfs/bsfs.h:57-88 | every inode written has size, block count, block numbers and checksum at those offsets, digit by digit, and 0, 1 or 2 as its type |
| Packed.InodeParsed | include/common/bsfs/bsfs.h:57-88 | whatever 128 bytes hold, the reader takes the fields from there, and the types 1 and 2 |
| Packed.InodeInTable | tools/bsfs/bsfs-populate.c:272-273 | so it is for inode i of the table, from byte 128 i on |
| Packed.HeaderStored | include/common/bsfs/bsfs.h:31-55 | every header written has its 18 words at their offsets, digit by digit |
| Packed.HeaderParsed | include/common/bsfs/bsfs.h:31-55 | and the reader takes them from there, whatever the bytes |
| Packed.DirentStored | include/common/bsfs/bsfs.h:90-93 | every directory entry written has its inode first, then its name, with a NUL behind |
| Packed.DirentParsed | include/common/bsfs/bsfs.h:90-93 | and the reader takes them from there |
| Packed.TableStored | tools/bsfs/bsfs-populate.c:449-451 | word i of an indirect block is at byte 4 i |
| Metadata.TableRead | tools/bsfs/bsfs-extract.c:195-196 | the inode table read from the image is the one written, whatever follows it in its last block |
| Metadata.RepCut | include/common/bsfs/bsfs.h:71-88 | the widths of the fields lose nothing of a tree on disk |
| Metadata.ReadsBack | tools/bsfs/bsfs-populate.c:263-276 | after the last writes, header, inode table and bitmaps are read from the image as they were in memory |
| Metadata.StampedInPlace | tools/bsfs/bsfs-populate.c:263-276 | the metadata, at 32-bit offsets and of 32-bit lengths, goes where it belongs when it ends below 4 GiB |
| Metadata.ReadInodeExact | kernel/common/bsfs/bsfs.c:81-90 | read through its sector, inode i is the one the table on the image has at i, for images below 4 GiB |
| Metadata.BlockAtExact | kernel/common/bsfs/bsfs.c:54-63 | read by its sectors, a block is the one at its number, for such images |
| DiskWrites.ReserveNew | tools/bsfs/bsfs.c:124-127 | a directory whose blocks are full gets another one |
| DiskWrites.WriteLast | tools/bsfs/bsfs-populate.c:344-345 | writing the last entry changes that entry only |
| DiskWrites.TableRoundTrip | tools/bsfs/bsfs-populate.c:449-452 | the indirect table reads back as written |
| DiskWrites.WriteDirect | tools/bsfs/bsfs-populate.c:413-417 | a chunk with a direct pointer extends the file by its bytes |
| DiskWrites.WriteIndirect | tools/bsfs/bsfs-populate.c:418-428 | a chunk with an indirect pointer does |
| DiskWrites.Finish | tools/bsfs/bsfs-populate.c:449-456 | with the table written the inode holds the whole file |
| Populate.SlotPlace | tools/bsfs/bsfs.c:119-129 | block and offset computed from the directory's size are where the next entry goes |
| Populate.EntriesWithinBlocks | tools/bsfs/bsfs.c:119-129 | every entry lies within one block exactly when the block size is a multiple of 128; with 1100, which the tools accept, the ninth entry does not |
| Populate.Volume.constructor | tools/bsfs/bsfs-populate.c:213-253 | a zeroed image with the metadata blocks and inode 0 taken, bitmaps and inode table in memory as in the tool |
| Populate.Volume.TakeSentinel | tools/bsfs/bsfs-populate.c:253 | inode 0 is taken first and so never handed out as data |
| Populate.Volume.AllocBlock | tools/bsfs/bsfs.c:58-96 | the block next to those in use, still zero |
| Populate.Volume.AllocInode | tools/bsfs/bsfs.c:98-107 | an inode not in use, not 0, still zero |
| Populate.Volume.Write | tools/bsfs/bsfs-populate.c:411-450 | the bytes go to the 32-bit offset; while the blocks in use end below 4 GiB the image is the one that was intended |
| PopulateFile.DirectChunk | tools/bsfs/bsfs-populate.c:408-417 | the loop invariant after a chunk with a direct pointer |
| PopulateFile.IndirectChunk | tools/bsfs/bsfs-populate.c:418-428 | the loop invariant after a chunk with an indirect pointer |
| PopulateFile.Close | tools/bsfs/bsfs-populate.c:449-456 | indirect table and checksum are written |
| PopulateFile.WriteFile | tools/bsfs/bsfs-populate.c:364-456 | in the image as intended, which is the image itself while the blocks in use end below 4 GiB, the inode holds exactly the file's bytes, their checksum and the number of their blocks, in blocks newly taken; nothing in use before has changed; the free counts fall by what the file needs |
| PopulateTree.ReserveDirent | tools/bsfs/bsfs.c:109-130 | the directory has one more entry, in its last block or in a new one when that is full |
| PopulateTree.WriteEntry | tools/bsfs/bsfs-populate.c:344-345 | the last entry of the directory is the one written; other blocks are untouched |
| PopulateTree.AddLink | tools/bsfs/bsfs-populate.c:307-323 | the directory has one more entry, "." or ".." |
| PopulateTree.WriteDir | tools/bsfs/bsfs-populate.c:287-470 | for every tree within the limits the image as intended holds exactly that tree below the inode, in blocks and inodes newly taken; nothing in use before has changed; the free counts fall by what the tree needs; a last file of one block is in the last block taken |
| PopulateTree.PopulateImage | tools/bsfs/bsfs-populate.c:206-276 | when the tree ends below 4 GiB the image alone holds exactly it: from the header in its block, the inode table at the place the header gives, and the blocks the inodes point to, directly behind the metadata; the bitmaps on it are those in memory; in any case the header is where it is looked for, with magic number, version, root inode, the free blocks and the free inodes, which are all but the sentinel and one for each node of the tree; and so is the inode table if the metadata ends below 4 GiB |
| PopulateTree.WriteMetadata | tools/bsfs/bsfs-populate.c:263-276 | the five writes at the end: bitmaps, inode table and every field of the header read back as they were in memory, and the tree above them is undisturbed |
| Extract.WriteInodeToFile | tools/bsfs/bsfs-extract.c:270-332 | on any image and for any inode: `CopyOut`, with 32-bit offsets, short reads and counts that leave the buffer |
| Extract.FileCopied | tools/bsfs/bsfs-extract.c:270-332 | for a file whose blocks begin below 4 GiB that is exactly its bytes |
| Extract.ExtractBlock | tools/bsfs/bsfs-extract.c:226-264 | the entries of a block that are neither unused nor links are extracted in order |
| Extract.ExtractDir | tools/bsfs/bsfs-extract.c:214-268 | the tree extracted is exactly the one the image holds, its blocks beginning below 4 GiB |
| Extract.ExtractImage | tools/bsfs/bsfs-extract.c:118-208 | from the image, the block size and the block of the header alone: the tree the image holds below 4 GiB, or which check of the header fails |
| Extract.RoundTrip | tools/bsfs/bsfs-extract.c:118-332 | for every tree within the limits that ends below 4 GiB, extracting the populated image, with nothing but the image, yields that tree, names and bytes |
| Overflow.TwinRead | tools/bsfs/bsfs-extract.c:283-285 | when the block size divides 2^32, a read of the block 4 GiB behind the header brings the header, whatever was written to it |
| Overflow.BlockLost | tools/bsfs/bsfs-populate.c:263-276 | every tree that reaches that block has it, and it reads as the header |
| Overflow.FileLost | tools/bsfs/bsfs-populate.c:411-456 | a tree whose last file is in that block: the file comes out as long as it was, and beginning as the header does |
| Overflow.EightGigabytes | tools/bsfs/bsfs-populate.c:411-456 | 65 files on an image of 8 GiB with blocks of 16384 bytes: the last one is lost so |
| Resolve.SplitJoined | kernel/common/bsfs/bsfs.c:34-46 | splitting a path gives back the names it was joined from |
| Resolve.Component | kernel/common/bsfs/bsfs.c:35-47 | the characters up to the next slash; fails only for 124 or more |
| Resolve.FirstSlot | kernel/common/bsfs/bsfs.c:64-71 | which slot of a directory a name meets first: its links, its first entry of that name, or an unused slot for the empty name |
| Resolve.LookUp | kernel/common/bsfs/bsfs.c:52-72 | the first entry of that name in the blocks the inode points to, on any image, or none, or a failed read |
| Resolve.SearchBlocks | kernel/common/bsfs/bsfs.c:52-72 | in a directory that is the first entry of that name of the whole directory |
| Resolve.RepAt | kernel/common/bsfs/bsfs.c:32-78 | a subtree is on disk where its position says, with the node above it as parent |
| Resolve.EveryNodeFound | kernel/common/bsfs/bsfs.c:16-79 | every node of a tree with distinct names is where the path of its names leads |
| Resolve.DotsLead | kernel/common/bsfs/bsfs.c:34-78 | behind the path of a directory "." leads back to it and ".." to the one above, the root being above itself; behind that of a file neither leads anywhere |
| Resolve.ResolvePath | kernel/common/bsfs/bsfs.c:16-79 | on any image and for every C string, files on the way included: the inode reached by reading an inode, searching its blocks for the component and going on; UINT32_MAX for a relative or empty path, a name of 124 or more characters, no such entry, or a failed read |
| Resolve.ResolvesTree | kernel/common/bsfs/bsfs.c:16-79 | on a populated image, for every path that goes through no file: the inode of the node the tree has at that path, "." and ".." included |
| Resolve.SentinelExact | kernel/common/bsfs/bsfs.c:34-78 | a path leads to the sentinel exactly when its last component is empty and those before lead to a directory with an unused slot and no entry of the empty name |
| Resolve.FoundNotSentinel | kernel/common/bsfs/bsfs.c:34-78 | no node of a populated tree has inode 0 or UINT32_MAX |
| Resolve.ResolvesToZero | kernel/common/bsfs/bsfs.c:16-79 | so the resolver returns inode 0 exactly for such a path |
| Resolve.DoubleSlash | kernel/common/bsfs/bsfs.c:34-78 | "//" is one, in an empty root directory |
| Resolve.ResolveNode | kernel/common/bsfs/bsfs.c:16-79 | every node of a populated tree resolves by the path of its names |
| Reader.BsfsFile.constructor | kernel/common/bsfs/bsfs.c:111-116 | position 0 and empty caches |
| Reader.BsfsFile.Load | kernel/common/bsfs/bsfs.c:155-183 | block i of the file, read by its sectors, direct or through the indirect table read once |
| Reader.BsfsFile.Fill | kernel/common/bsfs/bsfs.c:149-192 | the buffer holds the blocks of the read, except that the first is the one at the front of the buffer when the first is cached |
| Reader.BsfsFile.Fread | kernel/common/bsfs/bsfs.c:122-198 | what `Cursors.Reads` says of the calls made so far, and the cursor it leads to: the file's bytes at the position, except that the first block is the one at the front of the buffer when the first is cached; or that the read is too long, that its blocks do not fit the buffer, or that its unsigned end wraps past the end of the file |
| Cursors.StopExact | kernel/common/bsfs/bsfs.c:124-130 | where a read ends in unsigned 32-bit arithmetic |
| Cursors.ReadLength | kernel/common/bsfs/bsfs.c:122-198 | a read that returns bytes returns as many as were asked for, are left or fit the buffer, whichever is least, and moves the position behind them; when position and count reach 4 GiB, a bufferful |
| Cursors.SeekPlaces | kernel/common/bsfs/bsfs.c:200-218 | the three kinds of seek lead to the offset from the start, from the position or back from the end, and to the end when that is outside the file |
| Cursors.ReadExact | kernel/common/bsfs/bsfs.c:149-194 | whatever the file holds, a read returns its bytes at the position exactly when it is empty or begins in the block at the front of the buffer |
| Cursors.OverrunExact | kernel/common/bsfs/bsfs.c:141-155 | the blocks of a read exceed the buffer exactly when its offset in the first of them and its length do |
| Reader.BsfsFile.Fseeko | kernel/common/bsfs/bsfs.c:201-218 | the position sought, with unsigned wrap-around, cut to the size; eof exactly at the end |
| Reader.BsfsFile.Run | kernel/common/bsfs/bsfs.c:122-218 | every sequence of seeks and reads, reads across blocks included, up to one that does not fit: each returns what the position, the cached block and the block at the front of the buffer, all functions of the calls before, say |
| Cursors.StayingRun | kernel/common/bsfs/bsfs.c:122-218 | in a sequence whose reads stay within a block, each returns the file's bytes at the position |
| Cursors.CrossingReadGoesStale | kernel/common/bsfs/bsfs.c:151-154 | after one read over two blocks, a read of the second block returns the first |
| Reader.BsfsFile.VerifyChecksum | kernel/common/bsfs/bsfs.c:234-251 | for every buffer size with which it ends: accepts exactly when the CRC-32 of the bytes the reads return is the inode's |
| Cursors.EndsExact | kernel/common/bsfs/bsfs.c:237-242 | reads of n bytes come to the end of the file, or to one that is refused, exactly when n is not 0 or the position is at the end |
| Cursors.DrainedAligned | kernel/common/bsfs/bsfs.c:234-242 | with a buffer of whole blocks these are the bytes of the file from the position on |
| Reader.TamperedRejected | kernel/common/bsfs/bsfs.c:234-251 | a file changed within four consecutive bytes is rejected |
| Reader.Fopen | kernel/common/bsfs/bsfs.c:92-119 | opens exactly the paths that lead to a file, with that file's bytes and checksum; which error is returned otherwise |
| Reader.OpenAndVerify | kernel/common/bsfs/bsfs.c:92-251 | every file of a populated tree, opened by the path of its names, passes its checksum |
| EndToEnd.Mounts | kernel/kernel.c:380-387 | the image bsfs-populate leaves is one the kernel resolves, opens and reads |
| EndToEnd.StoreAndVerify | kernel/common/bsfs/bsfs.c:92-251 | every file of every tree within the limits, once populated, is found on the image by the path of its names and passes its checksum; header and inodes are read from the image |
| SlabPages.SlotInPage | kernel/kernel/slab.c:77-79 | objects lie behind the header and within the page |
| SlabPages.SlotsApart | kernel/kernel/slab.c:77-79 | objects of a page do not overlap |
| SlabPages.GridChain | kernel/kernel/slab.c:77-81 | the links of a new page lead through all its objects, each once |
| SlabPages.TerminatorHarmless | kernel/kernel/slab.c:80 | the zero written at the end of the page hits no link before the last |
| SlabPages.LastLink | kernel/kernel/slab.c:80 | it is the last object's link exactly when the object size divides the room in the page |
| SlabPages.Covers | kernel/kernel/slab.c:95 | distinct objects cover a page exactly when there are max_objects of them |
| SlabLists.UnlinkList | kernel/kernel/slab.c:138-143 | a slab leaves a doubly linked list and the rest stays one, in order |
| SlabLists.PushList | kernel/kernel/slab.c:144-148 | a slab goes to the front of a doubly linked list |
| Slab.Move | kernel/kernel/slab.c:137-149 | a slab goes from any place of one list to the front of another; no other slab changes |
| Slab.CountHeld | kernel/kernel/slab.c:151 | a page's count is 0 exactly when no object of it is in use |
| Slab.TakeInv | kernel/kernel/slab.c:89-104 | taking the first free object keeps the invariant: well-formed lists, full slabs exactly those with max_objects, the first max_objects - count links exactly the distinct free objects |
| Slab.GrowInv | kernel/kernel/slab.c:61-87 | so does a new page, which puts no object in use |
| Slab.GiveInv | kernel/kernel/slab.c:131-149 | so does returning an object; exactly it leaves use |
| Slab.DropInv | kernel/kernel/slab.c:151-161 | so does returning a page without objects |
| Slab.NoOverlap | kernel/kernel/slab.c:46-107 | objects in use overlap neither each other nor a header |
| Slab.ScribbleInv | kernel/kernel/slab.c:90-93 | writing an object in use disturbs no free list |
| Slab.LastIff | kernel/kernel/slab.c:151 | the count falls to 0 exactly when the object was the last in use on its page |
| Slab.BinFor | kernel/kernel/kmalloc.c:14-38 | the smallest object size that holds the request |
| Slab.Allocator.constructor | kernel/kernel/slab.c:17-44 | no object in use |
| Slab.Allocator.LinkObjects | kernel/kernel/slab.c:77-80 | the links of a new page |
| Slab.Allocator.AddSlab | kernel/kernel/slab.c:73-87 | the page just mapped becomes the bin's first slab |
| Slab.Allocator.TakeObject | kernel/kernel/slab.c:89-104 | exactly one more object is in use |
| Slab.Allocator.FillSlab | kernel/kernel/slab.c:95-104 | the filled slab moves to the full list |
| Slab.Allocator.Allocate | kernel/kernel/slab.c:73-107 | the part of bin_alloc on bins, headers and objects: exactly one more object is in use, of the bin's size and in use by nobody before; a page is added exactly when the bin has no slab with room |
| Slab.Allocator.ReturnSlab | kernel/kernel/slab.c:137-149 | a slab that was full moves to the free list |
| Slab.Allocator.ReleaseSlab | kernel/kernel/slab.c:151-161 | an empty slab leaves the list and its page is unmapped |
| Slab.Allocator.Release | kernel/kernel/slab.c:109-157 | the part of bin_free on bins, headers and objects: exactly that object leaves use; its page goes exactly when it was the last on it |
| KernelHeap.NoObjectsNoPages | kernel/kernel/slab.c:151-161 | without an object in use there is no slab page |
| KernelHeap.MapSlab | kernel/kernel/slab.c:62-71 | a frame is taken and mapped at slab_top for the kernel; the other frames taken are exactly those of the tables missing on its walk |
| KernelHeap.AddsPage | kernel/kernel/slab.c:62-71 | so the account stays exact: frames in use at the start, one for each slab page, one for each table of the kernel that was not there at the start, and these lie on the walks to the pages made |
| KernelHeap.DropsPage | kernel/kernel/slab.c:158-159 | so it does when a page goes: its frame is free, its tables stay |
| KernelHeap.BinAlloc | kernel/kernel/slab.c:46-107 | exactly one more object is in use, the kernel maps exactly the slab pages in the slab region, and the account is exact |
| KernelHeap.Kmalloc | kernel/kernel/kmalloc.c:10-41 | the same for the smallest object size that holds the request |
| KernelHeap.Kfree | kernel/kernel/slab.c:109-164 | exactly that object leaves use; a frame goes back and a page is unmapped exactly when it was the last on its page; the account stays exact |
| KernelHeap.Run | kernel/kernel/slab.c:46-164 | over any run of requests and releases exactly the objects held are in use and the account is exact; when nothing is held any more, the frames in use are those at the start exactly when every table on the walks to the pages made was there at the start; the objects held are those the answers and releases leave |
| KernelHeap.UnmapSlab | kernel/kernel/slab.c:158-159 | the frame leaves use and the page its translation; every table stays |
| KernelHeap.NothingLost | kernel/kernel/slab.c:46-164 | without slab pages, the frames in use are those at the start and the new tables, and no more than at the start exactly when every table on the walks to the pages ever made was there at the start |
| KernelHeap.FirstObject | kernel/kernel/slab.c:61-71 | the first kmalloc and its kfree, while the slab region has no table, leave three more frames in use |
| Slab.Allocator.Scribble | kernel/kernel/slab.c:46-107 | what an owner writes to an object disturbs nothing |
| Scheduler.ScanKeeps | kernel/kernel/scheduler.c:36-52 | the scan keeps each process in one slot at most, moves only dead ones, and finds a live one of the list |
| Scheduler.ScanListed | kernel/kernel/scheduler.c:36-52 | the scan neither loses nor adds a process |
| Scheduler.NearestChosen | kernel/kernel/scheduler.c:35-57 | the process chosen is the live one nearest after the cursor, and the idle one exactly when none is live |
| Scheduler.TickInv | kernel/kernel/scheduler.c:28-69 | a tick keeps the invariant, after which exactly the current process is running |
| Scheduler.ExitInv | kernel/kernel/syscall.c:23-26 | an exit keeps the invariant |
| Scheduler.AddInv | kernel/kernel/scheduler.c:17-25 | adding a process keeps it |
| Scheduler.TakeInv | kernel/kernel/reaper.c:28-35 | the reaper's removal keeps it |
| Scheduler.DestroyInv | kernel/kernel/reaper.c:37-39 | the destruction keeps it |
| Scheduler.Reachable | kernel/kernel/scheduler.c:28-69 | every state of every run satisfies the invariant, and every process but the idle one is in a slot |
| Scheduler.Safety | kernel/kernel/scheduler.c:28-69 | in every reachable state no process is in two slots of the run and reap lists, only dead ones are being reaped, no life is destroyed twice though addresses are used again, and the current process is neither destroyed nor being reaped |
| Scheduler.OneRunning | kernel/kernel/scheduler.c:59-66 | after every tick of every run exactly the current process is RUNNING |
| Scheduler.NoneLost | kernel/kernel/reaper.c:26-45 | a life of a process stays in exactly one slot until it is destroyed, and stays destroyed, whatever is created at its address later |
| Scheduler.TickCloser | kernel/kernel/scheduler.c:35-53 | a tick that does not pick a waiting process brings the cursor strictly closer to it |
| Scheduler.BoundedWaiting | kernel/kernel/scheduler.c:35-53 | a waiting process is dispatched within as many ticks as the cursor is slots before it and one more, so within 32, whatever others do and from any cursor, 32 and 33 included |
| Scheduler.Resumes | include/kernel/process.h:75-96 | a process has, when next dispatched, the context saved when it was last switched out |
| Scheduler.Starts | kernel/kernel/scheduler.c:17-25 | a process added to a list with room keeps the context it came with until it is first dispatched |
| Scheduler.FirstDispatch | kernel/kernel/scheduler.c:17-69 | and is dispatched with it within 32 ticks |
| Scheduler.Kernel.constructor | kernel/kernel.c:413-415 | empty lists and the idle process |
| Scheduler.Kernel.AddProcess | kernel/kernel/scheduler.c:17-25 | the process goes to the first empty slot, if there is one |
| Scheduler.Kernel.ReaperAddProcess | kernel/kernel/reaper.c:16-24 | the process goes to the first empty slot of the reap list, if there is one |
| Scheduler.Kernel.ScanList | kernel/kernel/scheduler.c:35-52 | the loop computes the scan |
| Scheduler.Kernel.SchedulerLoop | kernel/kernel/scheduler.c:28-69 | one tick of the state machine, and the invariant |
| Scheduler.Kernel.ExitCurrent | kernel/kernel/syscall.c:23-26 | one exit of the state machine, whose effect on every later state is `Reaping.ExitIsFinal` |
| Scheduler.Kernel.ReaperTake | kernel/kernel/reaper.c:28-35 | one removal of the state machine, whose effect over runs is `Reaping.BoundedReaping` |
| Scheduler.Kernel.ReaperDestroy | kernel/kernel/reaper.c:37-39 | one destruction of the state machine |
| Reaping.ExitIsFinal | kernel/kernel/syscall.c:23-29 | a life that exits is dead in every later state of every run, until it is destroyed |
| Reaping.NeverAgain | kernel/kernel/scheduler.c:39-52 | from the next tick on it is never the current process again |
| Reaping.TickPasses | kernel/kernel/scheduler.c:39-48 | a tick whose scan goes past the slot of a dead process leaves it in the reap list, unless that is full; one that does not brings the cursor closer |
| Reaping.BoundedLingering | kernel/kernel/scheduler.c:36-48 | so it is in the reap list, or has met a full one, within as many ticks as the cursor is slots before it and one more |
| Reaping.BoundedReaping | kernel/kernel/reaper.c:26-35 | a process in slot k of the reap list is taken by exactly the take with which the cursor has come to k, cyclically and from any cursor, 32 included; so by one of the next 32 |
| Reaping.TakenEnds | kernel/kernel/reaper.c:37-39 | its life has ended after the next destruction, and before the next take |
| Reaping.ExitedEnds | kernel/kernel/reaper.c:26-45 | from the exit to the end: after 32 ticks, none of which leaves the reap list full, and then 33 takes, the life has been destroyed, whatever the other processes do |
| Segments.LoadExact | kernel/kernel/elf.c:71-101 | for kmain's buffer of one page and for every address, file offset, size in the file, file size and cursor: whatever the file holds, the pages are the segment's bytes with zeros around them, and nothing overruns, exactly when there are no file bytes or the first block is not a stale one and: on a page boundary, the one read fits the buffer or the reads begin on block boundaries; within a page with a page or more of file bytes, offset and address agree modulo the block size, or the first page is read within a block and the rest fits the buffer; with less, only at the very end of a small file |
| Segments.SoundLoads | kernel/kernel/elf.c:71-101 | under that condition the pages are right |
| Segments.UnsoundFails | kernel/kernel/elf.c:71-101 | without it there is a file for which they are not |
| Segments.ShortMisplaced | kernel/kernel/elf.c:89-92 | what a segment gets that begins within a page and has less than a page of file bytes, more than its offset in the page and within one block: as many bytes as that offset are missing at its end, and appear at the start of the next page, if it has one |
| Segments.ShortExample | kernel/kernel/elf.c:89-92 | 32 bytes for address 0x401010: the page gets the first 16 |
| Segments.IncongruentExample | kernel/kernel/elf.c:93-98 | two pages at file offset 100: the first read overruns the buffer |
| Segments.WrapExample | kernel/kernel/elf.c:89-92 | 8 bytes for an address 16 bytes into a page: the count wraps around and the copy leaves the page |
| Elf.LoadSegment | kernel/kernel/elf.c:71-101 | for every segment below the stack: exactly its pages are mapped, to fresh frames with the contents `Segments.Loads` says, one frame being lost for every page that was mapped before; or which failure ends the loop |
| Elf.LoadShort | kernel/kernel/elf.c:71-101 | the loader run on 32 file bytes for address 0x401010: the page it maps holds the first 16 of them and zeros |
| Elf.ReadHeader | kernel/kernel/elf.c:26-67 | the bytes the reader returns and the cursor behind them, or how the loader ends |
| Elf.LoadEntry | kernel/kernel/elf.c:57-102 | one program header and its segment: the next step of the plan |
| Elf.LoadExecutable | kernel/kernel/elf.c:25-109 | for every file whose segments lie below the stack, read from any cursor: what `Elf.Execution`, a function of the file and the cursor, says; exactly its pages are mapped, to fresh frames with its contents; its error, or that no frame is left (what that is in terms of the bytes of the file: `ElfFiles.ProgramLoaded`) |
| Elf.ExecutionRight | kernel/kernel/elf.c:25-109 | a file that is read right: the pages are exactly those of its segments, each with the file bytes, and zeros, of the last segment that has it; top is the highest segment end; how often a page is mapped again; which error a bad header or a segment with more file than memory calls for |
| Elf.SharedPage | kernel/kernel/elf.c:82-87 | two segments on one page: one frame is lost |
| ElfFiles.ProgramHeaderRead | include/common/elf.h:48-57 | a program header written out member by member, little endian, is read by the loader with those very values |
| ElfFiles.FileHeaderRead | include/common/elf.h:31-46 | so is an ELF header |
| ElfFiles.HeaderWritten | kernel/kernel/elf.c:31-48 | which complaint the bytes of the header call for, the first that applies, and that none does exactly for an executable |
| ElfFiles.ProgramLoaded | kernel/kernel/elf.c:25-109 | a file that holds these bytes and is read right: the pages are exactly those on which an address from p_vaddr to p_vaddr + p_memsz of a PT_LOAD header lies; each byte is the one at p_offset plus its distance from p_vaddr below p_filesz, and zero elsewhere, for the last header with the page; the top is the highest end rounded up; a header with p_filesz above p_memsz is refused |
| ElfFiles.BssProgram | kernel/kernel/elf.c:57-102 | a page of code and a segment of 0x1000 bytes in the file and 0x3000 in memory, run through the loader: four pages, the last two zero |

## Left out

* Port I/O, the disk driver, serial, interrupt controllers, timers, video, all assembly, TLB invalidation: hardware effects.
* boot/stage2 copies of the filesystem reader and the checksum, printf, command-line parsing: near copies or easy.
* Panics: where the source panics the model has a precondition, or a result that says so.
* Write and execute permissions combined over levels, and the PAT bit of large pages.
* Overwriting a different page size on the walk: `vmm_map` does not look at the PS bit, so the callers' duty not to is a precondition.
* dlmalloc's mmap, mspaces, locks, footers, calloc, realloc, statistics and corruption checks: compiled out or secondary; a segment that is not contiguous, and the second request after a partial failure of sbrk.
* Timestamps, permissions, link counts and reserved fields are arbitrary bytes that nothing reads; symbolic links, L2 and L3 blocks of inodes are not modelled.
* Disk errors other than sectors outside the image, which are failed reads.
* The reaper is not itself scheduled: its steps may come at any time.
- Teardown.ReleaseTable: the four nested loops of vmm_destroy are one method that calls itself for the next level.
- Processes.Create: registers of the first context, the entry point of the program among them, are not modelled.
- Heap.Allocator.Malloc: sizes stay below 2^40, because the tree index narrows to 32 bits; the break starts on a page boundary, as the loader leaves it; which calls of sbrk are granted is arbitrary.
- Heap.Allocator.Trim: release_unused_segments is not modelled, there being one segment.
- BlockAllocator.BlockMap.constructor: block sizes are multiples of 8 and the bitmaps are padded to whole 64-bit words, since the search reads those.
- PopulateTree.PopulateImage: block sizes are multiples of 128 (see Populate.EntriesWithinBlocks), there are less than 2^27 blocks (see Layout.RegionsFit), and the image is zero at the start; what it holds is stated for trees that end below 4 GiB (see ImageBytes.SeekExact).
- Extract.RoundTrip: for the same images and trees; the condition is sufficient; when the header is not in the first block, a tree that reaches beyond 4 GiB by no more than the header lies behind the start overwrites what precedes the header, and whether it comes back is not stated (beyond that see Overflow.BlockLost).
- Metadata.ReadInodeExact: sectors divide blocks and are multiples of the inode size, as with the 512-byte sectors of the kernel.
- Reader.BsfsFile.Fread: a read that would write past the buffer or take bytes past the end of the file gives a result that says so instead of those bytes.
- Reader.Fopen: a path through a file is excluded, its inode depending on the file's bytes (Resolve.ResolvePath covers it); the buffer is smaller than 0xB0000000 bytes.
- KernelHeap.BinAlloc: the slab region is the 1 TiB that follows its start; the source never returns to addresses it has left.
- Scheduler.Kernel.SchedulerLoop: the jump to the chosen process is assembly; the context it loads is the one stored.
- ProgramBreak.Sbrk: a request that takes the break within a page below 0 is excluded: the rounding wraps around to page 0, where vmm_free panics.
- Segments.LoadExact: for the buffer of one page that kmain uses, with any block size that divides it.
- Elf.LoadExecutable: the segments lie below the stack, with a page to spare.
