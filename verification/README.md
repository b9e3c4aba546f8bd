# A verified model of the Archangel OS memory stack, RAM file system and line drawing

The Dafny files here model the parts of the kernel and its bootloader that everything else stands on,
and prove what they promise one another.

- **Physical frames** (`Pmm.dfy`; `Common.dfy` holds what all files share). The bitmap with its cached counter, built from the firmware's memory map.
- **Page tables** (`Paging.dfy`, `AddressSpace.dfy`, `Vmm.dfy`). Entry words, the walk the MMU performs
  (Intel SDM Vol. 3A, section 4.5) and the tree the tables form; then `map_page`, `unmap_page`, `vallocs` and
  `vfrees` on that memory. The result is a refinement: four levels of words in frames behave as a map from
  pages to frames, and every frame has exactly one owner over every run.
- **Building the address space** (`InitVmm.dfy`). `map_range` and the sequence of `init_vmm`, up to the
  switch of CR3. That nothing is redirected holds exactly when physical memory ends at 2 GiB or below. That the
  frame allocator, which addresses its bitmap physically, still reaches it holds exactly when the ranges cover it;
  without an APIC no conventional memory is mapped and they need not.
- **The boot tables** (`Handoff.dfy`). The identity map with 2 MiB leaves and the pages handed over above it.
- **The kernel heap** (`HeapChunks.dfy`, `HeapMemory.dfy`, `Heap.dfy`). The chunk list as a value, the headers
  that represent it, and `kmalloc`/`kfree` on top of `vallocs`. `kfree` keeps the heap well formed exactly when
  the chunk does not lie between two free ones; over any run, such frees included, the chunks still tile the heap
  and live allocations stay apart.
- **The RAM file system** (`FsTree.dfy`, `FsShape.dfy`, `FileSystem.dfy`). Trees and paths as values, the links a
  node graph must have to represent one, and the operations on that graph with their heap blocks.
- **The initial RAM disk** (`Unpack.dfy`, `Cpio.dfy`, `Initramfs.dfy`). What unpacking means, the meaning of a CPIO
  byte string and of a serialised list of members, and the loader that edits names in place.
- **Lines** (`Line.dfy`). The error-driven loop plots the correctly rounded line in all octants.

`kernel_panic` is the outcome `halted`. Memory is a map from frame numbers to 512 words (page tables), or from
addresses to headers (heap). Allocation below the file system and `AllocatePages` in the bootloader may fail at
any call. Strings are C strings without NUL. `dafny verify dfyconfig.toml` checks everything.

What a method and its specification decide by the same constant or helper is stated once more in plain numbers,
independent of both: `Outcome` for `kmalloc`, `MappedExactly` for `init_vmm`, `PlainlyBuilt` for `init_pmm`, `RangeMapped`
for the boot tables, `WalkPlain` for the MMU, `Coloured` for pixels, and the lemmas whose names end in `Answers`, `Plain`,
`Refused` or `ByMode` for paths, files and archives.

Where a promise fails, the exact condition is proved: `NoRedirectIff` (the pass-through window wraps beyond 2 GiB),
`BitmapMappedIff` (the frame bitmap after the switch), `KfreeIff` (the double merge of `kfree`), `RangeIdentityIff` (no
identity at or above 2^47, where an address is not canonical), `NoOverflowIff` and `ExtentIff` (int overflow on long
lines), `RequiredIff` (sizes that wrap) and `Palloc` itself (0 for a frame).

## Model

| member | source | states |
|---|---|---|
| PhysicalMemory.FullByte | kernel/arch/x86_64/mm/pmm.c:130-137 | a bitmap byte is 0xFF exactly when each of its eight frames is used, which is what lets the scan skip it |
| PhysicalMemory.OneBit | kernel/arch/x86_64/mm/pmm.c:68-85 | setting or clearing the bit of one frame changes the state of that frame and of no other |
| PhysicalMemory.Pmm.PageUsed | kernel/arch/x86_64/mm/pmm.c:62-67 | answers whether the frame is not free; frames beyond the end count as used |
| PhysicalMemory.Pmm.MarkUsed | kernel/arch/x86_64/mm/pmm.c:68-76 | removes exactly this frame from the free set; bitmap, padding bits and counter keep agreeing |
| PhysicalMemory.Pmm.MarkFree | kernel/arch/x86_64/mm/pmm.c:77-85 | adds exactly this frame, if it exists, to the free set; bitmap, padding bits and counter keep agreeing |
| PhysicalMemory.Pmm.FirstFree | kernel/arch/x86_64/mm/pmm.c:127-151 | the byte and bit scan finds the lowest free frame, and none exactly when the free set is empty; the exit for a bit past the last frame is dead |
| PhysicalMemory.Pmm.Palloc | kernel/arch/x86_64/mm/pmm.c:123-152 | hands out the lowest free frame and takes it; answers 0 exactly when nothing is free, the allocator is not initialised, or frame 0 is free |
| PhysicalMemory.Pmm.Pfree | kernel/arch/x86_64/mm/pmm.c:163-166 | the frame of the address becomes free again, nothing else changes |
| PhysicalMemory.Pmm.FreeZero | kernel/arch/x86_64/mm/pmm.c:163-166 | after pfree(0), which nothing refuses, the next palloc answers 0 although frames are free |
| PhysicalMemory.Pmm.Run | kernel/arch/x86_64/mm/pmm.c:123-166 | over any run of palloc and pfree each answer is the lowest free frame of its moment; unless an address below the first page is freed, 0 is answered exactly when nothing is free |
| PhysicalMemory.Pmm.TopOf | kernel/arch/x86_64/mm/pmm.c:180-211 | the largest end of a conventional region |
| PhysicalMemory.Pmm.HostFor | kernel/arch/x86_64/mm/pmm.c:218-229 | the first conventional region, not at address 0, that can hold the bitmap; 0 exactly when there is none |
| PhysicalMemory.Pmm.FreeConventional | kernel/arch/x86_64/mm/pmm.c:237-247 | with overlapping descriptors too, the free frames become exactly those a conventional descriptor covers |
| PhysicalMemory.Pmm.ReserveBitmap | kernel/arch/x86_64/mm/pmm.c:256-262 | takes exactly the frames under the bitmap out of the free set |
| PhysicalMemory.Pmm.InitPmm | kernel/arch/x86_64/mm/pmm.c:175-266 | for every memory map a frame ends up free if and only if a descriptor of kind 7 covers it, it is not frame 0 and it does not hold the bitmap, which is one bit per 4 KiB page up to the end of the last such region and lies at the start of the first with room for it; halts exactly when there is none |
| PhysicalMemory.Pmm.SelfTest | kernel/arch/x86_64/init.c:6-39 | before init_pmm nothing can be allocated or freed; afterwards one allocation and its release cancel out; two of the three panics are unreachable |
| PhysicalMemory.BitmapInsideRegion | kernel/arch/x86_64/mm/pmm.c:218-235 | for a page aligned region the reserved frames are exactly those the bitmap's bytes touch, and the hosting region covers them |
| Paging.PteFields | kernel/arch/x86_64/mm/vmm.c:108-111 | an entry built from an address is present, no 2 MiB leaf, and gives back the frame of the address |
| Paging.WalkPlain | kernel/arch/x86_64/mm/vmm.c:24-111 | the walk in plain numbers: which bits of an address pick the entries of the four tables, which bits of an entry say that it is present, where it leads and that it is a 2 MiB leaf |
| Paging.IndicesNamePage | kernel/arch/x86_64/mm/vmm.c:24-35 | two canonical addresses with the same four indices are on the same page |
| Paging.WalkInTree | kernel/arch/x86_64/mm/vmm.c:46-114 | in a well-formed table tree the hardware walk agrees with a lookup by place in the tree |
| Paging.OtherMemory | kernel/arch/x86_64/mm/vmm.c:46-114 | writing memory that is no table changes neither the tree nor any translation |
| Paging.AddTableTree | kernel/arch/x86_64/mm/vmm.c:55-102 | linking a fresh zeroed frame under an absent entry keeps the tables a tree |
| Paging.AddTableWalk | kernel/arch/x86_64/mm/vmm.c:55-102 | linking a fresh zeroed table changes no translation of any address |
| Paging.SetLeafWalk | kernel/arch/x86_64/mm/vmm.c:108-111 | writing one leaf entry changes the translation of exactly one canonical page |
| Paging.OneParent | kernel/arch/x86_64/mm/vmm.c:55-111 | every table but the root is referenced by exactly one entry, and the root by none |
| AddressSpace.OneOwner | kernel/arch/x86_64/mm/vmm.c:214-278 | no frame is two of: free, table at one place, leaf of one heap page |
| AddressSpace.HeapFitsWindow | kernel/arch/x86_64/mm/vmm.c:214-252 | a contiguous heap always has room below the pass-through window, because each of its pages holds a frame of its own |
| AddressSpace.RolledBack | kernel/arch/x86_64/mm/vmm.c:233-238 | the rollback of vallocs unmaps its range, returns every data frame, and leaves the new tables owned by the tree |
| VirtualMemory.Vmm.EnsureTable | kernel/arch/x86_64/mm/vmm.c:55-67 | one level of map_page: the table below an entry, created zeroed when absent; no translation changes and no frame is lost |
| VirtualMemory.Vmm.MapPage | kernel/arch/x86_64/mm/vmm.c:46-114 | the page translates to the frame and every other canonical address as before; tables grow only by free frames, other memory is kept, the TLB still agrees with the walk whatever it cached before the invlpg, the frame bitmap stays in reach; halts only without free frames |
| AddressSpace.AfterInvlpg | kernel/arch/x86_64/mm/vmm.c:108-113 | whatever translations from before or after the store the TLB caches before the invlpg, dropping the one page makes it agree with the tables again |
| AddressSpace.BitmapRemapped | kernel/arch/x86_64/mm/vmm.c:46-139 | remapping any page without bitmap bytes leaves every byte of the frame bitmap translating to itself |
| VirtualMemory.Vmm.BitmapInReach | kernel/arch/x86_64/mm/pmm.c:62-85 | before the switch and after it palloc and pfree reach every byte of their bitmap at its physical address |
| VirtualMemory.Vmm.FrameReachable | kernel/arch/x86_64/mm/vmm.c:39-44 | page_table_ptr resolves to the frame itself, through the bootloader's tables before the switch and through the window after it |
| VirtualMemory.Vmm.CacheTranslation | kernel/arch/x86_64/mm/vmm.c:113-113 | between operations the TLB may fill with any walk and still agrees with the tables |
| VirtualMemory.Vmm.UnmapPage | kernel/arch/x86_64/mm/vmm.c:115-139 | answers the frame the page had, 0 for none, and unmaps exactly that page, in the TLB too, whatever was cached meanwhile |
| VirtualMemory.Vmm.FreeOne | kernel/arch/x86_64/mm/vmm.c:267-277 | one turn of vfrees: the page is unmapped and its frame, if any, is free again |
| VirtualMemory.Vmm.Vfrees | kernel/arch/x86_64/mm/vmm.c:259-278 | unmaps the range and frees exactly the frames of its mapped pages; pages already unmapped change nothing; no frame is lost |
| VirtualMemory.Vmm.AllocOne | kernel/arch/x86_64/mm/vmm.c:231-247 | one turn of vallocs: a previously free frame at the next heap page, zeroed on request, other contents kept |
| VirtualMemory.Vmm.Vallocs | kernel/arch/x86_64/mm/vmm.c:221-252 | on success count consecutive pages on distinct, previously free, zeroed (if asked) frames; without frames 0, next_virt and every mapping as before and all data frames returned; it succeeds exactly when there is a free frame for each page and for each table missing above them |
| VirtualMemory.Run | kernel/arch/x86_64/mm/vmm.c:214-278 | after any run of vallocs and vfrees that stays in the heap range ownership holds and not one frame has been lost or gained |
| AddressSpaceSetup.MapRange | kernel/arch/x86_64/mm/vmm.c:284-292 | adds exactly the rounded range to the mapping built so far, later ranges overriding earlier ones |
| AddressSpaceSetup.FirstTables | kernel/arch/x86_64/mm/vmm.c:333-376 | the first four tables map exactly the first 2 MiB to themselves |
| AddressSpaceSetup.NoRedirectIff | kernel/arch/x86_64/mm/vmm.c:388-494 | if all other ranges are 1:1, no mapping of init_vmm destroys an earlier one if and only if physical memory ends at or below 2 GiB |
| AddressSpaceSetup.EndState | kernel/arch/x86_64/mm/vmm.c:388-506 | then low memory is 1:1 where mapped, the window shows every frame, and the heap range is empty |
| AddressSpaceSetup.InitVmm | kernel/arch/x86_64/mm/vmm.c:323-510 | the new tables map exactly the sequence of ranges; under the conditions above the virtual memory system owns every frame that was free, and is valid after the switch if and only if every page of the frame bitmap is below 2 MiB or in one of the ranges; address by address, below the window exactly the first 2 MiB and the pages of kernel, stack, code, framebuffer, RAM disk, boot information, memory map and, with an APIC, its registers and the conventional memory translate, each to itself, and the window translates exactly physical memory |
| AddressSpaceSetup.AddressesMapped | kernel/arch/x86_64/mm/vmm.c:388-494 | the same for the finished tables, from the byte ranges of the boot information and the registers alone |
| AddressSpaceSetup.KernelMapped | kernel/arch/x86_64/mm/vmm.c:388-391 | a kernel linked elsewhere than it is loaded: page k of its virtual range translates to page k of the physical one |
| AddressSpaceSetup.LowMachineFits | kernel/arch/x86_64/mm/vmm.c:388-494 | a kernel loaded where it is linked and ranges below 2^47 meet the conditions |
| AddressSpaceSetup.BitmapMappedIff | kernel/arch/x86_64/mm/vmm.c:388-506 | after the switch the frame bitmap is in reach if and only if the ranges cover its pages |
| AddressSpaceSetup.ApicCoversBitmap | kernel/arch/x86_64/mm/vmm.c:441-473 | with an APIC the ranges cover it, since the region that hosts it is mapped |
| AddressSpaceSetup.NoApicLosesBitmap | kernel/arch/x86_64/mm/vmm.c:437-473 | without an APIC a machine that meets every other condition has its bitmap unmapped after the switch |
| HeapChunks.AlignUpRounds | kernel/lib/kmalloc.c:25-29 | without overflow the least multiple of the alignment not below the value |
| HeapChunks.AlignUpWraps | kernel/lib/kmalloc.c:25-29 | within 15 bytes of 2^64 the rounding gives 0 |
| HeapChunks.RequiredIff | kernel/lib/kmalloc.c:177-187 | what kmalloc makes of a size, in 64 bits, is enough for the size and a header exactly up to 2^64 - 48 |
| HeapChunks.PayloadsDisjoint | kernel/lib/kmalloc.c:171-263 | payloads of different chunks never overlap, lie inside the heap, are 16-aligned and contain no header |
| HeapChunks.LengthsSum | kernel/lib/kmalloc.c:64-143 | the chunk lengths add up to the heap size |
| HeapChunks.ListUnique | kernel/lib/kmalloc.c:12-17 | the headers in memory determine the chunk list |
| HeapChunks.AllocateKeeps | kernel/lib/kmalloc.c:244-256 | splitting and taking a chunk keeps tiling and coalescing and yields at least the required length |
| HeapChunks.FreedKeeps | kernel/lib/kmalloc.c:294-307 | freeing and merging from the surviving header keeps tiling and coalescing |
| HeapChunks.FreeUndoesAllocate | kernel/lib/kmalloc.c:193-307 | freeing what was just taken from a coalesced heap restores the chunk list exactly |
| HeapChunks.OthersKept | kernel/lib/kmalloc.c:171-308 | allocation, growth and release leave every other used chunk where it is, at its length |
| HeapMemory.Merged | kernel/lib/kmalloc.c:40-61 | kmerge_next on a chunk of the list merges it with a free successor when it is free itself, and changes nothing otherwise |
| HeapMemory.Split | kernel/lib/kmalloc.c:146-168 | ksplit writes headers that spell out the split list, in both directions |
| HeapMemory.Appended | kernel/lib/kmalloc.c:120-131 | linking the new region writes headers that spell out the longer list |
| HeapMemory.KfreeMerges | kernel/lib/kmalloc.c:275-308 | with at most one free neighbour kfree as written yields the fully merged list |
| HeapMemory.KfreeBetween | kernel/lib/kmalloc.c:297-307 | with two free neighbours the second merge runs on an absorbed header: the forward chain still tiles, two free chunks stay apart and a prev names the absorbed header |
| HeapMemory.KfreeIff | kernel/lib/kmalloc.c:275-308 | kfree leaves a well-formed, coalesced heap if and only if the chunk is not between two free ones |
| HeapMemory.SurvivingKfree | kernel/lib/kmalloc.c:294-307 | with the second merge on the surviving header every kfree, between two free chunks too, writes headers that spell out the fully merged list |
| HeapMemory.MergedForward | kernel/lib/kmalloc.c:40-61 | kmerge_next does not read prev: on a heap whose prev links are wrong the forward chain spells out the merged list all the same |
| HeapMemory.SplitForward | kernel/lib/kmalloc.c:146-168 | and so does ksplit for the split list |
| HeapMemory.KfreeBetweenExample | kernel/lib/kmalloc.c:297-307 | a concrete three-chunk heap that kfree breaks |
| HeapMemory.KfreeWalkable | kernel/lib/kmalloc.c:275-308 | whatever prev names, a chunk or a header absorbed before, kfree leaves a forward chain that tiles the heap, and each header in memory is that of a chunk or an absorbed one inside a free chunk |
| HeapMemory.KfreeInUse | kernel/lib/kmalloc.c:294-307 | of the chunks in use exactly the freed one is gone, whatever prev names |
| HeapMemory.RememberedTake | kernel/lib/kmalloc.c:244-262 | after kmalloc has handed out a payload no header remembered there is left, and those that are left do not overlap |
| HeapMemory.FollowsListed | kernel/lib/kmalloc.c:300-301 | a prev that is NULL or names a chunk of the list leads kfree to existing headers only |
| HeapMemory.HandedPrev | kernel/lib/kmalloc.c:300-301 | after a kfree between two free chunks and a kmalloc of all of the merged one, prev of the chunk behind names bytes of the caller |
| HeapMemory.ClosedKfree | kernel/lib/kmalloc.c:275-308 | if the links of a set of headers stay inside the set, they do so after a kfree of one of them |
| KernelHeap.Heap.KmergeNext | kernel/lib/kmalloc.c:40-61 | the effect of kmerge_next on the headers |
| KernelHeap.Heap.Ksplit | kernel/lib/kmalloc.c:146-168 | the effect of ksplit on the headers |
| KernelHeap.Heap.Find | kernel/lib/kmalloc.c:193-202 | the search finds the first chunk that fits, NULL exactly when none does |
| KernelHeap.Heap.KmallocGrow | kernel/lib/kmalloc.c:64-143 | growth always continues the heap (the non-contiguous branch is dead) and adds one free region, merged with a free last chunk; it succeeds exactly when there are frames for its pages and their missing tables; a failed growth changes nothing |
| KernelHeap.Heap.Take | kernel/lib/kmalloc.c:244-262 | the chosen chunk keeps exactly the required bytes and a free chunk gets the rest if that is 64 bytes or more, else it is taken whole; no other chunk changes |
| KernelHeap.ServedOutcome | kernel/lib/kmalloc.c:177-262 | what kmalloc does to the list, in plain numbers: the size rounded up to 16 and 32 bytes of header come from the first free chunk long enough, or from the last one after growth by whole pages, 64 KiB at least |
| KernelHeap.Heap.FirstTwo | kernel/lib/kmalloc.c:171-263 | the first two requests of 16 bytes get 0xFFFFFFFE00000020 and 0xFFFFFFFE00000050 |
| KernelHeap.Heap.Kmalloc | kernel/lib/kmalloc.c:171-263 | first fit, or the grown last chunk (so "no chunk after grow" is dead), carved as Take says; the chunks in use are those before and a new one that is 16-aligned and long enough; fails exactly when nothing fits and the heap cannot grow, and then changes nothing; all of this also after a kfree between two free chunks, and an intact heap stays intact |
| KernelHeap.Heap.Kfree | kernel/lib/kmalloc.c:275-308 | on every heap whose chunks tile it, whatever prev links earlier frees left: the chunk and no other is no longer in use and the forward chain still tiles the heap; a header not in use changes nothing; on an intact heap the fully merged list, or between two free chunks exactly the damage KfreeIff speaks of |
| KernelHeap.Heap.KfreeTwice | kernel/lib/kmalloc.c:285-291 | a second kfree of the same pointer changes nothing, also when the first has merged the chunk away |
| KernelHeap.Run | kernel/lib/kmalloc.c:171-308 | any run of kmalloc and kfree keeps the tiling; each result not freed since is the payload of its own chunk in use, long enough for its request and apart from all others; it stops only at a halt or at a kfree that would look at a header that is not there |
| KernelHeap.KfreeAll | kernel/lib/kmalloc.c:275-308 | from an intact heap the payloads of its chunks can be freed in any order, repeats included, and exactly those chunks are no longer in use |
| KernelHeap.Heap.KmallocThenKfree | kernel/lib/kmalloc.c:171-308 | an allocation served without growth and its release restore the chunk list on an intact heap |
| KernelHeap.Heap.Room | kernel/lib/kmalloc.c:64-69 | a valid heap always leaves vallocs room, so growth never reaches the pass-through window |
| FsTree.ComponentsJoin | kernel/fs/fs.c:50-65 | the components of two paths joined by a slash are those of both |
| FsTree.SlashesDoNotMatter | kernel/fs/fs.c:50-65 | repeated, leading and trailing slashes never change what a path resolves to |
| FsTree.ResolveJoin | kernel/fs/fs.c:53-94 | resolving a concatenation is resolving its parts in turn; the first error wins |
| FsTree.DotsResolve | kernel/fs/fs.c:67-74 | the empty path is the root; ".." leads to the parent, from a file too and from the root to the root, and "." nowhere else |
| FsTree.NameResolves | kernel/fs/fs.c:76-94 | an ordinary last name leads to the child of that name; without one FS_NOT_FOUND in a directory and FS_NOT_A_DIR behind a file |
| FsTree.ErrorStays | kernel/fs/fs.c:76-90 | a path that fails keeps its error whatever comes behind it |
| FsTree.PathResolves | kernel/fs/fs.c:44-98 | each node's absolute path resolves back to that node |
| FsTree.InsertOk | kernel/fs/fs.c:23-27 | a new node under a fresh good name in a directory keeps the tree invariant |
| FsTree.RemoveOk | kernel/fs/fs.c:29-40 | taking out a childless node keeps the tree invariant |
| FsTree.SplitPath | kernel/fs/fs.c:180-219 | a path create_file accepts resolves to its last name under what the part before it resolves to |
| FsTree.CreateOk | kernel/fs/fs.c:162-267 | creation keeps the invariant and all nodes; an error leaves the tree as it was |
| FsTree.CreateFrame | kernel/fs/fs.c:162-267 | after a successful create the path resolves to a new node with the given contents, and every path that resolved before resolves as before |
| FsTree.CreateAnswers | kernel/fs/fs.c:184-267 | what create_file answers for an ordinary last name behind any path, in which order the errors come, and the exact tree it makes |
| FsTree.CreateRefuses | kernel/fs/fs.c:175-213 | the arguments it refuses, each with its status, and that nothing changes |
| FsTree.DeleteOk | kernel/fs/fs.c:143-161 | deletion keeps the invariant and takes out exactly the node the path leads to; an error leaves the tree as it was |
| FsTree.DeleteFrame | kernel/fs/fs.c:143-161 | after a deletion each path that does not lead over the deleted node resolves as before, errors included, and each that does is not found |
| FsTree.DeleteAnswers | kernel/fs/fs.c:143-161 | what delete_file answers: the path's error, the root, a directory with any child, or success |
| FsTree.DeleteUndoesCreate | kernel/fs/fs.c:143-267 | delete_file right after create_file restores the tree, child lists included |
| FsTree.ReadAfterWrite | kernel/fs/fs.c:102-139 | a read sees the last write, behind it the old contents; every path resolves and every other file reads as before |
| FsTree.ReadAfterCreate | kernel/fs/fs.c:102-267 | a read with room returns exactly what was given to create_file |
| FsTree.ReadAnswers | kernel/fs/fs.c:102-120 | exactly when read_file_content succeeds or answers which error, and that only success copies, all of the file |
| FsTree.WriteAnswers | kernel/fs/fs.c:121-139 | exactly when write_file_content succeeds or answers which error, and the exact tree it leaves |
| FsShape.InsertLinks | kernel/fs/fs.c:23-27 | the links every node must have after an insertion: only the new node's and its parent's first-child link differ |
| FsShape.RemoveLinks | kernel/fs/fs.c:29-40 | the links every node must have after a removal: only the one link to the removed node differs |
| FileSystem.Fs.constructor | kernel/fs/fs.c:354-362 | the root alone, its own parent, is a valid file system |
| FileSystem.Fs.FindChild | kernel/fs/fs.c:14-21 | the child of that name, NULL exactly when there is none |
| FileSystem.Fs.ParsePath | kernel/fs/fs.c:44-98 | the in-place scan answers what folding one-component steps over the slash-separated pieces answers, including which error comes first |
| FileSystem.Fs.LinkUnder | kernel/fs/fs.c:23-27 | link_child gives every node the links of the larger tree |
| FileSystem.Fs.CreateFile | kernel/fs/fs.c:162-267 | status and tree as specified unless memory runs out; every failing return leaves tree, nodes and live heap blocks as they were; success adds one fresh node and exactly its blocks |
| FileSystem.Fs.CreateFolder | kernel/fs/fs.c:271-276 | create_file of an empty directory |
| FileSystem.Fs.UnlinkChild | kernel/fs/fs.c:29-40 | finds the one link to the node and takes it out: all nodes have the links of the smaller tree; the failure exit is dead |
| FileSystem.Fs.DeleteFile | kernel/fs/fs.c:143-161 | status and tree as specified; success takes out exactly that node and its blocks, paths that do not lead over it resolve as before and the others are not found; failure changes nothing; FS_INVALID_FS cannot happen |
| FileSystem.Fs.ReadFileContent | kernel/fs/fs.c:102-120 | status as specified; success copies exactly the file's bytes into the front of the buffer; FS_INVALID_FILE cannot happen |
| FileSystem.Fs.WriteFileContent | kernel/fs/fs.c:121-139 | status and tree as specified; FS_INVALID_FILE cannot happen |
| FileSystem.Fs.CreateThenDelete | kernel/fs/fs.c:143-267 | creation and deletion of a path restore the tree, its nodes and the live heap blocks exactly |
| FileSystem.Fs.Run | kernel/fs/fs.c:143-282 | after any run of creations and deletions every node has the links its place asks for and every live block one owner |
| CpioArchive.HexInverts | kernel/fs/drivers/initramfs.c:6-19 | reading k hexadecimal digits of a number gives the number back |
| CpioArchive.ReadFields | kernel/fs/drivers/initramfs.c:60-63 | the thirteen header fields of a written member read back, whatever follows |
| CpioArchive.ReadMember | kernel/fs/drivers/initramfs.c:54-98 | a written member reads back with its name, its data and the position of what follows, padding included |
| CpioArchive.DigitsPlain | kernel/fs/drivers/initramfs.c:8-14 | the digits are 0 to 9 and a to f in either case, with their values |
| CpioArchive.HexPlain | kernel/fs/drivers/initramfs.c:6-18 | each further digit moves the others up by one |
| CpioArchive.HeaderRefused | kernel/fs/drivers/initramfs.c:54-66 | fewer than 110 bytes, another magic than 070701 or a character that is no digit give -5, -2 and -1; mode, size and name length are at bytes 14, 54 and 94 |
| CpioArchive.NameRefused | kernel/fs/drivers/initramfs.c:67-93 | which names and sizes give -3, -5 and -4, and that TRAILER!!! ends with 0 |
| CpioArchive.MemberRead | kernel/fs/drivers/initramfs.c:54-131 | any other member is one entry, whose contents start and end at the multiples of 4 behind name and contents |
| CpioArchive.WellFormedPlain | kernel/fs/drivers/initramfs.c:60-93 | which written members the results below speak of |
| CpioArchive.MemberLayout | kernel/fs/drivers/initramfs.c:54-131 | where magic, fields, name and contents of a written member lie |
| CpioArchive.RoundTrip | kernel/fs/drivers/initramfs.c:46-132 | reading a serialised archive, whatever follows it, does what unpacking its list of members does |
| CpioArchive.ArchiveExtracts | kernel/fs/drivers/initramfs.c:46-132 | reading it returns 0 if and only if every member can have its node, and then the tree is the one with those nodes made in order |
| CpioArchive.OneMember | kernel/fs/drivers/initramfs.c:46-132 | on the tree of init_fs an archive of one member with an ordinary name gives 0 and exactly the node its mode says: 4 a directory, 8, 10 or 0 the file, else nothing |
| CpioArchive.MemberMade | kernel/fs/drivers/initramfs.c:46-132 | in any archive that reads as 0 member i has at its path the directory or file its mode says, unless a node was there before it; other modes make nothing |
| Unpacking.InstallMeaning | kernel/fs/drivers/initramfs.c:21-34 | creating the parents and then the node succeeds if and only if the name consists of good components and no file stands in its way; then exactly the missing directories and the node are made |
| Unpacking.EntryMeaning | kernel/fs/drivers/initramfs.c:95-124 | what one entry does to the tree, by its type and trimmed name; 0 exactly when its node can be had |
| Unpacking.TargetByMode | kernel/fs/drivers/initramfs.c:104-118 | in plain numbers: bits 12 to 15 of the mode 4 ask for a directory, 8, 10 or 0 for a file with the data, anything else for nothing |
| Unpacking.EntryByMode | kernel/fs/drivers/initramfs.c:95-124 | and that is what installing an entry named by the path of a place makes there |
| Unpacking.CodeByMode | kernel/fs/drivers/initramfs.c:95-124 | the code of such an entry: 0, -6 or -3, by what stands in its way |
| Unpacking.NamesTrimmed | kernel/fs/drivers/initramfs.c:87-117 | leading "./" never count, nor slashes at the end of a directory's name, nor one at the end of a file's |
| Unpacking.UnpackMeaning | kernel/fs/drivers/initramfs.c:53-131 | a list of entries unpacks without error if and only if each can have its node in turn, and yields the tree with those nodes |
| Unpacking.MakeOk | kernel/fs/drivers/initramfs.c:21-34 | making a node keeps all nodes that were there and makes only directories besides it |
| Unpacking.FirstWriterWins | kernel/fs/drivers/initramfs.c:104-124 | in the end every entry's path resolves to a node that has the entry's contents, unless an earlier entry or the initial tree had put a node there, which then stays |
| Unpacking.NoConflictsExtracts | kernel/fs/drivers/initramfs.c:53-131 | an archive whose names are places, none below a file, unpacks |
| Initramfs.StripDotSlash | kernel/fs/drivers/initramfs.c:87-88 | the memmove loop removes all leading "./" from the name buffer |
| Initramfs.TrimSlashes | kernel/fs/drivers/initramfs.c:107-108 | the loop removes all trailing slashes from the name buffer |
| Initramfs.Hex8 | kernel/fs/drivers/initramfs.c:6-19 | accepts exactly eight hexadecimal digits of either case and answers their 32-bit value |
| Initramfs.ReadEntry | kernel/fs/drivers/initramfs.c:53-93 | header, name and all their checks at an offset, with the same code as the specification, and the stripped name in the buffer |
| Initramfs.EnsureParentDirectories | kernel/fs/drivers/initramfs.c:21-34 | makes a folder for each prefix before a slash and restores the buffer; runs out of memory only with a failure |
| Initramfs.InstallMember | kernel/fs/drivers/initramfs.c:95-124 | the branches by entry type, with the same code and tree as the specification; for a name that is a path, the directory or file the mode says in plain numbers |
| Initramfs.ParseCpioDisk | kernel/fs/drivers/initramfs.c:46-132 | code and tree are what the bytes mean; when memory runs out the code is not 0; the file system stays valid in every case |
| Initramfs.InitFs | kernel/fs/fs.c:354-378 | does not halt only if the archive reads as 0, and then the tree is what the archive means |
| LineDrawing.RoundedIsNearest | kernel/graphics/graphics.c:82-101 | the rounded minor coordinate is at most half a pixel from the ideal one |
| LineDrawing.LineEnds | kernel/graphics/graphics.c:70-102 | the line starts and ends at its end points |
| LineDrawing.HalfPixel | kernel/graphics/graphics.c:82-101 | in every octant each pixel is exact on the major axis and at most half a pixel off on the minor one |
| LineDrawing.Connected | kernel/graphics/graphics.c:92-100 | consecutive pixels touch and differ |
| LineDrawing.ErrorDecides | kernel/graphics/graphics.c:90-100 | with error = DX*(b+1) - DY*(a+1) after a and b steps, the doubled error tells exactly which coordinates move, and its bounds |
| LineDrawing.ExtentIff | kernel/graphics/graphics.c:76-100 | no line with extents at most m overflows int if and only if m is at most 0x2AAAAAAB |
| LineDrawing.NoOverflowIff | kernel/graphics/graphics.c:76-100 | for each single line: no value of the loop leaves int exactly when the two extreme ones, given in closed form by the extents and their greatest common divisor, do not |
| LineDrawing.FirstOverflow | kernel/graphics/graphics.c:90-90 | the line with extents 0x2AAAAAAC and 1 doubles its error past the end of int half way |
| LineDrawing.Advance | kernel/graphics/graphics.c:90-100 | one turn's updates lead from the state after k pixels to the state after k + 1 |
| LineDrawing.PlotExact | kernel/graphics/graphics.c:15-41 | plotting a list of points colours the words of the visible ones and no others |
| LineDrawing.PlotColours | kernel/graphics/graphics.c:15-41 | in coordinates: the word of column x and row y gets the colour exactly if x is below the width and (x, y) was drawn; the ends of the rows and what is behind the last row stay as they were |
| LineDrawing.PutPixel | kernel/graphics/graphics.c:28-41 | the clipped write of one pixel, in bounds: in coordinates exactly the word of (x, y), if it is visible, has the colour |
| LineDrawing.DrawLine | kernel/graphics/graphics.c:104-136 | plots exactly the max(abs dx,abs dy)+1 pixels of the rounded line in order and stops at its end point, for every line on which no int overflows; in coordinates exactly the words of its visible points have the colour |
| Handoff.HugePteFields | bootloader/uefi.c:1029-1035 | a 2 MiB entry is present, a leaf, and names its frame |
| Handoff.SetHugeWalk | bootloader/uefi.c:1035-1035 | writing one 2 MiB leaf changes the translation of exactly its 512 pages |
| Handoff.OneMore | bootloader/uefi.c:1023-1036 | each further directory entry adds exactly one 2 MiB page to the identity map |
| Handoff.BootTables.BuildIdentityMap | bootloader/uefi.c:930-1037 | the finished map translates exactly the first 512 GiB, each address to itself |
| Handoff.BootTables.EnsureTable | bootloader/uefi.c:371-392 | one level of map_handoff_page: never a 2 MiB leaf taken for a table, no translation changes |
| Handoff.BootTables.MapHandoffPage | bootloader/uefi.c:364-397 | maps the page at the canonical address with its indices and changes nothing else; without memory no translation changes |
| Handoff.BootTables.MapHandoffRange | bootloader/uefi.c:399-415 | how far it got is exactly what is mapped, and on success, stated address by address, that is every page of the range above 512 GiB; below 2^47 the map stays an identity, also after a failure; after a success it does so if and only if the range ends at or below 2^47 or is empty |
| Handoff.BootTables.MapHandoffRanges | bootloader/uefi.c:1563-1583 | whichever of several ranges fails, all that translates translates to itself and 512 GiB stay covered |
| Handoff.HandedIdentityIff | bootloader/uefi.c:394-415 | the map stays an identity if and only if no page at or above 2^47 was handed over |
| Handoff.RangeIdentityIff | bootloader/uefi.c:399-415 | for a whole range: if and only if it ends at or below 2^47 or is empty |
| Handoff.FirstAlias | bootloader/uefi.c:394-395 | the page at 2^47 shows up at its sign extension, which breaks the identity |
| Handoff.MeetsHugeIff | bootloader/uefi.c:366-410 | in the tables handed over the walk of a page ends at a 2 MiB leaf exactly if its number is below 2^27 modulo 2^36, so skipping the first 512 GiB suffices up to 2^48 |

## Left out

- VirtualMemory.Vmm.Vallocs: requires that the heap range has room for the pages it can get; `next_virt` has no bound check. For the kernel heap as only client the room is proved (`KernelHeap.Heap.Room`).
- VirtualMemory.Vmm.Vfrees: only ranges of heap pages; on other addresses it would unmap the kernel.
- VirtualMemory.Vmm.MapPage: requires that the address is canonical and, after the switch, outside the pass-through window, through which the tables themselves are reached, and that a page of the frame bitmap keeps its frame.
- VirtualMemory.Vmm.UnmapPage: requires the same of the address; the pages of the frame bitmap are excluded.
- VirtualMemory.Run: only heap ranges for `vfrees`, and `vallocs` only as far as the window leaves room for what each call can get, as for the single calls.
- VirtualMemory.Vmm.CacheTranslation: fills between operations; those between a store and its invlpg are in `MapPage` and `UnmapPage`.
- AddressSpaceSetup.InitVmm: requires canonical ranges and that rsp and rip leave room for the pages below them; frame contents other than tables are not followed during construction, and the PWT and PCD bits are not used by the code.
- KernelHeap.Heap.Kmalloc: sizes above 2^64 - 48 are excluded, where the rounding or the header addition wraps and the chunk would be too short (`RequiredIff`).
- KernelHeap.Heap.Kfree: requires that a header lies in front of the pointer and that the headers both merges look at through prev and next are still there; bytes handed out since may have replaced an absorbed header that prev names (`HandedPrev`). On an intact heap, and whenever prev is NULL or names a chunk of the list, nothing is required (`IntactSafe`, `FollowsListed`).
- KernelHeap.Run: sizes as for `Kmalloc`; the run stops where the condition of `Kfree` does not hold.
- LineDrawing.DrawLine: lines on which an intermediate int overflows are excluded, which C leaves undefined (`NoOverflowIff`); `draw_line` is the case without a buffer, its own copy of the loop is not modelled twice.
- FileSystem.Fs.CreateFile: a directory with a size but no data is excluded; the code would read from NULL.
- Handoff.BootTables.MapHandoffRange: ranges end at or below 2^48 unless their end wraps; beyond that a page can meet a 2 MiB leaf (`MeetsHugeIff`) and its address would be overwritten.
- Handoff.BootTables.MapHandoffRanges: ranges end at or below 2^47 unless their end wraps; `RangeIdentityIff` shows what fails beyond.
- PhysicalMemory.Pmm.InitPmm: the byte positions of descriptors, `total_pages` and the other statistics, `reserve_region`; region ends are below 2^64.
- PhysicalMemory.Pmm.SelfTest: region ends are below 2^64, as for `InitPmm`.
- The bootloader's tables are taken as they were handed over: they lie in firmware memory, which `init_pmm` never frees.
- Heap headers are records by address: their bytes, and the bytes of payloads, are not laid out in the frames of the page-table model. `kcalloc` is a fresh zeroed node or failure; its int product and its memset of NULL are not modelled.
- The file system's heap is an allocator that may fail at any call; it is not connected to `KernelHeap`. Strings and data are values behind a block number; aliasing between the caller's buffer and file data is not captured.
- `create_file_force` (marked as not used), `delete_folder` and `list_files` (one call each).
- Caches of the paging hierarchy other than the TLB, 1 GiB pages, access rights, and the instructions behind CR3, MSR and CPUID, which are parameters or state updates.
- UEFI services other than `AllocatePages` and `SetMem`, kernel loading, and the objects handed over: ranges are arbitrary.
- `print` output, APIC, interrupts, threads, system calls, the registry, terminal, fonts and the other drawing routines.
