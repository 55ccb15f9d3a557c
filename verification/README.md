# Verified models of the ucore kernel and its image builder

This project models the data structures and algorithms of a small teaching kernel for RISC-V and of
the tool that builds its file-system image, and proves what they are for.  Verify with
`dafny verify dfyconfig.toml`.

| files | component |
|---|---|
| `SkewHeap`, `SkewHeapLaws` | the skew heap of the scheduler: heap cells with parent links, deletion of any node, amortised cost |
| `BuddyTheory`, `BuddyLists`, `Buddy` | the buddy page allocator: splitting, merging, and why its free state is canonical |
| `PageLists`, `FreeRuns` | the first-fit and best-fit page allocators on doubly linked lists |
| `Slob`, `FreeRuns` | the SLOB heap with its circular list, `kmalloc` and `kfree` |
| `PageTree`, `PageTable` | three-level page tables with reference counts |
| `SfsLayout`, `SfsInode`, `Mksfs`, `HostTree`, `MksfsTree` | the file-system image builder: index blocks, inodes, the walk over the host's directories |
| `SfsLookup`, `SfsRead`, `SfsCrowd` | what the kernel finds and reads on the finished image, and a host tree whose file it cannot open |
| `Number` | number printing against `strtol`, printing into a buffer |
| `Dtb` | the flattened device tree reader |
| `Words` | powers of two, division, bitwise operators |

How the models are built:

- Code that changes things in place is a class whose methods change fields.  A ghost field or a ghost
  function says what the state stands for (a tree, a set of blocks, a list of free runs, a map), a
  predicate `Valid` (or `Whole`, `TreeOk`, `Represents`) ties the two together, and every method states
  the new abstract state.  The laws of the abstract state are lemmas beside the class.
- Since every method keeps the invariant, a statement about a valid state is a statement about every
  state that any run of these methods can reach.
- Answers of parts that are not modelled (the page allocator below the heap and the page tables, the
  host's files) are parameters.  A failed assertion or a call of `bug` or `panic` is a result of its own
  (`Panic`, `ok == false`) where the source lets it happen, and a precondition where callers exclude it.
- Unsigned machine words are natural numbers; where a width matters (`int` in `find_order`, `long` in
  `strtol`, the 16-bit link count, the 32-bit block count of an image, byte order) it is written out.

What the proofs found out about the code:

- The insertion loops of the address-ordered page lists have no way out after inserting at the end of a
  list that is not empty: the new link becomes its own predecessor and the list is no list any more
  (`PageLists.Links.InsertSorted`, `TailBreaks`).  Freeing a block just allocated runs into this exactly
  if the block was the whole of the last one and not the only one (`PageLists.FreeIsAtTail`).
- `find_order` drops bits, and takes an `int` where `kmalloc` takes a `size_t`: the pages hold the request
  exactly if its size is below 2^31 and not strictly between 4096·2^k and 4097·2^k (`Slob.BigHolds`, part
  of the contract of `Slob.Heap.Kmalloc`); 8193 bytes get 8192, and 2^31 bytes get one page.
- `kmalloc` panics exactly for sizes from 4064 to 4079, which the guard sends to `slob_alloc` and the
  assertion there rejects.  `kmalloc(0)` takes the list anchor itself if that comes next behind the roving
  pointer, and while it is alone hands it out again and again (`Slob.ZeroSizeTakesArena`).
- `buddy_alloc_pages` returns blocks that are too small exactly for requests above 2^15 pages.
- `alloc_cache_block` puts every index block into the hash bucket of 0, so that a search for it would
  miss unless its number hashes there; the search is never reached (`Mksfs.Sfs.AppendBlock`).
- `add_entry` writes 256 bytes of a 260-byte entry: names of 253 to 255 characters lose their tail
  (`SfsLayout.EntryReadsBack`).  `mksfs` writes files of up to 32768 blocks, of which the kernel can read
  the first 1036 and panics behind them (`Mksfs.Sfs.ReadsBack`).
- The kernel's `sfs_lookup` takes a whole path as one name, so that a path of several components is never
  found; looking up a symbolic link panics, and so does looking for anything behind slot 1035 of a
  directory, where `mksfs` goes on writing (`SfsLookup.PathsAreNotTakenApart`, `LookupFinds`,
  `LookupMisses`).
- `add_entry` counts links in 16 bits: a file with 65536 names, or a multiple, has none on the image, and the
  kernel panics when it looks the file up; all other inodes have links (`SfsLookup.LinkedUnlessWrapped`).
  Such a host tree fits an image (`SfsCrowd.TownIsLost`).
- A negative number printed with spaces on the left is not read back by `strtol`
  (`Number.PrintIntReadsBack`).
- Below a memory node without a `reg` of its own the device tree reader also takes the `reg` of the first
  child, of its first child, and so on (`Dtb.ScanTree`, `Dtb.ChildTakenForMemory`); it finds the first
  memory node's `reg` exactly if the walk does not end at such a stray one, or that says the same
  (`Dtb.FoundIsFirst`).

## Model

| member | source | states |
|---|---|---|
| SkewHeap.Init | lab8/libs/skew_heap.h:23-27 | the node stands alone: a tree of one node |
| SkewHeap.Merge | lab8/libs/skew_heap.h:29-59 | two heaps in memory with disjoint nodes become the cells, links and parent links of the merged tree, the root's parent untouched, in exactly the number of calls that `Calls` counts; of two roots the first stays on top exactly if it compares less |
| SkewHeap.Insert | lab8/libs/skew_heap.h:61-67 | the memory then holds the heap merged with the new node, root without parent; the new node is on top exactly if it compares less than the root, or alone |
| SkewHeap.Remove | lab8/libs/skew_heap.h:69-85 | for any member b, root or not: the memory then holds the tree in which the subtree at b is replaced by the merge of its children, with all parent links right |
| SkewHeap.Merged | lab8/libs/skew_heap.h:29-59 | the merged tree has exactly the nodes of both, each once |
| SkewHeap.Removed | lab8/libs/skew_heap.h:69-85 | the tree after removal has exactly the other nodes, each once |
| SkewHeap.ParentLinks | lab8/libs/skew_heap.h:69-85 | in memory that holds a tree, every node but the root has its tree parent as parent, and is exactly one of that parent's two children |
| SkewHeapLaws.RootIsLeast | lab8/libs/skew_heap.h:29-59 | the root of a heap is least among all members |
| SkewHeapLaws.MergedIsHeap | lab8/libs/skew_heap.h:29-59 | merging keeps heap order |
| SkewHeapLaws.RemovedIsHeap | lab8/libs/skew_heap.h:69-85 | removing any member keeps heap order |
| SkewHeapLaws.MergePaysForSpines | lab8/libs/skew_heap.h:29-59 | calls plus the change of potential (nodes whose right subtree is larger) are at most twice the light nodes on the two spines, plus one |
| SkewHeapLaws.MergeIsAmortisedLogarithmic | lab8/libs/skew_heap.h:29-59 | calls plus the change of potential are within the logarithmic budget of the two sizes |
| SkewHeapLaws.RunIsAmortisedLogarithmic | lab8/libs/skew_heap.h:29-85 | a run of inserts, merges and root removals that starts from nothing and inserts n nodes makes at most (4·log2(n+1)+1) calls per operation on average |
| BuddyTheory.XorFindsBuddy | lab2/kern/mm/buddy_pmm.c:62-96 | XOR-ing the page index of an aligned block with its size gives the index of its buddy |
| BuddyTheory.AndTestsPow2 | lab2/kern/mm/buddy_pmm.c:193-227 | n & (n-1) vanishes exactly for powers of two |
| BuddyTheory.FreeRunInOneBlock | lab2/kern/mm/buddy_pmm.c:145-191 | in a fully merged decomposition every wholly free aligned run lies inside one block |
| BuddyTheory.MergedTilingIsMaximal | lab2/kern/mm/buddy_pmm.c:62-96 | a fully merged decomposition consists exactly of the maximal free aligned blocks |
| BuddyTheory.MergedTilingIsUnique | lab2/kern/mm/buddy_pmm.c:62-96 | two fully merged decompositions of the same pages are equal |
| BuddyTheory.WholeRangeIsInitial | lab2/kern/mm/buddy_pmm.c:98-143 | a fully merged decomposition of all n pages is the initial carving |
| Buddy.Size2OrderCeil | lab2/kern/mm/buddy_pmm.c:24-28 | the least order whose block holds n, or the top order |
| Buddy.CeilOrderSize | lab2/kern/mm/buddy_pmm.c:24-28 | such a block is smaller than 2n, and holds n exactly if n is at most 2^15 |
| Buddy.RunIffListed | lab2/kern/mm/buddy_pmm.c:145-191 | the search for a nonempty list succeeds exactly if an aligned run of that many free pages exists |
| Buddy.BuddyArea.ListsInit | lab2/kern/mm/buddy_pmm.c:48-52 | all lists are empty |
| Buddy.BuddyArea.InitMemmap | lab2/kern/mm/buddy_pmm.c:98-143 | the free blocks are consecutive, descending in size, cover the pages exactly, and are those of the initial carving; no descriptor is reserved any more, and all reference counts are 0 |
| Buddy.BuddyArea.InsertAndMerge | lab2/kern/mm/buddy_pmm.c:62-96 | a floating block joins the lists and is merged to the end: the state is consistent and fully merged, the same pages are free, reserved descriptors are untouched |
| Buddy.BuddyArea.SplitDown | lab2/kern/mm/buddy_pmm.c:165-182 | halving down to the order needed keeps the first half and lists the others; the same pages are free |
| Buddy.BuddyArea.AllocPages | lab2/kern/mm/buddy_pmm.c:145-191 | for up to 2^15 pages it fails exactly if no aligned run is free; otherwise exactly the pages of one aligned free block leave, split off the first block of the least order listed that is large enough, and recorded as outstanding; nothing changes on failure; the pages handed out are reserved, with reference count 0 and no head mark, and no other descriptor gets reserved or loses it |
| Buddy.BuddyArea.FreePagesAt | lab2/kern/mm/buddy_pmm.c:193-227 | exactly the pages of the block come back, its size taken from its descriptor or else from n, and the state is again fully merged; the descriptors of its pages are unreserved with reference count 0, and elsewhere neither changes |
| Buddy.BuddyArea.ScanFreeAndCheck | lab2/kern/mm/buddy_pmm.c:234-248 | the assertions in the scan hold in every valid state and the sum is the free counter |
| Buddy.BuddyArea.FreeAll | lab2/kern/mm/buddy_pmm.c:193-227 | freeing all outstanding blocks, in any order, gives exactly the initial carving |
| Buddy.FreeBlocksAreMaximal | lab2/kern/mm/buddy_pmm.c:62-227 | in every valid state the free blocks are the maximal free aligned blocks |
| Buddy.FreeBlocksAreCanonical | lab2/kern/mm/buddy_pmm.c:62-227 | in any two valid states with the same free pages the free blocks are the same |
| Buddy.BlocksPartitionPages | lab2/kern/mm/buddy_pmm.c:62-227 | free and outstanding blocks together cut up the managed pages |
| FreeRuns.RunsAreCanonical | lab4/kern/mm/kmalloc.c:158-194 | separated sorted runs are determined by the free units |
| FreeRuns.InsertedSeparated | lab4/kern/mm/kmalloc.c:158-194 | inserting a run and merging it on both sides keeps the runs sorted and apart |
| FreeRuns.InsertedFree | lab4/kern/mm/kmalloc.c:158-194 | and adds exactly its units |
| FreeRuns.CarvedSeparated | lab4/kern/mm/kmalloc.c:109-139 | taking units out of a run keeps the runs sorted and apart |
| FreeRuns.CarvedFree | lab4/kern/mm/kmalloc.c:109-139 | and removes exactly these units |
| Slob.StopsAt | lab4/kern/mm/kmalloc.c:169-173 | the search for the insertion point may stop at exactly one block of the circle |
| Slob.AlignUpBounds | lab4/kern/mm/kmalloc.c:109-113 | rounding up reaches the next multiple and never passes the start of a page |
| Slob.PageRoom | lab4/kern/mm/kmalloc.c:140-155 | the block that a fresh page has become part of has room for every request that fits a page, whatever it merged with |
| Slob.Heap.constructor | lab4/kern/mm/kmalloc.c:76-78 | the heap is arena alone |
| Slob.Heap.SlobFree | lab4/kern/mm/kmalloc.c:158-194 | from any position of the roving pointer the search ends; the circle then spells the old runs with the block inserted and merged, and the pointer rests on the block before it |
| Slob.Heap.Take | lab4/kern/mm/kmalloc.c:114-139 | exactly the units asked for leave, the head skipped for alignment and the rest stay, and the pointer rests on what precedes them |
| Slob.Heap.Grow | lab4/kern/mm/kmalloc.c:147-153 | exactly the page's units join, and the block they become part of has room |
| Slob.Heap.SlobAlloc | lab4/kern/mm/kmalloc.c:97-156 | it ends and asks for at most one page, and for one exactly if no block has room; it fails exactly if that page is refused; otherwise it takes the first block with room behind the roving pointer, of the list as it was or with the page merged in, aligned, and exactly these units leave; the pointer then rests on the block before it |
| Slob.Heap.FindOrder | lab4/kern/mm/kmalloc.c:220-226 | the loop computes the order |
| Slob.OrderIsLeast | lab4/kern/mm/kmalloc.c:220-226 | the order is the least that shifts the size down to 4096 |
| Slob.OrderHolds | lab4/kern/mm/kmalloc.c:220-226 | for a positive int its pages hold the size exactly if the size is not just above 4096·2^k for any k |
| Slob.OrderFallsShort | lab4/kern/mm/kmalloc.c:220-226 | 8193 bytes get two pages |
| Slob.BigHolds | lab4/kern/mm/kmalloc.c:220-257 | for every size_t: the pages of a large block hold the request exactly if it is below 2^31 and not just above 4096·2^k for any k |
| Slob.TruncatedOrder | lab4/kern/mm/kmalloc.c:220-243 | 2^31 bytes, which are not just above any 4096·2^k, get one page |
| Slob.Heap.Kmalloc | lab4/kern/mm/kmalloc.c:228-258 | for every size above 0: it panics exactly from 4064 to 4079; it asks for a page exactly if no block has (size + 31) / 16 units, or two for the node of a large block; it returns null exactly if that page or the large pages are refused; what it takes is the first block with room, new and of exactly that length; exactly when the pages of a large block hold the request; what the big-block list becomes, and which units leave the free list |
| Slob.Heap.KmallocBig | lab4/kern/mm/kmalloc.c:240-257 | a large request gets the pages and a node, the first block with room for it, or the node goes back; a page for the node is asked for exactly if no block has room; exactly when the pages hold the request |
| Slob.Heap.RecordBig | lab4/kern/mm/kmalloc.c:244-254 | writing the node over its header and linking it keeps the heap whole |
| Slob.Heap.Kfree | lab4/kern/mm/kmalloc.c:266-294 | a big block is found under its address only, and its node goes back to the heap; any other block goes back with the length in its header |
| Slob.NotBig | lab4/kern/mm/kmalloc.c:274-290 | no block of the heap, even at a page boundary, is mistaken for a big one |
| Slob.Heap.KmallocThenKfree | lab4/kern/mm/kmalloc.c:228-294 | freeing what was just allocated restores the blocks, the big-block list and the free runs, plus the page if one was fetched, which happens exactly if no block had room |
| Slob.UnitsConserved | lab4/kern/mm/kmalloc.c:97-194 | free units and allocated units add up to 1 + 256 per page |
| Slob.ZeroSizeTakesArena | lab4/kern/mm/kmalloc.c:76-139 | only kmalloc(0) asks for one unit, which any block has: it takes the block next behind the roving pointer; if that is arena and alone, unlinking it leaves the memory as it was, so that it is handed out again; with other blocks around, the circle goes on without arena |
| PageTree.AddressRoundTrip | lab4/kern/mm/mmu.h:28-41 | below 2^39 the fields put an address together again |
| PageTree.FieldsRoundTrip | lab4/kern/mm/mmu.h:28-41 | and an address put together gives its fields back |
| PageTree.PteRoundTrip | lab4/kern/mm/pmm.h:170-173 | an entry gives back its frame and flags and is present |
| PageTree.SlotIs39 | lab4/kern/mm/pmm.c:223-252 | the walk by the address fields arrives where the Sv39 translation, written as arithmetic on the numbers in memory, looks for the last-level entry |
| PageTree.ViewIs39 | lab4/kern/mm/pmm.c:255-267 | the finite map of the tables is what that translation finds, entry by entry |
| PageTree.KeyIsPage | lab4/kern/mm/mmu.h:28-41 | two addresses have the same indices exactly if their page numbers agree in 27 bits |
| PageTree.HungKeepsView | lab4/kern/mm/pmm.c:223-252 | hanging an empty table under an absent entry changes no mapping |
| PageTree.HungStanding | lab4/kern/mm/pmm.c:223-252 | hanging a table adds that table, at its place in the tree, and no other |
| PageTree.RewrittenStanding | lab4/kern/mm/pmm.c:272-331 | rewriting a last-level entry adds and removes no table |
| PageTree.RewrittenView | lab4/kern/mm/pmm.c:272-331 | rewriting a last-level entry changes exactly the mapping at its key |
| PageTree.UsersAfterInsert | lab4/kern/mm/pmm.c:308-331 | how the number of mappings of a page changes when a key is mapped |
| PageTree.UsersAfterRemove | lab4/kern/mm/pmm.c:272-287 | how it changes when a key is unmapped |
| PageTable.Mmu.NextTable | lab4/kern/mm/pmm.c:223-252 | one level of the walk: the table below an entry; an absent one is made, empty, exactly if asked for and the page allocator grants its one page; no mapping changes; the new table is all zeros and counted once, and the entry is its frame with the flags U and V |
| PageTable.Mmu.GetPte | lab4/kern/mm/pmm.c:223-252 | the place of the last-level entry: null exactly if a table is missing and not wanted, or a page for one of the missing tables (at most two) is refused; exactly the pages granted become tables, and no mapping changes; the place is that of the Sv39 translation, as arithmetic on the numbers in memory, and every translation stays as it was |
| PageTable.Mmu.GetPage | lab4/kern/mm/pmm.c:255-267 | the page mapped at the address, which is the one that the Sv39 translation leads to, and the place of its entry; nothing changes |
| PageTable.Mmu.PageRemovePte | lab4/kern/mm/pmm.c:272-287 | exactly this key leaves the map, and the page is freed exactly at its last use |
| PageTable.Mmu.PageRemove | lab4/kern/mm/pmm.c:291-298 | exactly the key of the address leaves the map; counts stay the numbers of mappings; the page is freed exactly at its last use; afterwards the translation of the page leads nowhere, and that of every other page is as it was |
| PageTable.Mmu.PageInsert | lab4/kern/mm/pmm.c:308-331 | it succeeds exactly if the page allocator grants the tables that are missing; success maps exactly the key; failure leaves the map and the counts of all pages alone, even if a table was hung; the displaced page is freed exactly if this was its last mapping, and the page mapped never is; after success the address translates to the page, with these permissions, and every other translation is as it was, after failure all of them |
| PageTable.Mmu.MapPage | lab4/kern/mm/pmm.c:315-330 | counting in, seeing off the old mapping and writing keep the counts right in every case, including a page mapped onto itself |
| PageTable.Mmu.BootMapSegment | lab4/kern/mm/pmm.c:149-162 | it succeeds exactly if the page allocator grants as many pages as there are tables on the way to the segment's pages that are not there; then all pages are mapped, and exactly these tables are added; otherwise as many pages as there are tables for, and exactly the frames granted have left the allocator; the pages are exactly those that the bytes of the segment lie on, each byte translates to its place in the physical segment, up to 2^27 pages, and every other translation is as it was |
| PageTable.SegmentStep | lab4/kern/mm/pmm.c:149-162 | what the table walk for the next page finds missing is what the segment up to that page needs beyond what it needed before |
| PageTable.MissingIsWay | lab4/kern/mm/pmm.c:223-252 | the walk finds missing exactly the tables on its way that are not there |
| PageTable.SegmentMaps | lab4/kern/mm/pmm.c:149-162 | a segment maps its j-th page to the j-th frame and nothing else anew |
| PageTable.PagesCover | lab4/kern/mm/pmm.c:153-155 | the rounding counts the pages from that of the first byte to that of the last one |
| SfsLayout.IndexReadsBack | lab8/tools/mksfs.c:397-426 | block i of the index, through the three levels on the image, is the i-th number appended; the kernel's reader agrees up to index 1035 and panics beyond |
| SfsLayout.SetBit | lab8/tools/mksfs.c:329-331 | setting a bit sets exactly that bit |
| SfsLayout.FreeBitIs | lab8/tools/mksfs.c:312-335 | the bit of number k is bit k % 32 of word k % 32768 / 32 in block 2 + k / 32768 |
| SfsLayout.FreeBitsCount | lab8/kern/fs/sfs/sfs_fs.c:218-224 | the count of a free map whose set bits form a range is the length of the range |
| SfsLayout.EntryReadsBack | lab8/tools/mksfs.c:428-437 | the kernel reads back the number of an entry, and its name exactly if it has at most 252 characters; byte for byte, the number comes first, then the name, and behind byte 255 only zeros |
| SfsLayout.Le32ReadsBack | lab8/tools/mksfs.c:432-434 | four little-endian bytes give a 32-bit number back, the lowest byte first |
| SfsInode.CacheInode.PlaceDirect | lab8/tools/mksfs.c:406-408 | a number placed directly extends the file |
| SfsInode.CacheInode.PlaceLeaf | lab8/tools/mksfs.c:409-422 | a number placed in the cached leaf extends the file |
| SfsInode.CacheInode.SetIndirect | lab8/tools/mksfs.c:409-411 | the first leaf is hung |
| SfsInode.CacheInode.SetBranch | lab8/tools/mksfs.c:415-417 | the double-indirect block is hung |
| SfsInode.CacheInode.SetLeaf | lab8/tools/mksfs.c:418-420 | a further leaf is hung and becomes the cached one |
| Mksfs.HashesDiffer | lab8/tools/mksfs.c:42-56 | number 3 hashes elsewhere than 0 |
| Mksfs.Sfs.constructor | lab8/tools/mksfs.c:238-253 | the builder starts with the root inode, every number behind the free map unused: the first is 2 + (n + 32767) / 32768 |
| Mksfs.Sfs.AllocIno | lab8/tools/mksfs.c:173-180 | numbers are handed out in order until there are none, and used and unused ones always add up |
| Mksfs.Sfs.AllocCacheBlock | lab8/tools/mksfs.c:182-190 | a new empty index block with a new number, in the bucket of 0 |
| Mksfs.Sfs.SearchCacheBlock | lab8/tools/mksfs.c:192-199 | the search finds a block exactly if its number hashes to the bucket of 0 |
| Mksfs.Sfs.UpdateCache | lab8/tools/mksfs.c:382-395 | a new block, the cached one, or a search, and exactly when which; the search succeeds exactly if the number is that of an index block and hashes to the bucket of 0 |
| Mksfs.Sfs.AppendBlock | lab8/tools/mksfs.c:397-426 | the number becomes the next of the file; it fails exactly if the file is full or an index block is needed and none is left; the hash table is never searched |
| Mksfs.NeededIs | lab8/tools/mksfs.c:397-426 | a file of m blocks takes m numbers, one for every 1024 behind the first 12, and one for the double-indirect block behind 1036 |
| Mksfs.Sfs.AppendData | lab8/tools/mksfs.c:516-531 | one block of data: a new number, the padded data on the image, the number in the index |
| Mksfs.Sfs.AddEntry | lab8/tools/mksfs.c:428-437 | the directory gets one block that names the file, and the file one more link |
| Mksfs.Sfs.AllocCacheInode | lab8/tools/mksfs.c:201-212 | a new empty inode with a new number joins the others |
| Mksfs.Sfs.SearchCacheInode | lab8/tools/mksfs.c:214-221 | finds an inode of the host's number exactly if there is one |
| Mksfs.Sfs.OpenFile | lab8/tools/mksfs.c:516-531 | the file gets the chunks, each padded to a block; it fails exactly if a chunk but the last is short, the file is too big, or the numbers run out |
| Mksfs.Sfs.OpenLink | lab8/tools/mksfs.c:533-543 | the link gets its target as its one block |
| Mksfs.Sfs.BitmapBlock | lab8/tools/mksfs.c:317-332 | in the block for the numbers from i on exactly the bits from the next number up to the end are set |
| Mksfs.Sfs.WriteMap | lab8/tools/mksfs.c:312-335 | over all blocks of the free map the set bits are exactly the unused numbers, their count is the superblock's, as the kernel asserts when it mounts |
| Mksfs.Sfs.CloseSfs | lab8/tools/mksfs.c:312-349 | free map, superblock, every index block and every inode are on the image, and no data was overwritten; block 0 has both counts, and the bits from block 2 on are set exactly for the unused numbers |
| Mksfs.Sfs.ReadsBack | lab8/kern/fs/sfs/sfs_inode.c:256-292 | on the finished image block i of every file is found through its inode and holds what was written, marked in use; the kernel finds it too, up to the end of the indirect block |
| Mksfs.Sfs.NumbersDiffer | lab8/tools/mksfs.c:173-180 | no number is handed out twice: data blocks, index blocks and inodes all differ |
| MksfsTree.CreateSfs | lab8/tools/mksfs.c:223-254 | refused exactly below 4 blocks (after truncation to 32 bits and capping), so below 2^44 bytes exactly for files under 16384 bytes; otherwise a fresh file system of as many blocks of 4096 bytes as fit the file, at most 524288 |
| MksfsTree.AddFile | lab8/tools/mksfs.c:428-457 | exactly if the bill can be paid: the directory gets one block that names a FILE inode with the host's content and size, made now or found under the host's inode number; the file has one more link, modulo 2^16, and nothing else changes |
| MksfsTree.AddLink | lab8/tools/mksfs.c:428-464 | exactly if the bill can be paid: the directory gets one block that names a LINK inode whose block is the target, whose size is its length, and which has one link |
| MksfsTree.AddDir | lab8/tools/mksfs.c:428-447 | exactly if the bill can be paid, and never for a directory seen before: the directory gets one block that names a DIR inode which holds the host's subdirectory, down to the last file, with 256 bytes a block and two links and one more for each of its subdirectories; the directory itself has one more link |
| MksfsTree.OpenDir | lab8/tools/mksfs.c:466-514 | it gets through exactly if the bill for the host directory can be paid, and takes exactly those numbers; then the directory names itself, its parent, and in order an inode for every entry that is a file, directory or link and whose name does not begin with a dot, and has no other block; each inode is of the object's kind and holds what the object holds, recursively, with its size and links; no other directory gets a block |
| MksfsTree.AddHost | lab8/tools/mksfs.c:485-508 | one turn of its loop: hidden names, `.` and `..` are passed over, names above 255 characters and unreadable objects make the tool give up, special files are passed over |
| HostTree.MadeKept | lab8/tools/mksfs.c:466-514 | an inode that holds a host object keeps holding it while finished inodes do not change |
| HostTree.SourceIs | lab8/tools/mksfs.c:485-508 | the block for a shown entry stands behind those of the entries shown before it |
| HostTree.FilledShows | lab8/tools/mksfs.c:476-508 | a directory that has been filled has one block for each such entry, behind the first two as many on as there are such entries before it, and no other |
| MksfsTree.CreateImg | lab8/tools/mksfs.c:544-559 | it gets through exactly if the bill for the host directory can be paid; then free map, superblock, index blocks and inodes are on the image, the root directory holds the whole host tree (directories, contents and sizes of files, targets of links), and the links of every file are the number of its names modulo 2^16 |
| MksfsTree.FileReadsBack | lab8/kern/fs/sfs/sfs_inode.c:256-292 | the inode on the image of a file that holds a host file has the host's size, and what the kernel reads of it is the host's data, block by block, as far as it can reach |
| MksfsTree.LinkReadsBack | lab8/kern/fs/sfs/sfs_inode.c:256-292 | the block of a link on the image is the host's target, its size the length, and its link count one; behind the target come zeros |
| SfsLookup.LookupFinds | lab8/kern/fs/sfs/sfs_inode.c:440-520 | in a directory that holds a host directory, a name finds the inode of the first entry read with it, among the files, directories and links whose names do not begin with a dot, if its slot, two more than the number of such entries before it, is below 1036, and it has links and is no symbolic link; otherwise the kernel panics |
| SfsLookup.LookupDots | lab8/kern/fs/sfs/sfs_inode.c:440-520 | `.` finds the directory and `..` the one above |
| SfsLookup.LookupMisses | lab8/kern/fs/sfs/sfs_inode.c:440-520 | any other name is not there, a name beginning with a dot among them, and looking for it panics in directories of more than 1036 blocks |
| SfsLookup.FirstOrAbsent | lab8/kern/fs/sfs/sfs_inode.c:440-520 | these cases cover every name |
| SfsLookup.PathsAreNotTakenApart | lab8/kern/fs/sfs/sfs_inode.c:997-1018 | a path with a slash is never found, as it is looked for as one name |
| SfsLookup.PathFound | lab8/kern/fs/sfs/sfs_inode.c:155-189 | for every path of host files and directories, in names of up to 252 characters that do not begin with a dot, are first in their directories and within the kernel's reach, one lookup after the other gets to an inode that holds the host's object; but at a file with 65536 names, or a multiple, the kernel panics |
| SfsLookup.HostFileFound | lab8/kern/fs/sfs/sfs_inode.c:155-520 | on the image that create_img makes, with no further condition: from the root every such path of a host file leads to an inode with the host's size and blocks, or to a panic, exactly if the file's names are a multiple of 65536 |
| SfsLookup.LinkedUnlessWrapped | lab8/kern/fs/sfs/sfs_inode.c:155-189 | all inodes of the image have links, as the kernel asserts, exactly if no host file has a multiple of 65536 shown names |
| SfsRead.Read | lab8/kern/fs/sfs/sfs_inode.c:553-662 | reading any bytes at any offset of a file with the host's size and blocks gives the host's bytes there, as many as there are, and panics exactly if they reach behind block 1035 |
| SfsRead.Piece | lab8/kern/fs/sfs/sfs_inode.c:590-655 | block i of a file, all of whose blocks but the last are full, holds its bytes from 4096·i on |
| SfsRead.ReadPath | lab8/kern/fs/sfs/sfs_inode.c:155-662 | the two together: under every such path the kernel reads the host's bytes |
| SfsRead.RoomIs | lab8/tools/mksfs.c:223-254 | when an image file of so many bytes has room for a bill |
| SfsRead.BuildAndRead | lab8/tools/mksfs.c:544-559 | and from the beginning: the tool gives up exactly if the image is too small for the bill (below 2^44 bytes: under 16384 bytes, or superblock, root, free map and bill need more than its blocks of 4096 bytes, capped at 524288), and on the image it makes the kernel reads the host's bytes |
| SfsCrowd.TownIsLost | lab8/tools/mksfs.c:428-437 | a host tree of four directories with 16384 names of one file each: the image has room for it, the kernel can get to the file, and its link count wraps around |
| SfsCrowd.LostOnImage | lab8/kern/fs/sfs/sfs_inode.c:155-189 | on every image of that tree the kernel panics when it looks the file up |
| Number.PrintNumIs | lab8/libs/printfmt.c:53-69 | padding up to the width, then the digits |
| Number.NumeralDenotes | lab8/libs/printfmt.c:53-69 | the digits denote the number |
| Number.NumeralLength | lab8/libs/printfmt.c:53-69 | they are as few as the number allows |
| Number.NumeralDigits | lab8/libs/printfmt.c:53-69 | every digit is one of 0 to 9 and a to f, and the last one is the remainder |
| Number.LeadingDigit | lab8/libs/printfmt.c:53-69 | only 0 begins with a 0 |
| Number.StrTol | lab8/libs/string.c:215-271 | the loops read blanks, sign, prefix and digits, with 64-bit wrap-around |
| Number.StrTolReads | lab8/libs/string.c:215-271 | blanks, a sign, a prefix that goes with the base and a numeral in letters of either case are read to the end of the numeral, if neither letter nor digit follows; the result is the number in 64 bits, and the number itself below 2^63 |
| Number.PrintNumReadsBack | lab8/libs/printfmt.c:53-69 | below 2^63, for base 8, 10 and 16, any width and padding with spaces or zeros, strtol gives the number back and consumes everything; the length is the larger of width and digit count |
| Number.PrintIntReadsBack | lab8/libs/printfmt.c:244-253 | a signed argument is read back exactly if it is not negative, or padded with zeros, or as long as the width |
| Number.SprintBuf.Putch | lab8/libs/printfmt.c:309-315 | every character counts, those that fit are stored |
| Number.VSnprintf | lab8/libs/printfmt.c:347-358 | the buffer holds the output as far as it fits, terminated, and nothing else changes; the result is the full length |
| Dtb.SwappedLoad | lab2/kern/driver/dtb.c:29-32 | swapping a load gives the big-endian number stored there, and which number that is |
| Dtb.SwapTwice | lab2/kern/driver/dtb.c:29-32 | swapping twice is the identity |
| Dtb.SwappedLoad64 | lab2/kern/driver/dtb.c:34-37 | the same for 64 bits |
| Dtb.ExtractMemoryInfo | lab2/kern/driver/dtb.c:40-101 | on every encoded stream the pointer stays on token boundaries, the loop ends, and the result is that of the walk over the tokens; the pair is read from the first `reg` of at least 16 bytes between the beginning of a node whose name starts with `memory` and the next end of a node: base from its first eight bytes, size from the next eight, most significant first; and there is no pair exactly if there is no such `reg` before the end |
| Dtb.ScanFinds | lab2/kern/driver/dtb.c:54-95 | the walk over the tokens finds the first such `reg`, if there is one |
| Dtb.ScanTree | lab2/kern/driver/dtb.c:40-101 | what the walk finds on any tree |
| Dtb.FoundIsFirst | lab2/kern/driver/dtb.c:40-101 | for every tree: the walk finds the first `reg` of at least 16 bytes in a memory node, or nothing if there is none, exactly if it does not end at a stray `reg`, or that says the same |
| Dtb.StrayOrFirst | lab2/kern/driver/dtb.c:40-101 | the walk either ends at a stray `reg`, one outside memory nodes, or finds the first one in a memory node |
| Dtb.LeavesDoNotStray | lab2/kern/driver/dtb.c:40-101 | it cannot go astray if every memory node has a `reg` of its own or no children |
| Dtb.ChildTakenForMemory | lab2/kern/driver/dtb.c:54-69 | otherwise a child's `reg` can be taken for the memory's |
| Dtb.NopsDoNotMatter | lab2/kern/driver/dtb.c:91-92 | NOP tokens change nothing, wherever they stand |
| PageLists.AddKeeps | lab2/libs/list.h:141-146 | adding a new link between neighbours of a list gives the list with it |
| PageLists.DelKeeps | lab2/libs/list.h:154-158 | hooking the neighbours of a link to each other gives the list without it |
| PageLists.Links.Del | lab2/libs/list.h:91-94 | the list without the link |
| PageLists.Links.InsertSorted | lab2/kern/mm/default_pmm.c:138-152 | the insertion loop finds the place; it keeps the list a list exactly if the list was empty or the place is not its end |
| PageLists.TailBreaks | lab2/kern/mm/default_pmm.c:142-151 | after an insertion at the end the new link precedes itself, and the links are no list of any pages in any order |
| PageLists.PageArea.InitMemmap | lab2/kern/mm/default_pmm.c:68-94 | the pages become one free block in its place, unmerged: the state is valid again exactly if they touch no free block; at the end of a nonempty list the links break; exactly these pages stop being reserved, and their reference counts are 0 |
| PageLists.PageArea.DefaultAllocPages | lab2/kern/mm/default_pmm.c:96-124 | fails exactly if no block is large enough; otherwise takes the front of the first that is, in place |
| PageLists.PageArea.BestFitAllocPages | lab2/kern/mm/best_fit_pmm.c:115-165 | the same with the first of the smallest blocks that are large enough |
| PageLists.PageArea.FreePages | lab2/kern/mm/best_fit_pmm.c:167-241 | the block is inserted in its place and merged on both sides; list, sizes, flags and counter agree again; if its place is the end of a nonempty list, nothing merges and the links break (first fit has the same code, lab2/kern/mm/default_pmm.c:126-174); the reference counts of its pages are 0, the others as they were |
| PageLists.FreeUndoesTake | lab2/kern/mm/default_pmm.c:96-174 | freeing what was taken restores the blocks |
| PageLists.FreeIsAtTail | lab2/kern/mm/default_pmm.c:126-174 | freeing what was taken goes through the broken end of the loop exactly if the block taken was all of the last one and not the only one |

## Left out

- Buddy.BuddyArea.FreePagesAt: requires what the source asserts (reserved pages, an aligned run, a power of two), and a run of at most 2^15 pages, as there is no list for more.
- Buddy.BuddyArea.AllocPages: the free lists are sequences of page numbers; the `prev` and `next` fields in the descriptors are not modelled here (they are in PageLists).
- Slob.Heap.SlobAlloc: requires at least two units, so that arena is never taken, and pages that never touch arena; the dead test `size == PAGE_SIZE` is not modelled.
- Slob.Heap.Kmalloc: requires a size above 0, for the same reason; the big-block list is a sequence of its nodes.
- Slob.Heap.Kfree: requires null or an address that kmalloc returned and kfree has not taken back.
- PageTable.Mmu.PageInsert: requires permission bits below 2^10 and a page that is neither free nor used as a table; frame numbers are unbounded.
- PageTable.Mmu.GetPte: huge-page entries from the boot table are excluded, as every present entry above the last level leads to a table.
- SfsInode.CacheInode.PlaceLeaf: the contents of index blocks are sequences of numbers, not bytes.
- MksfsTree.OpenDir: the host is a finite tree whose inode numbers identify its files, and no file has number 0; names may repeat; nothing is said about the image when the tool gives up.
- SfsLookup.LookupFinds: the kernel's cache of loaded inodes and a lack of kernel memory are not modelled.
- SfsRead.Read: 64-bit offsets do not overflow; of an inode whose size reaches beyond its blocks, which the tool never writes, the source would append blocks while it reads.
- PageLists.PageArea.FreePages: nothing is said of calls after the list has been broken.
- Number.VSnprintf: the output of `vprintfmt` is a parameter; its scan of the format string is not modelled, nor padding with `-`, nor the most negative 64-bit number.
- Locking and interrupts: every component is modelled for one thread of control.
- TLB invalidation, CSR and SBI calls, console, clock, traps.
- `page_init`, `pmm_init` and the boot-time set-up of the managers, and the self-checks at the end of each allocator.
- `get_pgtable_items` and the other printing functions.
- `ksize`, `slob_init` and the accounting stubs of kmalloc.c.
- The slab allocator of lab2/kern/mm/slub.c and the copies of these components in other labs.
- The stride scheduler that uses the skew heap, processes, system calls, devices in path names, and writing to files by the kernel.
