# Memory management and file-system image of the uCore labs

Dafny models of the parts of the uCore teaching kernel with the most intricate
state, each kept in the form of its C source: arrays, fields and lists that
methods update in place, specified by values whose properties are proved as
lemmas. `dafny verify dfyconfig.toml` checks the whole project.

- **Buddy page allocator** (`BuddyGeometry`, `BuddyTree`, `BuddyRep`, `BuddySteps`,
  `Buddy`). The record array stands for a tree of free, allocated, absent and
  split nodes; entries below an unsplit node are stale and nothing is asked of
  them. The tree is canonical in every reachable state, so it is determined by
  the blocks handed out. Frees must match an allocation in base and rounded
  length.
- **Skew heap** (`SkewTree`, `SkewHeap`). The pointer operations are tied to
  operations on trees, for any comparator that answers -1 exactly on strictly
  less entries of a total preorder.
- **Sv39 page table** (`Sv39`, `PageTable`). Three levels of tables in frames
  that are allocated, freed and reused; the words in memory always spell out a
  finite map from virtual pages to pages and permissions, and the reference
  counts are exact. The format is that of section 4.4 (Sv39) of the RISC-V
  Privileged Architecture.
- **Slab allocator** (`SlabPool`, `SlabLayout`, `Slab`). Free chains inside the
  pages, three lists for each cache, addresses, caches made at run time with
  descriptors from a cache of their own, and the size classes of `kmalloc`.
- **Clock replacement and swapping** (`Clock`, `Swap`). Frames are taken from the
  free ones or by eviction; whatever is evicted and faulted in, every page a
  process has touched keeps its contents.
- **Number printing and parsing** (`Numbers`).
- **SFS image builder** (`SfsBlocks`, `Sfs`).
- `Arith`, `Bits`, `Lists` and `Wrappers` are shared. Multiplication, division
  and shifts are spelled out by recursion in `Arith` and `Bits`, with lemmas that
  say they are the usual operators.

Where code and comments disagree the model follows the code:
`page_insert` does not always return 0 (`lab3/kern/mm/pmm.c:388`);
`strtol` accepts the prefix `0x` but not `0X` (`lab8/libs/string.c:211`, `:234`);
the width of `printnum` is a minimum, not a maximum
(`lab8/libs/printfmt.c:50`).

The code misses what it is for in these places, and the model says exactly when,
with an input for each:
the smearing macros are right up to words with a gap of more than 32 places
(`BuddyGeometry.RemainderExact`, `RoundingFailsAtGap`), and rounding up wraps above
2^63 (`BuddyGeometry.RoundUpBelow`, `RoundUpFailsAtGreatest`);
the record page of the buddy tree is too small for 258 to 511 pages
(`BuddyGeometry.RecordFits`, `RecordFailsAt258`);
flag words above ten bits can change the page an entry leads to
(`Sv39.PageSurvives`, `PageChangesAtFlag10`);
`kmalloc` rounds down to a class where it should round up
(`SlabLayout.ClassHolds`, `ClassFailsAt17`);
printed numbers are not always read back
(`Strtol.RoundTrip`, `RoundTripFailsPastLong`);
image files from 2^44 bytes on are measured modulo 2^32 blocks
(`Sfs.BlocksExact`, `BlocksFailAt44`).

## Model

| member | source | states |
|---|---|---|
| `BuddyGeometry.RemainderExact` | lab2/kern/mm/buddy.c:29-31 | `POWER_REMAINDER(a)` strips exactly the top bit if and only if no two neighbouring set bits of `a` are more than 32 places apart |
| `BuddyGeometry.RoundingCorrect` | lab2/kern/mm/buddy.c:29-33 | below 2^33 the macros give the greatest power of two at most `a` and the least at least `a` |
| `BuddyGeometry.RoundingFailsAtGap` | lab2/kern/mm/buddy.c:29-33 | 2^33 + 1 is a word whose `POWER_ROUND_DOWN` is no power of two |
| `BuddyGeometry.RoundUpBelow` | lab2/kern/mm/buddy.c:32 | with words of 64 bits, a nonzero word rounds up to something below it if and only if it is above 2^63 and `POWER_REMAINDER` sees a lower bit |
| `BuddyGeometry.RoundUpWraps` | lab2/kern/mm/buddy.c:32 | where the remainder is the true one, what such a word rounds up to is 0 |
| `BuddyGeometry.RoundUpFailsAtGreatest` | lab2/kern/mm/buddy.c:32 | 2^64 - 1 rounds up to 0 |
| `BuddyGeometry.NodeGeometry` | lab2/kern/mm/buddy.c:20-25 | the node macros give each node of the heap-numbered tree its level's length and its page range |
| `BuddyGeometry.Children` | lab2/kern/mm/buddy.c:20-21 | the children of a node are the two halves of its range |
| `BuddyGeometry.BlockInvertsRange` | lab2/kern/mm/buddy.c:24-26 | `BUDDY_BLOCK` finds every node again from its beginning and ending, which lie inside the tree |
| `BuddyGeometry.RecordFits` | lab2/kern/mm/buddy.c:50-66 | the record pages hold an entry for every node if and only if not 258 <= n <= 511 |
| `BuddyGeometry.RecordFailsAt258` | lab2/kern/mm/buddy.c:50-66 | 258 pages need more record entries than their record page holds |
| `BuddyGeometry.SizingSmall` | lab2/kern/mm/buddy.c:51-55 | below 512 pages there is one record page, and the tree is the least power of two that holds the other pages |
| `BuddyGeometry.SizingLarge` | lab2/kern/mm/buddy.c:56-65 | from 512 pages on, with 512 q the greatest power of two not above n, the tree has 512 q pages and 2 q record pages up to n = 516 q, and twice as many of both above |
| `BuddyGeometry.SizingBounds` | lab2/kern/mm/buddy.c:50-66 | record pages and real area fit in n, the tree is a power of two less than twice the real area, and at most one record area is left over |
| `BuddyTree.RecBound` | lab2/kern/mm/buddy.c:27 | a record is at most the node length and equals it exactly when the node is wholly free |
| `BuddyTree.RecordBits` | lab2/kern/mm/buddy.c:27 | bit k of a record is set if and only if a free block of length 2^k lies under the node, in every reachable tree |
| `BuddyTree.DescentLeads` | lab2/kern/mm/buddy.c:119-145 | the descent always reaches a wholly free node of the requested length |
| `BuddyTree.TakeEffect` | lab2/kern/mm/buddy.c:112-158 | the run handed out lies in the real area, was free throughout and met no block handed out before; exactly it stops being free and becomes a used block; the free total drops by its length |
| `BuddyTree.ReleaseEffect` | lab2/kern/mm/buddy.c:160-198 | a matching free keeps the tree canonical, frees exactly the pages of the block and takes exactly it off the blocks handed out |
| `BuddyTree.CanonicalUnique` | lab2/kern/mm/buddy.c:73-198 | two canonical trees with the same blocks handed out are equal |
| `BuddyTree.InitCanonical` | lab2/kern/mm/buddy.c:73-109 | the decomposition the initial loop builds is canonical |
| `BuddyTree.InitTotal` | lab2/kern/mm/buddy.c:73-109 | its free blocks add up to the real area |
| `BuddyTree.InitRec` | lab2/kern/mm/buddy.c:78-99 | the record of a node in it is the number of real pages under the node |
| `BuddyTree.FreeBlocksAreMaximal` | lab2/kern/mm/buddy.c:73-198 | in every reachable tree the free blocks are exactly the maximal aligned power-of-two runs of free pages |
| `BuddyTree.Completeness` | lab2/kern/mm/buddy.c:119-147 | a request of 2^k fits the root record if and only if some aligned run of 2^k free pages exists |
| `BuddyTree.ExactFitPreferred` | lab2/kern/mm/buddy.c:137-140 | if some free block has exactly the requested length, one such block is handed out and every other free block stays as it is |
| `BuddyTree.TakeIsLeastFit` | lab2/kern/mm/buddy.c:119-145 | of the free blocks of exactly the requested length the one with the least head is used; if there is none, the one with the least head among the longer ones, from its first page on |
| `BuddyTree.RunCanonical` | lab2/kern/mm/buddy.c:112-198 | every run of allocations and matching frees keeps the tree canonical |
| `BuddyTree.OrderIndependent` | lab2/kern/mm/buddy.c:112-198 | two runs from the initial state that leave the same blocks handed out end in the same tree |
| `BuddyTree.AllFreedIsInitial` | lab2/kern/mm/buddy.c:160-198 | freeing everything restores the initial decomposition |
| `BuddyTree.AllocThenFree` | lab2/kern/mm/buddy.c:112-198 | freeing what was just allocated restores the tree |
| `BuddySteps.EmptyMeansFree` | lab2/kern/mm/buddy.c:185 | both `BUDDY_EMPTY` tests hold exactly when both neighbours are wholly free |
| `BuddySteps.UpStep` | lab2/kern/mm/buddy.c:152-156 | or-ing the two children restores the record of their parent |
| `Buddy.BuddyManager.constructor` | lab2/kern/mm/buddy.c:41-110 | for every n above 1 whose record pages hold all nodes, the state after initialisation is valid and is the initial decomposition of the real area |
| `Buddy.BuddyManager.BuildTree` | lab2/kern/mm/buddy.c:73-109 | the loop that marks the binary digits of the real size builds exactly that decomposition |
| `Buddy.BuddyManager.AllocatePages` | lab2/kern/mm/buddy.c:112-158 | for every request that `POWER_ROUND_UP` does not take below itself: NULL if and only if no aligned run of the rounded length is free, and then nothing changes; otherwise the page returned is, of the free list, the least entry whose property is exactly the rounded length or, without one, the least whose property is greater, and the new state represents the tree with that run handed out |
| `Buddy.BuddyManager.Descend` | lab2/kern/mm/buddy.c:119-145 | the first loop ends at a free node of the requested length, splitting as it goes |
| `Buddy.BuddyManager.DescendStep` | lab2/kern/mm/buddy.c:121-144 | one round keeps its invariant whichever branch it takes; one of them is always taken |
| `Buddy.BuddyManager.SplitNode` | lab2/kern/mm/buddy.c:123-136 | splitting replaces one free block by its halves in records, properties and list |
| `Buddy.BuddyManager.TakeBlock` | lab2/kern/mm/buddy.c:148-151 | the node found leaves the list and counts as used |
| `Buddy.BuddyManager.Climb` | lab2/kern/mm/buddy.c:152-156 | the second loop makes every record on the way up right again |
| `Buddy.BuddyManager.FreePages` | lab2/kern/mm/buddy.c:160-198 | a matching free leaves a valid state that represents the released tree; `nr_free` grows by the rounded length |
| `Buddy.BuddyManager.MergeUp` | lab2/kern/mm/buddy.c:180-197 | the loop merges free neighbours all the way up and leaves records, properties and list right |
| `Buddy.BuddyManager.MergePair` | lab2/kern/mm/buddy.c:187-193 | two free neighbours become one free block in records, properties and list |
| `Buddy.BuddyManager.FreeListIsMaximal` | lab2/kern/mm/buddy.c:73-198 | in every reachable state the free list with the properties of its entries is the list of the maximal aligned free runs, and `nr_free` is the sum of those properties over the list |
| `Lists.DelIsOthers` | lab2/libs/list.h:92-94 | `list_del` takes out one entry and leaves the others in their order |
| `SkewTree.RootIsMinimum` | lab8/libs/skew_heap.h:37 | in an ordered heap no entry is less than the root |
| `SkewTree.MergeElems` | lab8/libs/skew_heap.h:30-59 | a merge has exactly the entries of both heaps |
| `SkewTree.MergeOrdered` | lab8/libs/skew_heap.h:30-59 | a merge of ordered heaps is ordered |
| `SkewTree.MergeExact` | lab8/libs/skew_heap.h:30-59 | the root of the second heap becomes the root exactly when no entry of the first is less; whose root it is, its left subtree becomes the right one and its right subtree is merged on, to the left |
| `SkewTree.InsertExact` | lab8/libs/skew_heap.h:62-67 | a new entry becomes the root, with the whole heap on its left, exactly when no entry is less than it |
| `SkewTree.RemoveElems` | lab8/libs/skew_heap.h:70-85 | removing any entry changes the entries by exactly that one |
| `SkewTree.RemoveOrdered` | lab8/libs/skew_heap.h:70-85 | and keeps the order |
| `SkewTree.RemoveRoot` | lab8/libs/skew_heap.h:70-85 | removing the root merges its two subtrees, at that cost |
| `SkewTree.LgIsLogarithm` | lab8/libs/skew_heap.h:30-59 | the bound used below is the integer logarithm |
| `SkewTree.CostBetween` | lab8/libs/skew_heap.h:30-59 | a merge makes at most one call more than there are entries on the two right edges, and at least one more than on one of them |
| `SkewTree.MergeAmortised` | lab8/libs/skew_heap.h:30-59 | calls of a merge plus the change of the number of right-heavy entries are at most a constant times the logarithm of the sizes |
| `SkewTree.ReplaceAmortised` | lab8/libs/skew_heap.h:70-85 | above a removed entry at most logarithmically many entries become right-heavy |
| `SkewTree.RemoveAmortised` | lab8/libs/skew_heap.h:70-85 | the calls of removing any entry, wherever it sits, plus the change of potential are at most five logarithms and three |
| `SkewTree.RunIsLogarithmic` | lab8/libs/skew_heap.h:30-85 | m insertions and removals of any entries, from the empty heap, cost at most m (5 log2(m + 1) + 3) calls of `skew_heap_merge` |
| `SkewTree.ChangedKeeps` | lab8/libs/skew_heap.h:62-85 | after any run of insertions and removals of any entries the heap holds exactly the entries added and not removed, in order |
| `SkewTree.RunMinimum` | lab8/libs/skew_heap.h:62-85 | after any such run the root is a minimum |
| `SkewHeap.Merge` | lab8/libs/skew_heap.h:30-59 | the pointers spell out the merged tree with consistent parent pointers, after exactly the calls counted |
| `SkewHeap.Insert` | lab8/libs/skew_heap.h:62-67 | insertion in place is the insertion into the tree, after exactly the calls counted |
| `SkewHeap.Remove` | lab8/libs/skew_heap.h:70-85 | removal of any entry, by its parent pointer, gives the tree without it and a root without parent, after exactly the calls counted |
| `Sv39.SameEntry` | lab3/kern/mm/mmu.h:38-42 | two addresses share an entry if and only if bits 12 to 38 agree |
| `Sv39.VpnNumber` | lab3/kern/mm/mmu.h:38-42 | the three indices are bits 30 to 38, 21 to 29 and 12 to 20, as the digits of the page number in base 512 |
| `Sv39.EntryDecodes` | lab3/kern/mm/pmm.h:119-141 | an entry made for a page is valid and leads back to that page, for any ten flag bits |
| `Sv39.EntryWord` | lab3/kern/mm/pmm.h:167-170 | the word of an entry is 1024 times the page number plus the ten flag bits with V set |
| `Sv39.PageSurvives` | lab3/kern/mm/pmm.h:167-170 | for an arbitrary flag word, it does so exactly when the bits above the ten add nothing to the page number |
| `Sv39.PageChangesAtFlag10` | lab3/kern/mm/pmm.h:167-170 | an eleventh flag bit makes an entry for page 0 lead to page 1 |
| `MappingRuns.LastCallDecides` | lab3/kern/mm/pmm.c:313-417 | after any run of insertions and removals, an address is mapped exactly if the last call about it was an insertion, and as that call said |
| `Tables.RemoveLosesNone` | lab3/kern/mm/pmm.c:331-380 | removal moves no frame out of free, table and mapped frames together |
| `Tables.InsertLosesNone` | lab3/kern/mm/pmm.c:392-417 | insertion adds exactly its page to them |
| `PageTable.PageTables.constructor` | lab3/kern/mm/pmm.c:214-217 | a directory that is empty but for the boot entry is a valid state |
| `PageTable.PageTables.WalkIsMapping` | lab3/kern/mm/mmu.h:8-31 | the Sv39 walk over the words in memory, which stops at a leaf in the first two levels, finds exactly the mapping, in words made of the page number, the permissions and V |
| `PageTable.PageTables.TableEntriesPlain` | lab3/kern/mm/pmm.c:283-307 | in every reachable state a word of the directory or of a second-level table is zero or has V and U as its ten low bits, and leads to a table |
| `PageTable.PageTables.LeafNamesPage` | lab3/kern/mm/pmm.c:246-417 | in every reachable state the page number in a leaf reached by the walk names neither a free frame nor a table, and its page counts exactly the entries that map it |
| `PageTable.PageTables.AllocPage` | lab3/kern/mm/pmm.c:53-80 | some free frame, or none if there is none |
| `PageTable.PageTables.GetPte` | lab3/kern/mm/pmm.c:246-310 | the entry is found if and only if the missing tables can be made; nothing is unmapped, new tables take free frames only, and without `create` nothing changes |
| `PageTable.PageTables.GetPage` | lab3/kern/mm/pmm.c:313-325 | exactly the page mapped at the address, or none |
| `PageTable.PageTables.RemovePte` | lab3/kern/mm/pmm.c:331-368 | the entry goes; its page becomes free exactly if it was the last one mapping it |
| `PageTable.PageTables.PageRemove` | lab3/kern/mm/pmm.c:373-380 | the mapping without that address; tables, other pages and their memory stay |
| `PageTable.PageTables.PageInsert` | lab3/kern/mm/pmm.c:392-417 | for every flag word that leaves the page number alone: success exactly when enough frames are free for the missing tables; then the mapping with that address set to the page and the ten low flag bits, counts exact and a replaced page freed exactly at its last mapping; on failure the mapping and all counts stay |
| `PageTable.PageTables.Claim` | lab3/kern/mm/pmm.c:400-413 | re-inserting the same page leaves its count, any other page mapped there loses one |
| `SlabPool.AllocatedKeeps` | lab2/kern/mm/slub.c:309-330 | an allocation keeps the pool right and hands out an object that was not out |
| `SlabPool.MovesInFront` | lab2/kern/mm/slub.c:324-329 | a slab filed by its count of objects is the first of that list, and the three lists are otherwise what they were, in their order |
| `SlabPool.FreedKeeps` | lab2/kern/mm/slub.c:346-366 | a free keeps the pool right and takes back exactly its object |
| `SlabPool.GrownKeeps` | lab2/kern/mm/slub.c:38-66 | a new slab keeps the pool right and hands out nothing |
| `SlabPool.DestroyedKeeps` | lab2/kern/mm/slub.c:70-85 | giving a free slab back keeps the pool right; no object of it was out |
| `SlabLayout.Inside` | lab2/kern/mm/slub.c:235 | index table and objects fit in the page, the objects after the table |
| `SlabLayout.AddressIs` | lab2/kern/mm/slub.c:315-320 | object i lies i times its size behind the index table of two bytes for each object |
| `SlabLayout.Disjoint` | lab2/kern/mm/slub.c:318-320 | distinct objects do not overlap |
| `SlabLayout.Recovered` | lab2/kern/mm/slub.c:349-355 | rounding down and dividing recover page and index from any object's address |
| `SlabLayout.NumBound` | lab2/kern/mm/slub.c:52-55 | indices fit the 16-bit table entries |
| `SlabLayout.NumIsMost` | lab2/kern/mm/slub.c:235 | a slab has as many objects as fit in a page with two bytes of index table each |
| `SlabLayout.RoundedIsLeast` | lab2/kern/mm/slub.c:92-94 | the rounded size is the least even number that is at least the size and at least 16 |
| `SlabLayout.SizedIndex` | lab2/kern/mm/slub.c:88-100 | the loop counts the halvings down to zero |
| `SlabLayout.ClassBelow` | lab2/kern/mm/slub.c:88-100 | the class chosen for a size is the largest power of two, from 16 on, that is not above the rounded size |
| `SlabLayout.ClassHolds` | lab2/kern/mm/slub.c:410-415 | an object of that class holds the size asked for if and only if the rounded size is a power of two |
| `SlabLayout.ClassFailsAt17` | lab2/kern/mm/slub.c:410-415 | 17 bytes are served from the class of 16 |
| `Slab.SlabAllocator.ChainExact` | lab2/kern/mm/slub.c:37-66 | in every reachable state the chain of each slab visits num - inuse distinct indices, those of the objects not handed out, and the slab is in the one list its count calls for |
| `Slab.SlabAllocator.constructor` | lab2/kern/mm/slub.c:430-447 | the cache of descriptors, alone and without slabs, is a valid state |
| `Slab.SlabAllocator.Create` | lab2/kern/mm/slub.c:222-247 | a size that fits a page gets a new cache, empty and in front of the chain, whose descriptor is an object not handed out before; a larger one ends in the assertion |
| `Slab.SlabAllocator.MakeSizedCaches` | lab2/kern/mm/slub.c:449-451 | eight caches for 16 to 2048 bytes, in order, and one page is enough for their descriptors |
| `Slab.SlabAllocator.Kmalloc` | lab2/kern/mm/slub.c:410-415 | a new object of the class for the size, and exactly when it is large enough |
| `Slab.SlabAllocator.Grow` | lab2/kern/mm/slub.c:38-66 | one available page becomes a free slab at the front of the cache's free list, its chain in index order |
| `Slab.SlabAllocator.NewTable` | lab2/kern/mm/slub.c:52-55 | the loop threads the whole table |
| `Slab.SlabAllocator.Alloc` | lab2/kern/mm/slub.c:291-331 | an object that was not handed out, at its address: the first of its chain, from the first partial slab, before the first free one, before a new page; its slab becomes the first of the list for its count |
| `Slab.SlabAllocator.Free` | lab2/kern/mm/slub.c:346-366 | exactly the object is taken back, page and index come from its address, it becomes the first of its chain and its slab the first of the list for its count |
| `Slab.SlabAllocator.Kfree` | lab2/kern/mm/slub.c:418-424 | the same, with the cache found through the page |
| `Slab.SlabAllocator.FreeThenAlloc` | lab2/kern/mm/slub.c:291-366 | an allocation straight after a free returns the address just freed, if and only if the slab stays in use or no other slab is partial |
| `Slab.SlabAllocator.Shrink` | lab2/kern/mm/slub.c:383-395 | the count returned is the number of pages given back, which are exactly the free slabs; nothing else moves |
| `Slab.SlabAllocator.Reap` | lab2/kern/mm/slub.c:400-407 | every cache there is loses exactly its free slabs, and the count is the number of pages given back |
| `Slab.SlabAllocator.LiveDisjoint` | lab2/kern/mm/slub.c:291-366 | in every reachable state no two objects handed out overlap |
| `Clock.InOrderVictim` | lab3/kern/mm/swap_clock.c:74-112 | in such a state the victim is the first page, found at once or after one full turn, and the state stays such |
| `Clock.ClockManager.InitMm` | lab3/kern/mm/swap_clock.c:34-45 | an empty list with the hand at its head |
| `Clock.ClockManager.MapSwappable` | lab3/kern/mm/swap_clock.c:50-68 | the page joins at the end, marked seen |
| `Clock.ClockManager.Search` | lab3/kern/mm/swap_clock.c:82-110 | from any state and hand the search passes only seen pages, clears exactly those, and stops within one turn and one entry |
| `Clock.ClockManager.SwapOutVictim` | lab3/kern/mm/swap_clock.c:74-112 | the victim is the first unseen page from the hand, or the page at the hand if all were seen; over every run of the manager it is the earliest page still queued |
| `Swap.EntryDecodesToOffset` | lab3/kern/mm/swap.h:25-31 | the entry of virtual page v is 256 (v + 1), which decodes to its own offset, is never valid, and never offset 0 |
| `Swap.Sectors` | lab3/kern/driver/ide.c:13-35 | the page at an offset starts at 4096 times it; the disk holds offsets 1 to 6, in sector ranges that do not overlap |
| `Swap.SwapSpace.EvictedEntry` | lab3/kern/mm/swap.c:115-118 | in every reachable state the entry of a page swapped out is not valid and leads to its own bytes |
| `Swap.SwapSpace.SwapfsWrite` | lab3/kern/fs/swapfs.c:26-29 | the page is on the disk at its offset, or the kernel stops because the offset is out of range |
| `Swap.SwapSpace.SwapfsRead` | lab3/kern/fs/swapfs.c:21-24 | what is on the disk at the entry's offset is read |
| `Swap.SwapSpace.SwapOut` | lab3/kern/mm/swap.c:83-125 | the page's bytes are saved, its entry is the invalid swap entry, its frame is free |
| `Swap.SwapSpace.SwapOutPages` | lab3/kern/mm/swap.c:80-127 | n rounds under the clock put the n pages queued first on the disk, in queue order, or the kernel stops at the first whose offset the disk does not have |
| `Swap.SwapSpace.AllocPage` | lab3/kern/mm/pmm.c:53-79 | a free frame if there is one, else the frame of the page queued first, which goes to the disk; no page loses its contents and the manager stays first in, first out |
| `Swap.SwapSpace.SwapIn` | lab3/kern/mm/swap.c:130-148 | with or without a free frame, the frame taken holds exactly the bytes last swapped out from that address, and no page loses its contents |
| `Swap.SwapSpace.Install` | lab3/kern/mm/vmm.c:485-491 | the entry is valid and leads to the frame, the page is queued last, and no page loses its contents |
| `Swap.SwapSpace.DoPgfault` | lab3/kern/mm/vmm.c:449-504 | a fault on a page not mapped maps it, evicting the page queued first if memory is full; every page touched before, the faulting one included, holds what it held, and queue, disk and mapping stay consistent |
| `Digits.NumeralValue` | lab8/libs/printfmt.c:53-69 | the digits printed denote the number |
| `Digits.NumeralUnique` | lab8/libs/printfmt.c:53-69 | no other lower-case digits without a leading zero denote the number |
| `Digits.PlaceValue` | lab8/libs/string.c:245-265 | a digit counts by its place, as a power of the base |
| `Digits.PaddedShape` | lab8/libs/printfmt.c:60-68 | the pad characters come first and the numeral last |
| `Digits.LetterValue` | lab8/libs/string.c:248-256 | letters of either case count 10 to 35 |
| `Digits.Numeral255` | lab8/libs/printfmt.c:68 | 255 is ff, 377 and 255 in base 16, 8 and 10 |
| `Digits.ZerosValue` | lab8/libs/printfmt.c:62-66 | leading zeros do not change the value |
| `Printf.PrintBuffer.Putch` | lab8/libs/printfmt.c:309-315 | every character is counted, those that fit are stored in order |
| `Printf.PrintBuffer.PrintNum` | lab8/libs/printfmt.c:53-69 | exactly the numeral with its padding is emitted, max(width, digits) characters |
| `Printf.PrintBuffer.PrintSigned` | lab8/libs/printfmt.c:244-252 | sign and magnitude of every long, the smallest included, are emitted |
| `Printf.PrintBuffer.PrintConversion` | lab8/libs/printfmt.c:244-280 | x, o and u emit the padded digits, in base 16, 8 and 10, of the low 32 bits of the argument without the l flag and of its 64 bits with it; d emits, in base 10, the signed number those bits denote |
| `Printf.DenotesOne` | lab8/libs/printfmt.c:93-103 | the bits of an argument denote one signed number |
| `Printf.PrintBuffer.Finish` | lab8/libs/printfmt.c:348-359 | the buffer holds the longest prefix that fits and a null character; the length returned is the full one |
| `Strtol.Strtol` | lab8/libs/string.c:216-271 | the value of the longest run of digits after blanks, sign and prefix, modulo 2^64 as a long, and so exact if and only if it fits one |
| `Strtol.ReadDigits` | lab8/libs/string.c:245-265 | the digit loop yields the value modulo 2^64 |
| `Strtol.ReadsInput` | lab8/libs/string.c:216-271 | for every input: spaces and tabs, at most one sign, a prefix the base allows, digits and anything after them are read as those digits in the base the prefix makes, and the end is behind them |
| `Strtol.RoundTrip` | lab8/libs/printfmt.c:53-69 | `strtol` of what was printed returns the number, for every base from 2 to 16, number, width and pad character, if and only if the number fits a long and there is no padding, or it is zeros, or it is blanks before an unsigned number, or the number is zero |
| `Strtol.RoundTripFailsPastLong` | lab8/libs/string.c:263-270 | 2^63, printed, is read back as -2^63 |
| `Strtol.RoundTripDashes` | lab8/libs/printfmt.c:159-161 | what `strtol` returns for a number padded with dashes |
| `Strtol.PrintThenParse` | lab8/libs/printfmt.c:244-280 | a conversion printed into a buffer that holds it and parsed again from that buffer gives the argument back under exactly that condition |
| `SfsBlocks.ResolveAppended` | lab8/tools/mksfs.c:398-426 | the i-th block appended is found at index i through direct, indirect and doubly indirect entries |
| `Sfs.CreateSfs` | lab8/tools/mksfs.c:224-254 | files below 16384 bytes make no image; up to 2^31 bytes an image of the whole blocks of the file, from there to 2^44 bytes one of 524288 blocks |
| `Sfs.BlocksExact` | lab8/tools/mksfs.c:225-231 | the file is used up to the largest image if and only if it is below 2^44 bytes or the low 32 bits of its block count are large anyway |
| `Sfs.BlocksFailAt44` | lab8/tools/mksfs.c:225-231 | of a file of 2^44 bytes no block is used |
| `Sfs.Builder.constructor` | lab8/tools/mksfs.c:236-253 | numbers start after the free map, and the root inode is block 1 |
| `Sfs.Builder.AllocIno` | lab8/tools/mksfs.c:173-180 | the next number, owned by nothing yet, or the end of the program when none is left |
| `Sfs.Builder.AllocInode` | lab8/tools/mksfs.c:202-213 | the number belongs to a new, empty inode |
| `Sfs.Builder.UpdateCache` | lab8/tools/mksfs.c:383-395 | a missing index block is made and zeroed; the search for a cached block is never reached |
| `Sfs.Builder.AppendBlock` | lab8/tools/mksfs.c:398-426 | the block becomes the next one of its file and of no other; missing index blocks take the next numbers, the doubly indirect one before its table; it fails exactly when the file has 32768 blocks or no number is left for the index blocks it needs; no other inode changes |
| `Sfs.Builder.AddBlock` | lab8/tools/mksfs.c:521-526 | the same with a new number |
| `Sfs.Builder.Found` | lab8/tools/mksfs.c:398-426 | in every reachable state every file resolves index i to its i-th block |
| `Sfs.Builder.OneOwner` | lab8/tools/mksfs.c:173-180 | every number given out is one inode, one data block or one index block and nothing else |
| `Sfs.Builder.FreeMap` | lab8/tools/mksfs.c:312-334 | bit b is set if and only if next_ino <= b < ninos, as many as unused_blocks, 32768 bits a block, in blocks 2 up to the first number given out |
| `Sfs.MarkRange` | lab8/tools/mksfs.c:320-331 | the inner loop sets exactly the bits from start to end |

## Left out

- Buddy.BuddyManager.constructor: only for 2 <= n < 2^32 pages outside 258..511, where the record pages hold every node (`RecordFits`); a single page gives a tree of no pages, from which every request fails.
- Buddy.BuddyManager.FreePages: frees that match no allocation are outside the allocator's contract; page flags, `PG_property` and page reference counts are not modelled, the code does not keep `PG_property` consistent.
- Buddy.BuddyManager.AllocatePages: requests above 2^63 that `POWER_ROUND_UP` takes below themselves are excluded (`RoundUpBelow` says which); the descent then runs past the record pages. The order of the free list is kept as in the code but no result speaks of it; no operation reads it.
- PageTable.PageTables.PageInsert: flag words that change the page number are excluded (`PageSurvives` says which), where a flag word is the sign-extended argument of `pte_create`; so are addresses under entry 511 of the directory, the boot giant page; the page must be neither free nor a table.
- PageTable.PageTables.WalkIsMapping: a last-level word is found if V is set; which accesses its other bits allow is up to the caller's permissions.
- PageTable.PageTables.AllocPage: swapping is off, so an empty free set gives no page; the word arithmetic of addresses does not wrap at 64 bits.
- Slab.SlabAllocator.Alloc: needs a page when the cache has no slab to use, because the code dereferences the missing page; constructors and destructors of objects are not modelled.
- Slab.SlabAllocator.Create: sizes from 1 on, because freeing an object of size 0 divides by it; `kmem_cache_destroy`, which leaves the cache on the chain, is not modelled.
- Clock.ClockManager.SwapOutVictim: needs a page in the queue, because the code reads the list head as a page when there is none.
- Swap.SwapSpace.DoPgfault: the manager is the clock, each page is mapped once, and the last-level words of one address space are one array, whose tables exist; the LRU manager chosen at start-up and the checks of the memory areas are not modelled. A fault needs a free frame or a queued page, for the same reason.
- Printf.PrintBuffer.PrintConversion: the scan of the format string, strings and error names are not modelled.
- Strtol.Strtol: characters are those of a string ending in a null character; values that do not fit wrap around, which C leaves undefined.
- Sfs.Builder.UpdateCache: a cached block is named by its block number, and the hash lists of cached blocks are not modelled, since they are only searched in the branch shown unreachable.
- Sfs.Builder.AllocInode: directory walking, entries, link counts, inode types and the lookup of hard links are not modelled.
- First-fit and best-fit page allocators: their list handling is broken as written, and the buddy allocator is the harder one.
- Interrupts, TLB, boot mapping, trap dispatch, drivers, scheduler, shell and user programs: effects outside these data structures.
