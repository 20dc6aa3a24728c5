# A verified model of the KAIST Pintos kernel's cores

This project models the self-contained cores of the kernel in Dafny and proves what they are for. One module
follows each core:

| module (file) | models |
|---|---|
| Mmu, AddressSpaces, Fork (`mmu.dfy`, `address_space.dfy`, `fork.dfy`) | four-level page tables, their destruction, fork's copy |
| Malloc (`malloc.dfy`) | size-class arenas over the page pool |
| Bits, Bitmaps, Palloc (`bits.dfy`, `bitmap.dfy`, `palloc.dfy`) | packed bitmaps and the page pool under concurrent use |
| Orderings, Lists (`list.dfy`) | the doubly linked list with its in-place natural merge sort |
| HashTables (`hash.dfy`) | the rehashing chained table |
| Inodes, Directories, FileSystems (`inode.dfy`, `directory.dfy`, `filesys.dfy`) | file bytes, directories, sector ownership |
| Scheduler, Alarm, Donation (`scheduler.dfy`, `alarm.dfy`, `donation.dfy`) | threads, semaphores, locks, the alarm clock, priority donation |
| Arithmetic, Sorting (`arithmetic.dfy`, `sorting.dfy`) | 64-bit division from a 64/32-bit divide, heapsort and binary search |
| Printf, Argv (`printf.dfy`, `argv.dfy`) | printf's integers and atoi, command-line splitting and the argument stack |
| Wrappers (`wrappers.dfy`) | the option type that all share |

`dafny verify dfyconfig.toml` verifies the whole project.

How to read it: code that works step by step is a method with loops, or a class whose methods change its fields;
its contract equates the result with a specification function, or states the property outright; lemmas beside it
prove what the source promises about that function.

Assumptions, made throughout:

- Memory allocation (pages, `malloc`, bounce buffers) and writes of the free map may fail at any time,
  nondeterministically. A calm call (parameter `calm`) is one in which pages are refused only for want of free ones,
  and nothing else fails.
- A file-system call, a `malloc` or `free` call, the donation block of `lock_acquire` and the body of
  `lock_release` are one atomic step each. The kernel runs the last two with interrupts on.
- Page-table walks, duplicate_pte, fork's copy and pml4_destroy run without interference, although the kernel runs
  them with interrupts on: "memory and pool as before" holds up to what other threads took and freed meanwhile.
- A step of the scheduler is a stretch with interrupts off. Pages, threads, semaphores, locks and sectors are
  named by numbers, and a page's kernel address is not modelled.
- Proofs about a whole kernel start where its start-up code ends: page pools set up, thread_start done, the kernel's
  base page table with an empty entry 0.

Where the code does not do what it is for, or what its comments promise, the model follows the code, a lemma gives an
input, and the exact condition is proved: `malloc` of sizes near 2^64 (Malloc.BigFitsIff), INT64_MIN / -1 and the
32-bit remainders (Arithmetic.SDiv64, UMod64ExactIff, SMod64ExactIff), padding printed twice (Printf.LengthIff,
ParsedFlags), commas counted as digits (Printf.PrecisionIff), the donation walk that stops at eight holders
(Donation.DonateKeeps), waiters that a lock's next holder does not list (Donation.TakeLists), arguments that do not
fit the stack page (Argv.LoadArguments), clearing a flag of a page above 4 GB (Mmu.Machine.Pml4SetFlag), negative file
offsets (Inodes.Inode.WriteAt), sectors that leak when the name of a new file is refused
(FileSystems.FileSystem.Create), and a short read that `dir_add` takes for the end of the directory
(Directories.AddRefinesIff; the comment at pintos/filesys/directory.c:152-154 says that this cannot happen).

## Model

| member | source | states |
|---|---|---|
| Mmu.BuildSplits | pintos/include/threads/pte.h:21-30 | An address built from three indices splits into the same indices, with page offset 0. |
| Mmu.SplitBuilds | pintos/include/threads/pte.h:21-30 | Every user address is its indices rebuilt, plus its page offset: nothing else is lost. |
| Mmu.LinkGrows | pintos/threads/mmu.c:19-20 | Linking a zeroed page in as a missing table keeps the tree well formed, open to users at every level, and changes no mapping. |
| Mmu.WriteLeaf | pintos/threads/mmu.c:260-263 | Overwriting one page-table entry changes that virtual page and no other, and keeps the tree. |
| Mmu.Touched | pintos/include/threads/pte.h:48-68 | The accessed and dirty bits that the CPU sets in the entries it goes through, at any level, keep the tree, every mapping and all user access. |
| Mmu.UserAccessIs | pintos/include/threads/pte.h:21-60 | The CPU's walk, which picks four entries by nine address bits each and asks for P and U (and W) in all four, ends at the leaf entry of the tree. |
| Mmu.LeafAccess | pintos/threads/mmu.c:260-263 | One changed leaf entry changes user code's access to its page and to no other. |
| Mmu.HighFrameLost | pintos/threads/mmu.c:301-313 | Clearing the dirty or the accessed bit of a page mapped to the frame at 4 GB maps it to frame 0: the mask ~(uint32_t) PTE_D is 0 in bits 32 to 63. |
| Mmu.RollBack | pintos/threads/mmu.c:53-56 | Freeing the page just linked in and clearing the entry restores memory exactly. |
| Mmu.Machine.LinkTable | pintos/threads/mmu.c:18-24 | Adds one missing table, or changes nothing when no page is to be had. |
| Mmu.Machine.UnlinkTable | pintos/threads/mmu.c:53-56 | Takes the table just added out again: memory and pool are exactly as before. |
| Mmu.Machine.PgdirWalk | pintos/threads/mmu.c:11-29 | Finds the page-table entry of an address or, when asked to create, adds the missing page table; it fails iff no page is to be had for a table that is missing (in a calm call: iff fewer pages are free than tables are missing), and then memory and pool are as before. |
| Mmu.Machine.PdpeWalk | pintos/threads/mmu.c:31-58 | The same one level up, freeing the directory it added when the level below fails. |
| Mmu.Machine.Pml4eWalk | pintos/threads/mmu.c:65-94 | The same from the root: a walk that fails for lack of memory leaves tree and page pool exactly as before; one that succeeds changes no mapping. |
| Mmu.Machine.Pml4SetPage | pintos/threads/mmu.c:250-265 | On success user code reads exactly the given frame at that page, writes it iff rw, and has the same access as before everywhere else; no page but tables changes, nor the kernel's part of the root. It fails iff no page is to be had for a missing table, and then changes nothing. |
| Mmu.Machine.Pml4GetPage | pintos/threads/mmu.c:230-238 | Returns frame and offset of the page the tree maps, or None iff it is not mapped; changes nothing. |
| Mmu.Machine.Pml4ClearPage | pintos/threads/mmu.c:270-283 | Clears the present bit of exactly that page and keeps the rest of the entry and of the tree: user code loses access to it and to nothing else. |
| Mmu.Machine.Pml4SetFlag | pintos/threads/mmu.c:300-341 | pml4_set_dirty and pml4_set_accessed set or clear that flag of that page's entry and change no other entry; all mappings stay iff the page is not mapped, the flag is set, or the frame lies below 4 GB. |
| Mmu.Machine.Pml4IsFlag | pintos/threads/mmu.c:290-323 | Tells the flag of the page's entry, false without one; changes nothing. |
| AddressSpaces.FootprintIs | pintos/threads/mmu.c:199-210 | What destroy walks over is exactly the tables and the mapped frames. |
| AddressSpaces.DirFresh | pintos/threads/mmu.c:176-184 | A page table is not freed before its turn, nor are its pages those of another table. |
| AddressSpaces.PdptFresh | pintos/threads/mmu.c:186-194 | The same for a page directory. |
| AddressSpaces.PtDestroy | pintos/threads/mmu.c:166-174 | Frees exactly the frames of one page table and the table, each once. |
| AddressSpaces.PgdirDestroy | pintos/threads/mmu.c:176-184 | Frees exactly what lies below one directory and the directory, each page once. |
| AddressSpaces.PdpeDestroy | pintos/threads/mmu.c:186-194 | Frees exactly what lies below the pointer table and that table, each page once. |
| AddressSpaces.Pml4Destroy | pintos/threads/mmu.c:199-210 | Destroying an address space gives back exactly its tables and frames, each freed once (the allocator asserts that a freed page is allocated). |
| AddressSpaces.SetThenGet | pintos/threads/mmu.c:230-265 | After a page has been mapped, looking up an address in it finds the frame and offset; every other address, or any address after a failure, is found as before; a calm call fails iff fewer pages are free than tables are missing. |
| Fork.VisitsEachPageOnce | pintos/threads/mmu.c:109-164 | pml4_for_each visits each present page exactly once, in ascending order, with its address rebuilt exactly. |
| Fork.MarkedParent | pintos/userprog/process.c:336-347 | A process that has run, so that the CPU has marked its entries, may still fork and be destroyed. |
| Fork.CopiedAccess | pintos/userprog/process.c:336-347 | Where user code gets at a page of the parent it gets at an equal page of the child, with the same permission; and it gets at no page that the parent has not mapped. |
| Fork.MappedOwned | pintos/userprog/process.c:251-252 | Mapping a fresh copied frame keeps all frames of the child distinct from each other and from tables. |
| Fork.MappedAccounts | pintos/userprog/process.c:251-252 | After mapping, the child owns exactly what has been taken from the pool, and all older memory is unchanged. |
| Fork.DuplicatePte | pintos/userprog/process.c:229-258 | Copies one page (bytes, permission, fresh frame, open to users) into the child; it fails iff a page is refused, in a calm call only with fewer than four free, and then memory and pool are as before the call. |
| Fork.MapCopy | pintos/userprog/process.c:250-255 | Maps the copy or frees it again; failure restores memory and pool. |
| Fork.PtForEach | pintos/threads/mmu.c:109-124 | Copies the pages of one table in order, stopping at the first failure with a well-formed child. |
| Fork.PgdirForEach | pintos/threads/mmu.c:126-137 | Copies the pages below one directory in order. |
| Fork.PdpForEach | pintos/threads/mmu.c:139-150 | Copies all user pages in order. |
| Fork.Pml4ForEach | pintos/threads/mmu.c:155-164 | From the root: success means that the child has copies of exactly the parent's user pages. |
| Fork.Pml4Create | pintos/threads/mmu.c:101-107 | A new address space maps no user page, owns one page and shares the kernel's tables. |
| Fork.ForkCopy | pintos/userprog/process.c:336-347 | A successful copy gives the child exactly the parent's user pages, for user code to see, with equal bytes and permission in frames that were not the parent's, and the kernel's tables; it fails iff a page is refused (calm: only with fewer than four free) and leaves a well-formed partial child. |
| Fork.ForkThenExit | pintos/userprog/process.c:603-629 | A fork, successful or not, followed by the destruction of the child leaves memory and page pool exactly as before pml4_create. |
| Malloc.Layout | pintos/threads/malloc.c:346-354 | The blocks of an arena lie behind the header, one after the other, inside the page, and differ. |
| Malloc.BlockAligned | pintos/threads/malloc.c:335-337 | Every block meets the alignment assertion of block_to_arena. |
| Malloc.LiveDisjoint | pintos/threads/malloc.c:126-201 | Two blocks in use never overlap, nor does one reach a header or another arena's page. |
| Malloc.AllFreed | pintos/threads/malloc.c:270-319 | Once nothing is in use no arena is left, every page is back in the pool and every free list is empty. |
| Malloc.FreeInFull | pintos/threads/malloc.c:294-298 | free_cnt is the number of blocks only if no block of the arena is in use. |
| Malloc.TakeBlock | pintos/threads/malloc.c:192-199 | Popping a free list keeps lists equal to the free blocks and counters equal to their number, and no arena is entirely free. |
| Malloc.NewArena | pintos/threads/malloc.c:169-190 | Cutting a fresh page into blocks gives exactly its blocks to the empty list. |
| Malloc.PutBlock | pintos/threads/malloc.c:287-294 | Freeing a block adds exactly it to its list and one to its arena's counter. |
| Malloc.DropArena | pintos/threads/malloc.c:294-303 | Unlinking all blocks of an entirely free arena leaves all lists and counters exact; all of them were on the list. |
| Malloc.BigFitsIff | pintos/threads/malloc.c:147 | The pages of a big block hold the request iff size <= 2^64 - 4120, and are no more than it takes; beyond that the 64-bit sum wraps around, and the page count is 0 for sizes from 2^64 - 4119 to 2^64 - 24. |
| Malloc.NoPages | pintos/threads/malloc.c:147 | A request for 2^64 - 24 bytes gets no pages. |
| Malloc.BigBlock | pintos/threads/malloc.c:142-160 | With a page or more a big block keeps the allocator well formed and is new; with none the allocator is not well formed any more. |
| Malloc.Heap.constructor | pintos/threads/malloc.c:108-121 | Seven size classes, each twice the one before, 16 to 1024 bytes, with as many blocks per arena as fit, and empty lists. |
| Malloc.Heap.Malloc | pintos/threads/malloc.c:126-201 | A block of the smallest class that fits, or a big block; new, with room for the request iff the size does not wrap; None iff nothing is asked for or pages are refused, which they are never with a free block of that class; in a calm call they are iff there is no free page or no run for the big block; the allocator stays well formed iff the page count is not 0; failure changes nothing. |
| Malloc.Heap.MallocBig | pintos/threads/malloc.c:142-160 | A big block is an arena of its own, no longer than it takes, with the exact condition under which it is large enough; None iff pages are refused, in a calm call iff there is no run of so many. |
| Malloc.Heap.MallocSmall | pintos/threads/malloc.c:162-201 | A block of the given class that was not in use, the first of the free list if that is not empty: then it cannot fail; no other block loses room. |
| Malloc.Heap.FindClass | pintos/threads/malloc.c:136-141 | The smallest class that satisfies a request; none iff the request is over 1024 bytes. |
| Malloc.Heap.Free | pintos/threads/malloc.c:270-319 | Exactly the freed block is no longer in use; all others keep their room; all invariants stay. |
| Malloc.Heap.FreeSmall | pintos/threads/malloc.c:277-309 | The page goes back to the pool exactly when the last block of the arena is freed; otherwise the block goes to the front of its list. |
| Malloc.Heap.Run | pintos/threads/malloc.c:126-319 | Over every run of malloc and free none of whose requests has a page count of 0, the allocator stays well formed; the blocks in use differ, do not overlap and have room for their requests (iff those are at most 2^64 - 4120); when all have been freed, every page is back in the pool. |
| Malloc.Heap.FreeBig | pintos/threads/malloc.c:310-316 | All pages of a big block go back to the pool. |
| Bits.MaskIsRemainder | pintos/lib/kernel/hash.c:280-284 | For a bucket count that is a power of two, masking equals taking the remainder. |
| Bits.TurnOffMeaning | pintos/lib/kernel/hash.c:300-310 | x & (x - 1) is 0 exactly for powers of two; otherwise it is smaller, not 0, and has the same highest bit. |
| Bits.MaskTests | pintos/lib/kernel/bitmap.c:181-185 | Testing a word against the mask of bit k looks at bit k. |
| Bitmaps.WordBits | pintos/lib/kernel/bitmap.c:143-163 | Or-ing a mask sets that bit of the word and no other; and-ing its complement clears it and no other. |
| Bitmaps.SetWord | pintos/lib/kernel/bitmap.c:34-44 | Changing one bit of one word changes exactly that bit of the packed map. |
| Bitmaps.LowestFit | pintos/lib/kernel/bitmap.c:270-284 | The first group of cnt bits equal to value at or after start, or none iff there is none. |
| Bitmaps.Bitmap.constructor | pintos/lib/kernel/bitmap.c:73-86 | A new bitmap has all bits clear. |
| Bitmaps.Bitmap.Mark | pintos/lib/kernel/bitmap.c:143-151 | Sets exactly bit idx. |
| Bitmaps.Bitmap.Reset | pintos/lib/kernel/bitmap.c:155-163 | Clears exactly bit idx. |
| Bitmaps.Bitmap.Test | pintos/lib/kernel/bitmap.c:181-185 | Reads bit idx. |
| Bitmaps.Bitmap.SetMultiple | pintos/lib/kernel/bitmap.c:199-208 | Sets exactly the cnt bits from start. |
| Bitmaps.Bitmap.Contains | pintos/lib/kernel/bitmap.c:230-241 | True iff some bit of the range has the value. |
| Bitmaps.Bitmap.Scan | pintos/lib/kernel/bitmap.c:270-284 | The lowest fitting range, or the error value iff none exists. |
| Bitmaps.Bitmap.ScanAndFlip | pintos/lib/kernel/bitmap.c:292-298 | Flips exactly the lowest fitting range, or nothing. |
| Palloc.Pool.LiveRanges | pintos/threads/palloc.c:290-312 | Ranges handed out are pairwise disjoint and their bits are set. |
| Palloc.GetterMoves | pintos/lib/kernel/bitmap.c:270-284 | Whatever the lock holder goes on to look at, the invariant stays, if the bits it relies on are clear. |
| Palloc.Marked | pintos/lib/kernel/bitmap.c:199-208 | A page that is marked was nobody's and becomes the lock holder's. |
| Palloc.Cleared | pintos/threads/palloc.c:352 | A page whose bit is cleared without the lock was the freeing thread's own. |
| Palloc.HandedOut | pintos/threads/palloc.c:295-312 | All pages of the marked range change hands to a new caller. |
| Palloc.GivenBack | pintos/threads/palloc.c:343-353 | All pages of a range change hands to the thread that frees them. |
| Palloc.Pool.GetStart | pintos/threads/palloc.c:294 | A request for more pages than there are fails at once. |
| Palloc.Pool.TestStep | pintos/lib/kernel/bitmap.c:230-241 | Looking at one bit under the lock keeps the invariant, although others clear bits meanwhile; a clear bit leads to the next one, a set one to the next group. |
| Palloc.Pool.MarkStep | pintos/lib/kernel/bitmap.c:199-208 | The bit about to be marked is clear, and nobody else's. |
| Palloc.Pool.GetDone | pintos/threads/palloc.c:295-312 | The marked range becomes the caller's, apart from all others. |
| Palloc.Pool.GetAlone | pintos/threads/palloc.c:290-312 | While nobody else frees, palloc_get_multiple takes the lowest group of free pages, and fails iff there is none. |
| Palloc.Pool.CheckStep | pintos/threads/palloc.c:351 | Without the lock, every bit the assertion looks at is set. |
| Palloc.Pool.ClearStep | pintos/threads/palloc.c:352 | Without the lock, clearing one bit of a range being freed touches nobody else's bit. |
| Palloc.Pool.Run | pintos/threads/palloc.c:290-353 | In every interleaving of any number of threads the invariant holds: bits are set exactly for pages that somebody owns, and no two own the same. |
| Orderings.StableSortUnique | pintos/lib/kernel/list.c:375-383 | Two stable sorts of the same distinct elements are equal. |
| Orderings.InsertOrderedSorted | pintos/lib/kernel/list.c:415-431 | Ordered insertion into a sorted list keeps it sorted. |
| Orderings.InsertOrderedStable | pintos/lib/kernel/list.c:415-431 | The newcomer goes behind its equals. |
| Orderings.SortedByStable | pintos/lib/kernel/list.c:375-383 | The specification of list_sort, insertion of one element after the other, is sorted, stable and a permutation. |
| Orderings.StableSortIs | pintos/lib/kernel/list.c:375-383 | Whatever sorts distinct elements stably makes the list of the specification. |
| Orderings.SortedByIs | pintos/lib/kernel/list.c:380-413 | The list that sema_up and refresh_priority get from list_sort: a stable sort, with the same elements, each once. |
| Lists.MergedIsSorted | pintos/lib/kernel/list.c:353-372 | Merging two neighbouring runs gives a sorted, stable rearrangement of the two, and leaves the rest of the list alone. |
| Lists.PassHalvesRuns | pintos/lib/kernel/list.c:391-409 | A pass turns r natural runs into at most ceil(r / 2), stably, with the same elements; the run count that ends the loop is right. |
| Lists.PassProgress | pintos/lib/kernel/list.c:391-409 | While more than one run is left every pass has fewer runs: the loop terminates. |
| Lists.OneRunLeft | pintos/lib/kernel/list.c:410 | When a pass yields at most one run the list is sorted, a stable permutation of the original. |
| Lists.List.constructor | pintos/lib/kernel/list.c:58-65 | A new list is well formed and empty. |
| Lists.List.Insert | pintos/lib/kernel/list.c:157-165 | Links one node in before another; links stay well formed. |
| Lists.List.Remove | pintos/lib/kernel/list.c:241-246 | Unlinks one node and returns its successor. |
| Lists.List.Splice | pintos/lib/kernel/list.c:171-190 | Moves a stretch of nodes in front of another node; links stay well formed. |
| Lists.List.SpliceFrom | pintos/lib/kernel/list.c:171-190 | The same from another list: both lists stay well formed, and the nodes change hands. |
| Lists.List.FindEndOfRun | pintos/lib/kernel/list.c:338-351 | Finds the end of the natural run that starts at a node. |
| Lists.List.InplaceMerge | pintos/lib/kernel/list.c:357-373 | Merges two neighbouring runs by rewiring, exactly as the merge function says. |
| Lists.List.MergePass | pintos/lib/kernel/list.c:391-409 | One pass over the list, exactly as the pass function says. |
| Lists.List.Sort | pintos/lib/kernel/list.c:380-413 | For any strict weak order: well-formed links and a sorted, stable permutation of the same nodes, which is the list of the specification; it terminates. |
| Lists.List.InsertOrdered | pintos/lib/kernel/list.c:418-431 | Inserts in order, behind equals; links stay well formed. |
| HashTables.EqualsAreAtHome | pintos/lib/kernel/hash.c:280-298 | Looking for an equal element in one bucket is looking for it in the whole table. |
| HashTables.HomeIs | pintos/lib/kernel/hash.c:280-284 | The bucket of an element is its hash value modulo the number of buckets. |
| HashTables.PushHolds | pintos/lib/kernel/hash.c:383-387 | Pushing a new element onto its bucket keeps each element once, in its own bucket. |
| HashTables.UnlinkHolds | pintos/lib/kernel/hash.c:390-394 | Unlinking an element keeps the others, each once, in their own buckets. |
| HashTables.IdealLoad | pintos/lib/kernel/hash.c:334-342 | The chosen count is a power of two, at least 4, with fewer than four elements a bucket and (above 4) at least two. |
| HashTables.CountBuckets | pintos/lib/kernel/hash.c:334-342 | The loop that turns bits off ends with the largest power of two not above the target. |
| HashTables.KeyedAfter | pintos/lib/kernel/hash.c:92-116 | Inserting a new key, or replacing an equal element, keeps the table a finite map. |
| HashTables.FlattenMembers | pintos/lib/kernel/hash.c:203-216 | The buckets in order list every element exactly once. |
| HashTables.Hash.constructor | pintos/lib/kernel/hash.c:25-39 | Four empty buckets. |
| HashTables.Hash.FindElem | pintos/lib/kernel/hash.c:289-298 | The equal element of a bucket, or None iff there is none. |
| HashTables.Hash.Find | pintos/lib/kernel/hash.c:123-126 | Lookup in the finite map. |
| HashTables.Hash.MoveAll | pintos/lib/kernel/hash.c:359-378 | Moving all elements into new buckets keeps exactly the elements, each in its new bucket. |
| HashTables.Hash.Rehash | pintos/lib/kernel/hash.c:322-380 | Fits the bucket count when memory allows, and otherwise changes nothing; the elements stay. |
| HashTables.Hash.Insert | pintos/lib/kernel/hash.c:92-102 | Insertion into the finite map, across any rehash; fewer than 4 elements a bucket when allocation succeeds. |
| HashTables.Hash.Replace | pintos/lib/kernel/hash.c:107-118 | Replacement in the finite map; fewer than 4 elements a bucket when allocation succeeds. |
| HashTables.Hash.Delete | pintos/lib/kernel/hash.c:135-142 | Deletion from the finite map; fewer than 4 elements a bucket when allocation succeeds. |
| HashTables.HashIterator.constructor | pintos/lib/kernel/hash.c:185-191 | Iteration starts with nothing seen. |
| HashTables.HashIterator.Next | pintos/lib/kernel/hash.c:203-216 | Each call returns one more element; at the end each element of the table has been returned exactly once. |
| Inodes.PatchWrites | pintos/filesys/inode.c:259-268 | Overwriting part of a sector changes exactly those bytes of the disk. |
| Inodes.Inode.ReadChunk | pintos/filesys/inode.c:201-214 | One sector's part of a read; it fails only for want of a bounce buffer. |
| Inodes.Inode.WriteChunk | pintos/filesys/inode.c:251-269 | One sector's part of a write changes exactly its bytes of the disk. |
| Inodes.Inode.ChunkFits | pintos/filesys/inode.c:188-199 | A pass makes progress exactly while bytes are left, inside file and sector. |
| Inodes.Inode.ReadPass | pintos/filesys/inode.c:188-218 | A pass reads the next piece exactly while bytes are left, or fails for want of a bounce buffer. |
| Inodes.Inode.WritePass | pintos/filesys/inode.c:241-277 | A pass writes the next piece exactly while bytes are left, or fails for want of a bounce buffer. |
| Inodes.Inode.ReadLoop | pintos/filesys/inode.c:183-218 | From an offset that is not negative: reads min(size, bytes left) bytes of the file into the buffer and touches no other byte of it; fewer only when memory is short, which cannot matter for whole sectors. |
| Inodes.Inode.ReadAt | pintos/filesys/inode.c:178-222 | The same for any offset; the first pass leaves the file iff there is something to read and the offset is negative. |
| Inodes.Inode.BeforeFile | pintos/filesys/inode.c:40-47 | At offset -512 the first pass writes the whole sector before the file's first one. |
| Inodes.Inode.WriteLoop | pintos/filesys/inode.c:239-277 | From an offset that is not negative: writes min(size, bytes left) bytes; exactly that slice of the disk changes; fewer bytes only when memory is short. |
| Inodes.Inode.WriteAt | pintos/filesys/inode.c:229-281 | The same for any offset; a denied write changes nothing; the first pass of another one leaves the file iff there is something to write and the offset is negative. |
| Inodes.Inode.WriteRefinesArray | pintos/filesys/inode.c:229-281 | As an update of the file's byte array. |
| Inodes.Inode.WriteThenRead | pintos/filesys/inode.c:178-281 | What has been written is read back, unless the offset is negative. |
| FileSystems.FilesApart | pintos/filesys/inode.c:62-172 | Two files that are linked or open share no sector, and all their sectors are marked used. |
| FileSystems.Allocate | pintos/filesys/free-map.c:25-38 | Sectors found free belong to no file. |
| FileSystems.WriteInode | pintos/filesys/inode.c:78-88 | Writing an inode and zeroing its data overwrites no other file's inode. |
| FileSystems.BitsOf | pintos/filesys/inode.c:156-160 | Both assertions in the last close of a removed file hold. |
| FileSystems.AddLinks | pintos/filesys/directory.c:133-170 | dir_add links one file at most and never the same inode twice, even when reads come up short. |
| FileSystems.FileSystem.FreeMapAllocate | pintos/filesys/free-map.c:25-38 | The lowest free run of sectors, or nothing changes; in a calm call it fails iff there is none. |
| FileSystems.FileSystem.FreeMapRelease | pintos/filesys/free-map.c:41-45 | Clears exactly the sectors; its assertion is the precondition, met at every call. |
| FileSystems.FileSystem.InodeCreate | pintos/filesys/inode.c:62-93 | A new inode with data sectors of its own: the lowest run of just enough of them for its length; a calm call fails iff there is no such run. |
| FileSystems.FileSystem.InodeOpen | pintos/filesys/inode.c:98-126 | One in-memory inode per sector, counted. |
| FileSystems.FileSystem.InodeClose | pintos/filesys/inode.c:145-165 | All sectors of the file, and no others, go back exactly when the last opener of a removed file closes; otherwise no bit changes. |
| FileSystems.FileSystem.Create | pintos/filesys/filesys.c:60-74 | A new, unshared file of the given size under the name, which takes the lowest free sector and the lowest run of just enough sectors behind it, or the directory is as before; a calm call succeeds iff there is room, the name has 1 to 14 characters and is new, and a slot is free; when it fails, sectors leak iff there was room and the size is not 0. |
| FileSystems.SectorsJustFit | pintos/filesys/inode.c:22-25 | The number of sectors for a length is the one that holds it with none to spare. |
| FileSystems.CreateLeaks | pintos/filesys/filesys.c:61-73 | Creating a file of one byte under a name that is taken, with two sectors free: both are taken, the name is refused, and only the inode sector is given back. |
| FileSystems.Undone | pintos/filesys/filesys.c:68-69 | After a failure the free map is as before iff the inode had not been made or its size is 0. |
| FileSystems.FileSystem.OpenFile | pintos/filesys/filesys.c:80-91 | Opens a file found under the name, which has not been removed; a calm call fails iff there is none. |
| FileSystems.FileSystem.RemoveFile | pintos/filesys/filesys.c:96-102 | Clears the entry; a file that is open keeps its sectors, another one loses all of its sectors at once, and no other sector is given back; a calm call fails iff the name is not there. |
| FileSystems.FileSystem.CloseFile | pintos/filesys/file.c:57-64 | One opener less; the sectors of a removed file go back with the last one, and only then. |
| FileSystems.FileSystem.ReopenFile | pintos/filesys/file.c:35-38 | One opener more of an open file, even a removed one, or (never in a calm call) nothing changes. |
| FileSystems.WriteStaysInFile | pintos/filesys/inode.c:229-281 | Bytes written inside one file leave the bytes of every other file, and every inode, alone. |
| FileSystems.FileSystem.WriteFile | pintos/filesys/inode.c:229-281 | inode_write_at on an open file replaces exactly the slice of its bytes, and changes no other file and no inode; it goes astray iff the offset is negative, the write not denied and not empty. |
| FileSystems.FileSystem.Format | pintos/filesys/filesys.c:105-121 | After format the free map and the root directory have the first sectors of the disk, just enough of them, and nothing is linked; a calm format fails iff the disk is too small for that. |
| FileSystems.FileSystem.Run | pintos/filesys/filesys.c:60-102 | Over every run of create, open, reopen, remove and close the ownership invariant holds and no release assertion fails. |
| Directories.NamesAre | pintos/filesys/directory.c:83-103 | The map that a directory stands for, slot by slot; it has at most as many names as slots. |
| Directories.AddSucceedsIff | pintos/filesys/directory.c:133-170 | When no read comes up short, dir_add succeeds iff the name has 1 to 14 characters, is absent and a slot is free, and then adds exactly it. |
| Directories.AddWrites | pintos/filesys/directory.c:133-170 | dir_add writes iff the name is in order, its search comes up short or ends before any slot of that name, the search for a free slot ends inside the file, and the write succeeds. |
| Directories.AddRefinesIff | pintos/filesys/directory.c:147-160 | With memory short, dir_add keeps its promise iff, whenever it writes, the name is absent and a slot no later than the short read is free. |
| Directories.AddDuplicates | pintos/filesys/directory.c:147-148 | A short read in the search for the name: the name is there twice. |
| Directories.AddOverwrites | pintos/filesys/directory.c:157-166 | A short read in the search for a free slot: another file's entry is overwritten. |
| Directories.RemoveRefines | pintos/filesys/directory.c:176-206 | dir_remove deletes exactly that name or changes nothing, whatever reads come up short. |
| Directories.ListsEachNameOnce | pintos/filesys/directory.c:212-223 | A full pass lists each name of the map once. |
| Directories.FreeIffNotFull | pintos/filesys/directory.c:157-160 | The map has as many names as slots are in use, so a slot is free iff the map is not full. |
| Directories.RunRefines | pintos/filesys/directory.c:133-206 | Over every run in which each addition meets that condition, wherever reads come up short, the directory is a finite map, names stay unique, and each success is called for. |
| Directories.WholeRun | pintos/filesys/directory.c:133-206 | A run without short reads meets the condition, and its calls succeed exactly as those on a map bounded by the number of slots. |
| Directories.Dir.Lookup | pintos/filesys/directory.c:83-103 | Finds the first slot in use under the name before the read that came up short. |
| Directories.Dir.DirAdd | pintos/filesys/directory.c:133-170 | Exactly the specified addition, without short reads in a calm call. |
| Directories.Dir.FindFree | pintos/filesys/directory.c:157-160 | The first free slot, or where reading stopped. |
| Directories.Dir.DirRemove | pintos/filesys/directory.c:176-206 | Exactly the specified removal, without short reads in a calm call. |
| Directories.Dir.Readdir | pintos/filesys/directory.c:212-223 | The next name in use; none only at the end or on a short read. |
| Directories.Dir.ListAll | pintos/filesys/directory.c:212-223 | A pass without short reads returns exactly the names of the map, each once. |
| Scheduler.ScheduleOk | pintos/threads/thread.c:694-736 | After schedule() exactly the next thread runs; a dying one is queued for destruction; every thread is on the list its status says. |
| Scheduler.StepLooks | pintos/threads/thread.c:559-565 | The first thread of the ready list, once the current one has joined it, runs and leaves it; the idle thread runs iff the list is empty; no other list changes. |
| Scheduler.InsertedBehind | pintos/threads/thread.c:410 | A thread joins the ready list in front of the first thread of lower priority. |
| Scheduler.QueuedKeepsOrder | pintos/threads/thread.c:410 | It keeps a sorted list sorted, and comes behind all of equal or higher priority. |
| Scheduler.HighestRuns | pintos/threads/thread.c:559-565 | From a sorted ready list a thread of highest priority runs, and the rest stays sorted. |
| Scheduler.FreeOk | pintos/threads/thread.c:684-688 | A victim's page is freed while another thread runs, and the victim is then gone from everywhere. |
| Scheduler.Machine.constructor | pintos/threads/thread.c:142-190 | The state after thread_start: main runs, and the idle thread, which main has preempted, is ready and on no list. |
| Scheduler.Machine.Switch | pintos/threads/thread.c:694-736 | The current thread goes to the list its new status calls for, and the next thread runs. |
| Scheduler.Machine.FreeVictims | pintos/threads/thread.c:684-688 | Frees exactly the threads that died earlier; the current one is not among them. |
| Scheduler.Machine.Yield | pintos/threads/thread.c:401-413 | A yielding thread joins the ready list behind all of equal or higher priority up to the first of lower priority, and the first of the list runs; the dead are freed; no other list changes. |
| Scheduler.Machine.Exit | pintos/threads/thread.c:378-396 | A dying thread is queued for destruction once, and the first ready thread, or else the idle one, runs. |
| Scheduler.Machine.Sleep | pintos/threads/thread.c:753-766 | A sleeping thread is blocked, on the sleep list only, in front of the first with a later wake-up tick; the first ready thread runs. |
| Scheduler.Machine.Unblock | pintos/threads/thread.c:304-316 | A blocked thread on no list becomes ready, in front of the first ready thread of lower priority. |
| Scheduler.Machine.AwakeFirst | pintos/threads/thread.c:781-792 | The first sleeper becomes ready, in front of the first ready thread of lower priority. |
| Scheduler.Machine.Create | pintos/threads/thread.c:229-262 | A new thread is blocked, on no list. |
| Scheduler.Machine.SemaDownRound | pintos/threads/synch.c:60-77 | The semaphore is taken iff its value is positive; otherwise the thread joins the waiters by priority, the first ready thread runs, and it will look again. |
| Scheduler.Machine.SemaTryDown | pintos/threads/synch.c:85-102 | Takes the semaphore iff its value is positive. |
| Scheduler.Machine.SemaUp | pintos/threads/synch.c:111-130 | One more; of the waiters of maximum current priority the one that has waited longest becomes ready, if there is a waiter. |
| Scheduler.Machine.SetHolder | pintos/threads/synch.c:242-246 | Only one thread gets to set the holder: nobody held the lock. |
| Scheduler.Machine.ClearHolder | pintos/threads/synch.c:303 | The holder gives the lock up. |
| Scheduler.Machine.LockUp | pintos/threads/synch.c:304 | Releasing raises the lock's semaphore from 0 to 1 and wakes the waiter of maximum priority that has waited longest. |
| Scheduler.LocksTaken | pintos/threads/synch.c:255-265 | A lock's semaphore is taken only while nobody owns the lock: at most one thread holds it. |
| Scheduler.Machine.Placement | pintos/include/threads/thread.h:116-122 | One thread runs; the ready list holds each other ready thread but the idle one once; no elem is on two lists, and status says which. |
| Scheduler.Machine.Run | pintos/threads/thread.c:286-316 | Over every run of scheduler, semaphore and lock steps the invariant holds, with value + completed downs = initial value + ups; and the ready list stays sorted by priority as long as no priority changes in it. |
| Alarm.Clock.ThreadSleep | pintos/threads/thread.c:754-767 | The sleeper is put on the list in order of wake-up tick, behind equals, whatever its wake-up tick is. |
| Alarm.Clock.TimerSleep | pintos/devices/timer.c:90-99 | However many ticks pass between timer_ticks and thread_sleep, the sleeper is due n ticks after the clock was read or, if that has passed, at the next tick; never earlier. |
| Alarm.Clock.TimerInterrupt | pintos/devices/timer.c:127-133 | Exactly the sleepers whose due tick max(w, t0 + 1) is the new tick become ready, in list order. |
| Alarm.Clock.WokenWhenDue | pintos/threads/thread.c:780-792 | Every sleeper has been woken iff its due tick has come, in the interrupt of that tick; never earlier or later. |
| Alarm.InsertOk | pintos/threads/thread.c:760-761 | Insertion keeps the list sorted by wake-up tick, equal ones in order of arrival. |
| Donation.RaisedIs | pintos/threads/synch.c:216-237 | The walk raises the holders it visits to the donor's priority and changes nothing else. |
| Donation.VisitedNext | pintos/threads/synch.c:223-237 | Whom a visited thread waits for is visited too, unless the walk stopped there. |
| Donation.DonateKeeps | pintos/threads/synch.c:208-240 | After the donation block each listed donor is listed once and waits on a lock of the lister; every priority is at least the base and the listed donors' iff no ninth holder, unvisited and lower, lists the eighth. |
| Donation.ShortChain | pintos/threads/synch.c:223 | Chains of at most 8 holders are never cut off. |
| Donation.NineHolders | pintos/threads/synch.c:223 | With nine holders in a row the ninth keeps a lower priority than its donor. |
| Donation.RowExists | pintos/threads/synch.c:223 | Such a row of holders exists. |
| Donation.RefreshIs | pintos/threads/thread.c:811-822 | A refreshed priority is exactly the maximum of base and listed donors. |
| Donation.ReleaseKeeps | pintos/threads/synch.c:276-302 | A release drops the lock's donors; the caller's priority is then exact, the others' still suffice. |
| Donation.SetPriorityKeeps | pintos/threads/thread.c:418-424 | After thread_set_priority the caller's priority is exact, the others' still suffice. |
| Donation.TakeKeeps | pintos/threads/synch.c:242-246 | Taking a free lock keeps lists and priorities in order. |
| Donation.DonateLists | pintos/threads/synch.c:208-240 | If all waiters are on their holders' lists, they are so after the donation block. |
| Donation.ReleaseLists | pintos/threads/synch.c:276-307 | The same of a release. |
| Donation.SetPriorityLists | pintos/threads/thread.c:418-424 | The same of thread_set_priority. |
| Donation.TakeLists | pintos/threads/synch.c:242-246 | When a lock is taken, all waiters are on their holders' lists afterwards iff no other thread waits for it. |
| Donation.ListedNoInversion | pintos/threads/thread.c:810-822 | With all waiters listed and all priorities at least the listed donors', no holder has a lower priority than a waiter. |
| Donation.LateWaiter | pintos/threads/synch.c:242-305 | Two threads wait, the lock is released, one takes it and lowers its base priority: it then holds the lock with a lower priority than the thread that still waits. |
| Donation.Kernel.AcquireDonate | pintos/threads/synch.c:208-240 | The block on the machine, with the exact condition; it keeps all waiters listed. |
| Donation.Kernel.RaiseChain | pintos/threads/synch.c:216-237 | Raises the first holder and up to seven more. |
| Donation.Kernel.PassSema | pintos/threads/synch.c:242 | One thread passes the semaphore of a lock until it is raised again; whoever holds a lock has passed it. |
| Donation.Kernel.AcquireFinish | pintos/threads/synch.c:242-246 | The lock gets its holder, who waits for nothing; all waiters stay listed iff no other thread waits for the lock. |
| Donation.Kernel.LockTryAcquire | pintos/threads/synch.c:255-265 | Takes the lock iff its semaphore is not 0, and then nobody held it; all waiters stay listed iff it fails or nobody waits for the lock. |
| Donation.Kernel.LockRelease | pintos/threads/synch.c:276-307 | After release the caller's priority is exactly the maximum, and all waiters stay listed. |
| Donation.Kernel.DropWaiters | pintos/threads/synch.c:286-299 | Unlinks exactly the donors that wait for this lock. |
| Donation.Kernel.ThreadSetPriority | pintos/threads/thread.c:418-424 | The base is set, the priority is exactly the maximum, and all waiters stay listed. |
| Donation.Kernel.Run | pintos/threads/synch.c:201-307 | Over every run the lists stay in order; while no walk is cut off every priority is at least the listed donors'; and if besides no lock is taken that others wait for, it is at least that of every thread whose waiting_lock it holds. |
| Arithmetic.LeadingZerosMeaning | pintos/lib/arithmetic.c:40-66 | Shifting by the number of leading zeros brings the top bit to bit 31, and no further. |
| Arithmetic.Nlz | pintos/lib/arithmetic.c:40-66 | nlz counts the leading zeros of a word. |
| Arithmetic.SchoolbookDigit | pintos/lib/arithmetic.c:74-85 | Two 64/32-bit divisions give the quotient by a 32-bit divisor, and neither traps. |
| Arithmetic.NormalisedDivisor | pintos/lib/arithmetic.c:96-101 | The shifted divisor's top word is its leading 32 bits and has its top bit set. |
| Arithmetic.NoTrap | pintos/lib/arithmetic.c:101 | Half the dividend over the normalised top word fits 32 bits: divl does not trap. |
| Arithmetic.EstimateIsQuotientOrOneMore | pintos/lib/arithmetic.c:96-104 | The normalised estimate is the true quotient or one more. |
| Arithmetic.Correction | pintos/lib/arithmetic.c:105-115 | The final comparison, in wrap-around arithmetic, tells which. |
| Arithmetic.UDiv64 | pintos/lib/arithmetic.c:71-118 | udiv64 is the floor of n / d for all 64-bit n and d > 0, and divl never traps. |
| Arithmetic.UMod64 | pintos/lib/arithmetic.c:120-124 | umod64 is the low 32 bits of the remainder. |
| Arithmetic.UMod64ExactIff | pintos/lib/arithmetic.c:120-124 | The 32-bit remainder is exact for all n iff d <= 2^32. |
| Arithmetic.TruncDivMeaning | pintos/lib/arithmetic.c:126-134 | Truncating division as section 6.5.5 of ISO/IEC 9899:1999 has it: n = d * q + r with abs(r) < abs(d) and r of the sign of n. |
| Arithmetic.SDiv64 | pintos/lib/arithmetic.c:127-134 | sdiv64 truncates toward zero, except that INT64_MIN / -1 gives INT64_MIN. |
| Arithmetic.SMod64 | pintos/lib/arithmetic.c:137-140 | smod64 is the low 32 bits of the truncated remainder. |
| Arithmetic.SMod64ExactIff | pintos/lib/arithmetic.c:137-140 | The signed 32-bit remainder is exact for all n iff abs(d) <= 2^31. |
| Sorting.HeapifiedIsHeap | pintos/lib/stdlib.c:91-124 | Sifting down restores the heap below a node. |
| Sorting.HeapifiedKeeps | pintos/lib/stdlib.c:91-124 | Sifting down permutes the first cnt elements and leaves the rest. |
| Sorting.RootIsLargest | pintos/lib/stdlib.c:144-150 | The root of a heap is a largest element. |
| Sorting.SortRound | pintos/lib/stdlib.c:144-150 | A round moves a largest element to its final place and leaves a heap. |
| Sorting.Heapify | pintos/lib/stdlib.c:96-124 | The loop sifts down exactly as the function says. |
| Sorting.Sort | pintos/lib/stdlib.c:131-152 | The array is an ordered permutation of what it was, for any total preorder. |
| Sorting.BinarySearch | pintos/lib/stdlib.c:184-207 | Returns a matching element of an ordered array iff one exists. |
| Printf.BufferFits | pintos/lib/stdio.c:440-488 | The 64-byte buffer suffices for every 64-bit value, base, flag set and precision. |
| Printf.TextDenotes | pintos/lib/stdio.c:466-488 | The digits with commas removed denote the value, for every base and conversion. |
| Printf.BufferLooks | pintos/lib/stdio.c:466-488 | The digits denote the value; zeros stand in front only as far as the precision (1 without one, at most 63) or # in base 8 asks for; there are none iff the value and the precision are 0 and # in base 8 is not in force; commas stand at every fourth place from the right (fifth in base 16) with a digit other than 0 on their left, and nowhere else. |
| Printf.TextLooks | pintos/lib/stdio.c:436-510 | Sign, prefix and padding are those of section 7.19.6.1 of ISO/IEC 9899:1999, in their order. |
| Printf.TenDenotes | pintos/lib/stdio.c:120-130 | The numeral 10 denotes ten, eight and sixteen. |
| Printf.DigitsStandFor | pintos/lib/stdio.c:120-130 | The digits of the tables stand for 0 to 15. |
| Printf.PrecisionIff | pintos/lib/stdio.c:479-488 | There are fewer digits than the precision asks for iff grouping is on, the value has enough digits for a comma but fewer than the precision, and not just one fewer that # in base 8 adds: the code counts the commas. |
| Printf.FiveOfSix | pintos/lib/stdio.c:479-488 | A grouped 1234 with precision 6 is printed with five digits. |
| Printf.LengthIff | pintos/lib/stdio.c:490-510 | The text has max(width, natural length) characters iff not both - and 0 are in force with something to pad. |
| Printf.ParsedFlags | pintos/lib/stdio.c:323-386 | What parse_conversion can produce; - and 0 together exactly for a 0 flag without -, a negative * width and no precision. |
| Printf.ZeroStarNegative | pintos/lib/stdio.c:351-368 | %0*d with width -5 and value 7 prints 9 characters. |
| Printf.ParseConversion | pintos/lib/stdio.c:320-427 | Parses flags, width, precision and type exactly as specified, with every format position in bounds. |
| Printf.ParseReadsBack | pintos/lib/stdio.c:320-427 | Every conversion without * that parse_conversion can produce is read back from its written form. |
| Printf.FlagsAre | pintos/lib/stdio.c:325-354 | Each flag character sets its own flag. |
| Printf.StarWidth | pintos/lib/stdio.c:356-368 | A * width parses as its argument written in its place, but for the flags when 0 was given without -, the argument is negative and there is no precision; exactly then they differ. |
| Printf.StarPrecision | pintos/lib/stdio.c:370-386 | A * precision parses as its argument written in its place, a negative one as none. |
| Printf.FillDigits | pintos/lib/stdio.c:466-477 | Fills the buffer with the digits and commas, in reverse. |
| Printf.FillZeros | pintos/lib/stdio.c:479-488 | Adds the zeros of the precision and of # in base 8, inside the buffer. |
| Printf.FormatInteger | pintos/lib/stdio.c:436-510 | The output is exactly the specified text, made of the parts that the standard asks for. |
| Printf.Atoi | pintos/lib/stdlib.c:9-41 | Reads blanks, a sign and digits as specified. |
| Printf.AtoiOfParts | pintos/lib/stdlib.c:9-41 | White space, at most one sign and digits up to the first other character: the number that they denote. |
| Printf.AtoiReadsBack | pintos/lib/stdio.c:436-510 | For every int and every %d conversion without grouping, atoi of the text is the int (section 7.19.6.1 of ISO/IEC 9899:1999 gives the conversions). |
| Printf.FormatThenAtoi | pintos/lib/stdlib.c:9-41 | The same of the two routines run one after the other. |
| Argv.RunsAreMaximal | pintos/lib/string.c:167-201 | The words found are the maximal runs of characters that are not delimiters, all of them, in order. |
| Argv.StrtokR | pintos/lib/string.c:167-201 | For any delimiters: finds the next word, ends it with NUL in place and saves where to go on; changes no other byte. |
| Argv.NextWord | pintos/userprog/process.c:815-826 | A round of the loop in load: the word goes into argv, and strtok_r finds the next maximal run and ends it with NUL. |
| Argv.Tokenise | pintos/userprog/process.c:815-826 | All words are in argv, NUL-terminated in the buffer; fails iff there are more than 64. |
| Argv.PushString | pintos/userprog/process.c:1001-1006 | One word goes on the stack unless it does not fit the page. |
| Argv.PushStrings | pintos/userprog/process.c:1001-1006 | Each word stands on the stack with its NUL, the last one highest, and argv points to it; all copies stay in the page iff there is room. |
| Argv.PushPointers | pintos/userprog/process.c:1018-1042 | A NULL and the pointers stand below, in order; nothing above changes; they stay in the page iff there is room. |
| Argv.BytesBack | pintos/userprog/process.c:1041 | A stored word is read back. |
| Argv.ReadString | pintos/userprog/process.c:1004 | Reading a NUL-terminated string back gives it. |
| Argv.ArgumentsLaidOut | pintos/userprog/process.c:1001-1048 | From rsi a program reads argc 8-aligned pointers and a NULL; the i-th points past the array to the i-th word; strings and array do not overlap. |
| Argv.LongSecondWord | pintos/userprog/process.c:1001-1042 | A command line of a word of one letter and one of 4088 does not fit the page. |
| Argv.LoadArguments | pintos/userprog/process.c:812-1056 | The whole path from any command line to the stack page: fails iff there are not 1 to 64 words or the program that the first word names cannot be loaded, and stays in the page iff the words fit. |
| Argv.FirstWord | pintos/userprog/process.c:831 | What filesys_open reads at argv[0] is the first word. |
| Argv.LayOut | pintos/userprog/process.c:977-1056 | The layout part: strings, alignment, pointers, NULL return address; in the page iff all of it fits. |

## Left out

- Addresses from 2^39 up to the kernel base, which share the kernel's tables; TLB flushes.
- The test `is_kernel_vaddr (va)` in duplicate_pte, which user addresses below 2^39 never meet.
- Frame numbers are not bounded by physical memory size; of an entry's low bits D, A, U, W and P are told apart.
- Page contents other than page tables and copied user pages; block contents of malloc; so calloc's zeroing, realloc's copy and the 0xcc fill of freed memory.
- Malloc.Heap.PallocGetMultiple: picks any free run of pages; that the lowest one is picked is proved of the bitmap.
- Palloc.Pool.TestStep: first fit is claimed of GetAlone only, because bits may be cleared behind the scan.
- Words of a bitmap are unbounded naturals; only bits 0 to 63 of a word are ever set.
- Bitmap files on disk (bitmap_read, bitmap_write) other than that a write may fail and is then undone.
- Hash buckets are sequences in an array; the links of their lists are the subject of the list module. hash_init without memory, hash_clear, hash_destroy, hash_apply and the hash functions themselves.
- Lists.List: list_unique, list_max, list_min, list_reverse and list_size.
- Fork of the file-descriptor table, registers and child status; process_exec, wait and exit apart from the address space.
- Inodes.Inode.ReadAt: sums of offset and size do not overflow 32 bits, and a pass that leaves the file is not followed further; the same of WriteAt.
- Directories.Dir: an entry is a record, not 20 bytes; names are strings of at most 14 characters without NUL.
- FileSystems.FileSystem.Run: that no sector leaks is not claimed; when a calm create leaks is told by Create.
- The bytes of the free map's and the directory's own files are not tied to bits and slots.
- Scheduler: once a priority changes inside ready_list, which is not sorted again, the ready thread of highest priority need not run next. Time slices, statistics, context switch and process_activate.
- Scheduler.Machine.Yield: check_preemption only ever calls it, so it may come at any time in a run.
- The alarm clock and donation are modelled beside the scheduler, not on top of it; wake-up ticks and priorities may change there freely.
- Condition variables, whose signal assumes that every queued semaphore already has a waiter.
- Printf: strings, characters, the console, buffers of vsnprintf, and the effect of widths beyond the range of int, which C leaves undefined.
- Argv.LoadArguments: what a store below the stack page hits (the run ends there); which names lead to an executable that can be opened and loaded is a parameter.
- FAT file system, virtual memory and page cache, which are stubs; devices, interrupts, system calls, user-pointer checks.
- memmove's return value, calloc's overflow test and the set-up of the page pools from the memory map.
