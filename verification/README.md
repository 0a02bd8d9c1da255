# Verified models of Yu-NoobKernel

Dafny models of the parts of the kernel whose meaning can be stated without hardware, with proofs of what they promise. `dafny verify dfyconfig.toml` checks everything. Most components come as a pair of files: `XState.dfy` holds the values, the invariants and the theorems, `X.dfy` the code as classes and methods that update fields and arrays step by step, each proved against that specification.

| component | files | main results |
|---|---|---|
| LZ4 block codec | `Lz4Format`, `Lz4` | round trip for every input and acceleration; size bound; how far memory is written, for every capacity; the decoder is exactly the format |
| buddy allocator | `Bits`, `BuddyState`, `Buddy` | partition in every state; failure if and only if no aligned free run exists |
| slab and kmalloc | `Lists`, `Bitmap`, `KallocState`, `Kalloc` | live results are disjoint across both allocators; failure exactly when there is no room; kfree routing; counters |
| Sv39 page tables | `PageTableState`, `PageTree`, `PageTable` | the tree refines a flat map; map, unmap and destroy are exact |
| address spaces | `UvmState`, `Uvm` | both copies characterised, and when they agree; every page freed exactly once |
| block cache | `BcacheState`, `Bcache`, `Ext4Device` | cache and sector-split access refine a flat byte array, and that the disk of the file model; which buffer is replaced |
| ext4 files | `Bytes`, `Ext4Records`, `Ext4State`, `Ext4File`, `Ext4Layout` | what is written is read; exactly when a write completes; nothing else changes but bits and counts in the records; no block is owned twice |
| ext4 directories | `DirState`, `Ext4Dir`, `Getdents` | blocks stay tiled; names behave as a map; listing is complete |
| split virtqueue | `VirtqState`, `Virtq` | every token exactly once, in any interleaving, across index wrap |
| futex and scheduler | `FutexState`, `Futex` | no lost wakeup over whole runs; one list per process; bounded waiting over whole runs |
| radix tree | `RadixSpec`, `Radix` | refines a map; the shape depends on the keys only; which nodes stay allocated |
| SHA-2 streaming | `Sha2` | chunking does not matter; padding and length are those of FIPS 180-4 |
| file descriptors | `FdState`, `FdTable` | every count is exact; every file is released exactly once |

## How the source is read

- Integers are unbounded; 64-bit addresses, 16-bit ring indices, 32-bit block numbers and the 128-bit message length are cut explicitly where the code relies on or suffers from it.
- A region protected by a spinlock is one step. The virtqueue device and the other processes take steps of their own in any order.
- The physical page allocator under the page tables, and the block allocation under a directory, may fail at any time. Device input and output succeed.
- kmalloc calls the buddy model itself. The buddy system takes its list nodes from a pool of its own, so an allocation does not re-enter itself.
- The block function of SHA-2 is a parameter.
- File positions, directory contents and descriptor tables start from well-formed states; each invariant is shown to hold initially.

## What the proofs say about the code

Where the code does not do what its comments or callers suggest, a lemma or method shows it at an input, and another says exactly when it does.

- `uvmcopy_tree` and `uvmcopy` agree exactly when every mapped page has R, W or X. A page mapped without any is copied by the second only (`UvmState.CopiesAgree`, `Uvm.BothCopies`, `UvmState.CopiesDiffer`).
- A failed `uvmcopy` leaves behind the copies of pages that are not user pages, because its cleanup looks for the U bit; nothing stays exactly when all copied pages are user pages (`Uvm.UvmCopy`, `Uvm.LeavesNothingIff`, `Uvm.LeavesBehind`).
- The range test of `mappages` is done on sums that wrap at 64 bits (`PageTable.RangeTest`, `PageTable.WrappingRange`).
- The comments call the buffer list an LRU list. Buffers are released to the end from which victims are taken, so the spare buffer given up last is replaced, and that is the least recently used one exactly when no two are spare (`BcacheState.ReplacesLeastRecent`, `Bcache.TwoColdReads`).
- `bitmap_find_next_clear` adds the start to a place that already contains it; it is right from the beginning of a byte, as slab_alloc calls it (`Bitmap.FindsFirst`, `Bitmap.FindsTooFar`).
- File positions are cut to 32-bit block numbers on both paths, so far positions alias near ones (`Ext4State.WrappedIs`, `Ext4State.LandsWhereAsked`, `Ext4File.FarWriteReadsNear`). The end of a read is compared as a 64-bit sum (`Ext4File.AsksWithin`, `Ext4File.AsksBeyond`).
- `ext4_unlink` reports success when only a cleared record carries the name (`Ext4Dir.Directory.Unlink`, `Ext4Dir.UnlinkTwice`); `ext4_rename` of a name to itself removes it, and otherwise moves the inode, whose type it writes as directory or regular file whatever it was (`Ext4Dir.Directory.Rename`, `Ext4Dir.RenameToItself`, `Ext4Dir.RenameKind`).
- A directory entry whose name has a NUL is shown up to it, under a name that a lookup may not find (`Getdents.ShownWhole`, `Getdents.AddThenList`).
- `fd_table_dup` copies the first 32 descriptors only (`FdTable.Files.TableDup`, `FdTable.LosesDescriptor`).
- `virtq_add_buf` without buffers publishes an empty buffer at address 0; with at least one it publishes what it was given (`Virtq.DescribesThem`, `Virtq.NoBuffers`). Its comment calls the first buffers those the device writes; the code marks the second ones so, and the model follows it (`Virtq.EndToEnd`).
- LZ4 compression writes a literal header before it looks at the capacity; it writes past the capacity exactly when such a header does not fit, and then fails (`Lz4.FateFacts`, `Lz4.WriteLiteralPart`, `Lz4.WritesPastCapacity`).
- `rxtree_insert` loses a node whenever it splits a leaf: the leaf that a new parent replaces is not freed (`Radix.RxTree.Insert`, `Radix.TwoKeysThenFree`).
- A futex wake counts sleepers of every address space: one of another space can use up a wake of one (`FutexState.ChosenIff`, `FutexState.UsedUp`).

## Model

| member | source | states |
|---|---|---|
| Lz4.RoundTrip | src/misc/lz4.c:83-317 | for every input and every acceleration, with a buffer of LZ4_COMPRESSBOUND bytes, compressing and then decompressing gives back exactly the input |
| Lz4.CompressGeneric | src/misc/lz4.c:83-195 | in memory that reaches as far as the scan says, and for any capacity: the result is the one the scan gives; on success the output represents the input as a block of the format; nothing is written from Reach on, and a call that stops at a literal header too long for the capacity has written that header; with capacity LZ4_COMPRESSBOUND it does not fail and stays within that bound |
| Lz4.CompressFast | src/misc/lz4.c:219-231 | the same through the public entry, whatever acceleration is asked for; with capacity LZ4_COMPRESSBOUND nothing beyond the capacity is written, and otherwise nothing beyond one literal header |
| Lz4.FateFacts | src/misc/lz4.c:83-195 | a byte past the capacity is written if and only if a literal header does not fit, and then the call fails; never more than one header; never with capacity LZ4_COMPRESSBOUND |
| Lz4.WriteLiteralPart | src/misc/lz4.c:135-146 | the header reaches past the capacity exactly when it does not fit, in which case the call fails with the header written; nothing else is written past the capacity |
| Lz4.WritesPastCapacity | src/misc/lz4.c:83-195 | 29 zeros with acceleration 16 and capacity 1: the call fails and byte 1 of the buffer has been written |
| Lz4.ZerosFate | src/misc/lz4.c:83-195 | that input stops at a header of two bytes |
| Lz4.ScanBound | src/misc/lz4.c:83-195 | with capacity LZ4_COMPRESSBOUND the scan reaches the end of every input |
| Lz4.ScanOver | src/misc/lz4.c:101-167 | a scan that stops at a header stops at one that begins within the capacity and ends past it |
| Lz4.RoomEnough | src/misc/lz4.c:83-195 | memory for one literal header behind the capacity is always enough |
| Lz4.EmitMatch | src/misc/lz4.c:118-163 | extending a match and writing its sequence moves the scan by one step, or ends it with what the scan says has been written |
| Lz4.Decompress | src/misc/lz4.c:241-317 | on arbitrary bytes every access is inside the two buffers; it succeeds exactly when the format decoder does, and then writes what that decoder says |
| Lz4Format.DecodeIsTheFormat | src/misc/lz4.c:241-317 | the byte-level decoder accepts a string with result x if and only if the string is the encoding of a well-formed block that means x |
| Lz4Format.EncodesAs | src/misc/lz4.c:26-163 | a sequence in bytes: 16 times the literal length plus the match length less four, each up to 15, what is beyond 15 in bytes of 255 and a last one, the literals, the low and the high byte of the offset |
| Lz4Format.RawStep | src/misc/lz4.c:248-313 | those bytes anywhere in a stream, whatever they are: the literals come out, then the match, each byte the one lo + 256 * hi before it, and the rest of the stream follows |
| Lz4Format.RawEnd | src/misc/lz4.c:248-270 | a token with literals at the end of a stream gives the literals, whatever its lower half |
| Lz4Format.RawDecodes | src/misc/lz4.c:241-317 | a block of one sequence, on raw bytes |
| Lz4Format.CopyMatchIs | src/misc/lz4.c:296-312 | a match leaves what was there and makes each new byte equal to the one an offset before it |
| Lz4Format.DecodeBlockFrom | src/misc/lz4.c:248-314 | decoding the encoding of a block gives what the block means, from any point of the stream |
| Lz4Format.ParseFrom | src/misc/lz4.c:248-314 | whatever the decoder accepts is the encoding of a block: the parse is complete |
| Lz4Format.StepOfSequence | src/misc/lz4.c:248-313 | one encoded sequence moves the decoder by exactly its length and appends its literals and its match |
| Lz4Format.CopyOfMatch | src/misc/lz4.c:296-312 | a match found on the source copies the source, also where it overlaps its own output |
| Lz4Format.CopyNoOverlap | src/misc/lz4.c:299-305 | when offset is at least the length, the overlapping copy is a plain copy of earlier bytes |
| Lz4Format.CopySplit | src/misc/lz4.c:296-312 | copying a match in pieces is copying it at once |
| Lz4Format.ReadExtOfLenExt | src/misc/lz4.c:256-264 | reading length extension bytes inverts writing them |
| Lz4Format.LenExtOfReadExt | src/misc/lz4.c:256-264 | extension bytes that were read are the ones that length is written with |
| Lz4.WriteLiteral | src/misc/lz4.c:26-44 | the token and extension bytes are those of the format for that literal length |
| Lz4.ReadExtension | src/misc/lz4.c:256-264 | the loop computes the format length and stops at the end of the buffer |
| Lz4.CopyOverlapping | src/misc/lz4.c:296-312 | the in-place byte loop is the format match copy |
| Lz4.TakeLiterals | src/misc/lz4.c:248-270 | the literal part of a step, with both bounds tests |
| Lz4.TakeMatch | src/misc/lz4.c:272-313 | the match part of a step: zero or too large offsets and output overrun are refused, as in the format decoder |
| Lz4.FindMatchEnd | src/misc/lz4.c:118-133 | the length found is one on which source and match agree, and is maximal up to the limit |
| Lz4.WriteSequence | src/misc/lz4.c:135-163 | the bytes appended are exactly the encoding of the sequence; after the literals come offset modulo 256 and offset divided by 256 |
| Lz4.WriteLastLiterals | src/misc/lz4.c:170-192 | the last run is encoded with its length, or the call fails for want of room |
| Lz4.Probe | src/misc/lz4.c:107-116 | the table is updated at the hash only, and a match is reported exactly when the candidate is 1 to 65535 bytes back and starts with the same word |
| Lz4.Read32Injective | src/misc/lz4.c:18 | equal words mean four equal bytes, so a probe hit is a match of length four |
| Lz4.SequenceSizeBound | include/misc/lz4.h:8-9 | a sequence never grows the output beyond the bound for the input it covers |
| Lz4.LastRunBound | include/misc/lz4.h:8-9 | the last literal run fits the bound |
| Buddy.System.constructor | src/mm/buddy.c:82-104 | all pages free, no block allocated, counter equal to the region, invariant established |
| Buddy.System.AllocOrder | src/mm/buddy.c:240-257 | fails if and only if no aligned run of 2^order pages is wholly free; otherwise hands out such a run, taking exactly its pages |
| Buddy.System.Alloc | src/mm/buddy.c:264-277 | size limits, and the least sufficient order; the rest as AllocOrder |
| Buddy.System.Release | src/mm/buddy.c:284-299 | the block leaves the allocated map, its pages become free, the counter grows by its size |
| Buddy.System.AllocThenRelease | src/mm/buddy.c:214-299 | allocating and releasing restores free pages, allocated blocks and counter, whatever was merged or split |
| Buddy.System.MergeBlocks | src/mm/buddy.c:111-157 | free pages and allocated blocks unchanged, and afterwards no two free buddies below the order |
| Buddy.System.MergePair | src/mm/buddy.c:134-154 | merging one pair keeps the partition and all earlier progress |
| Buddy.System.MergeLevel | src/mm/buddy.c:119-156 | after the level loop no free pair of that order remains |
| Buddy.System.FindMergeable | src/mm/buddy.c:119-133 | finds a block with a free buddy of its order if there is one |
| Buddy.System.SplitBlocks | src/mm/buddy.c:164-207 | free pages and allocated blocks unchanged; leaves the list empty only if every larger list was empty |
| Buddy.System.SplitOne | src/mm/buddy.c:176-204 | one split turns a block into its two buddies and loses nothing |
| Buddy.System.AllocInner | src/mm/buddy.c:214-233 | the head of the list becomes allocated; exactly its pages leave the free set |
| Buddy.SizeToOrder | src/mm/buddy.c:36-39 | the least order whose block holds the size |
| Buddy.BuddyAddress | src/mm/buddy.c:47-50 | the XOR of address and size is the sibling block address |
| Bits.Log2Ceil | include/misc/math.h:10-49 | the least exponent whose power is not below the argument |
| BuddyState.LiveDisjoint | src/mm/buddy.c:284-299 | in every reachable state allocated blocks are aligned, pairwise disjoint and disjoint from free pages |
| BuddyState.NothingLost | src/mm/buddy.c:82-104 | every page is free or in an allocated block |
| BuddyState.RunIsOneBlock | src/mm/buddy.c:111-157 | with no free pairs below k, a wholly free aligned run of 2^k pages lies in one free block |
| BuddyState.NoRun | src/mm/buddy.c:240-257 | with no free pairs below k and empty lists from k up, no such run exists |
| BuddyState.MergeEffects | src/mm/buddy.c:134-154 | a merge keeps partition, lists, free pages and allocated blocks |
| BuddyState.SplitEffects | src/mm/buddy.c:176-204 | a split keeps partition, lists, free pages and allocated blocks |
| Kalloc.Allocator.Kmalloc | src/mm/kalloc.c:66-78 | on success the allocations are those before and one new piece of at least the size asked for that was not allocated; on failure they are unchanged; 0 and more than 8 MB always fail; below a page it fails exactly when the pool is empty and there is no free run for a slab, otherwise exactly when there is no free run of its order |
| Kalloc.Allocator.Kfree | src/mm/kalloc.c:126-143 | the page flag sends the pointer to the allocator it came from; exactly that piece is given back |
| Kalloc.Allocator.CacheAlloc | src/mm/slab.c:215-266 | one new object; none exactly when the cache has no free object and the buddy system has no free run of the slab order, and then nothing changed; the pool grows by a slab exactly when it has fewer free objects than object_num and there is such a run |
| Kalloc.Allocator.SlabAlloc | src/mm/slab.c:119-131 | with a free object in the pool, the first clear one of the first partial slab, at its place behind the offset; the buddy blocks stay |
| Kalloc.Allocator.BuddyAlloc | src/mm/buddy.c:264-277 | a block apart from all others, of the least order that holds the size; none exactly when no aligned run of that order is free |
| Kalloc.OneOrder | src/mm/buddy.c:36-39 | a size has one least order |
| Kalloc.Allocator.SlabFree | src/mm/slab.c:138-169 | an allocated slot is given back; a slot already clear is left alone, counters included |
| Kalloc.Allocator.Expand | src/mm/slab.c:60-91 | a new slab adds the objects of its layout and no allocation; it can be had exactly when there is a free run of the slab order |
| Kalloc.Allocator.Replenish | src/mm/slab.c:218-247 | the pool grows exactly when it is short and a run is free |
| Kalloc.Layout | src/mm/slab.c:66-76 | the most objects up to object_num for which header, bitmap and objects fit the block, and the offset ALIGN_UP gives for them, though it is used with sizes that are no powers of two |
| Kalloc.SizeToIndex | src/mm/kalloc.c:29-37 | the smallest pool whose objects hold the size |
| Kalloc.Allocator.constructor | src/mm/kalloc.c:43-59 | after initialisation nothing is allocated and the invariant holds |
| KallocState.PiecesApart | src/mm/kalloc.c:66-78 | any two live results, slab or buddy, occupy disjoint bytes |
| KallocState.Routes | src/mm/kalloc.c:126-143 | the flag tells objects from blocks, and address arithmetic recovers slab and bitmap index |
| KallocState.TakeKeeps | src/mm/slab.c:119-131 | taking a clear bit keeps lists, counters and layout, and adds exactly that object |
| KallocState.GiveKeeps | src/mm/slab.c:138-169 | giving it back keeps them and removes exactly that object |
| KallocState.AddKeeps | src/mm/slab.c:60-91 | adding a slab keeps every cache count equal to the clear bits of its slabs |
| KallocState.FirstPartial | src/mm/slab.c:256-265 | a cache with a free count has a partial slab with a clear bit: the metadata panic cannot happen |
| KallocState.BigKeeps | src/mm/kalloc.c:74-76 | a block handed out whole is one new piece |
| Lists.FindClear | include/misc/bitmap.h:101-143 | from 0 and on the unpacked bits: the first clear bit, or the length exactly when none is clear |
| Bitmap.FindNextClear | include/misc/bitmap.h:101-143 | on packed bytes, for every start: in the first byte the place of the clear bit plus the place of the start, after that the first clear bit, or the length |
| Bitmap.FindsFirst | include/misc/bitmap.h:101-143 | what is found is the first clear bit from the start on if and only if the start is at the beginning of a byte, or past the end, or its byte has no clear bit from there on |
| Bitmap.FindsTooFar | include/misc/bitmap.h:112-120 | from bit 1 of a byte of zeros the search returns 2 |
| Bitmap.FindsFromZero | src/mm/slab.c:125 | the search that slab_alloc makes finds the first clear bit |
| Bitmap.SearchesAgree | include/misc/bitmap.h:101-143 | on packed and on unpacked bits the search from 0 gives the same |
| Bitmap.SetPacked | include/misc/bitmap.h:21-28 | setting a packed bit sets that bit of the unpacked ones and no other |
| Bitmap.LowestOn | include/misc/bitmap.h:113-118 | the shifting loop finds the lowest digit that is on |
| PageTable.Machine.Walk | src/mm/pagetable.c:16-33 | reaches the leaf table of a page number; with alloc it may add zeroed tables but changes no entry of any page number |
| PageTable.Machine.WalkAddr | src/mm/pagetable.c:41-60 | the frame of a valid user leaf below VM_END, else 0 |
| PageTable.Machine.MapPages | src/mm/pagetable.c:119-156 | for every argument, 64-bit wrap included: each error exactly when its test fails; the pages mapped are a prefix of the range, all of it on success, each free before and mapped once; no other entry changes; for each page mapped, the walk of the hardware from the root finds its frame, with R, W, X, U and G as asked for, valid and accessed, and dirty if asked for or writable |
| PageTable.RangeTest | src/mm/pagetable.c:132-139 | the range test is right if and only if it refuses the range or neither sum reaches 2^64 |
| PageTable.WrappingRange | src/mm/pagetable.c:132-139 | two pages at the top of the 64-bit space pass the test though they end beyond VM_END |
| PageTable.Machine.UnmapPages | src/mm/pagetable.c:165-180 | exactly the pages of its range are invalid afterwards; nothing else changes |
| PageTable.Machine.DestroyLevel | src/mm/pagetable.c:74-96 | frees each table of the subtree exactly once and nothing else |
| PageTable.Machine.Destroy | src/mm/pagetable.c:103-108 | memory afterwards is memory before without the tables |
| PageTableState.PokeLeaf | src/mm/pagetable.c:142-154 | a leaf write changes one page number only: page numbers never share a PTE |
| PageTableState.AddL1 | src/mm/pagetable.c:24-30 | a new level-1 table changes no translation |
| PageTableState.AddL0 | src/mm/pagetable.c:24-30 | a new leaf table changes no translation |
| PageTableState.LeafFlagsStable | src/mm/pagetable.c:141-153 | flags stored by mappages are stored again unchanged |
| PageTableState.LeafFlagsAre | src/mm/pagetable.c:141-153 | the stored flags as a number, bit by bit |
| PageTableState.LeafGrants | src/mm/pagetable.c:141-153 | a leaf of any frame has exactly the permissions asked for, is valid and accessed, and is dirty if that was asked for or if it is writable |
| PageTableState.HardwareSees | src/mm/pagetable.c:20-60 | the entries of a tree are what a walk of three tables by nine bits of the page number finds |
| PageTree.ChildOf | src/mm/uvm.c:262-277 | a directory word is a pointer to the child covering its stretch of page numbers, or the stretch is empty |
| PageTree.BelowStep | src/mm/pagetable.c:81-91 | one more child adds exactly its subtree, disjoint from what was done |
| Uvm.CopyTree | src/mm/uvm.c:319-324 | the child receives exactly the leaves with R, W or X, each in a fresh frame with the parent contents and flags; the parent and all other pages are unchanged; an empty child then has that view of memory |
| Uvm.CopyTreeLevel | src/mm/uvm.c:287-317 | one subtree: in page-number order, all of it on success, a part on ENOMEM |
| Uvm.CopyPage | src/mm/uvm.c:299-308 | one page, or nothing but tables when memory runs out |
| Uvm.UvmCopy | src/mm/uvm.c:112-141 | the linear copy, into any child and for any sz below 2^64 less a page: on success every valid entry below sz is copied, each to a page the child did not map; on failure a first part was copied, the child's tables and user pages below sz are gone, and exactly the copies of pages that are not user pages stay behind, so nothing if and only if all copied pages are user pages |
| Uvm.LeavesBehind | src/mm/uvm.c:112-141 | a parent with two pages that are not user pages, and an empty child, ready to be copied: a copy that fails at the second leaves the frame of the first |
| Uvm.LeavesNothingIff | src/mm/uvm.c:112-141 | beforehand: a copy leaves nothing behind, wherever it fails, if and only if all pages to be copied are user pages |
| Uvm.CopyBeyond | src/mm/uvm.c:125-134 | a page at VM_END or beyond is refused and memory is as before |
| Uvm.Undone | src/mm/uvm.c:138-140 | after the cleanup memory is what it was without the child's tables and own user pages, and with the copies of pages that are not user pages |
| Uvm.CopyMapped | src/mm/uvm.c:125-134 | one page of the linear copy |
| Uvm.FreeLevel | src/mm/uvm.c:260-278 | every user page of the subtree is freed exactly once and its entry cleared |
| Uvm.FreeAddressSpace | src/task/proc.c:144-149 | freeing the user pages and then the tables frees each exactly once and nothing else |
| Uvm.UvmDealloc | src/mm/uvm.c:69-88 | the user pages of the range are unmapped and freed, each once |
| Uvm.UvmFree | src/mm/uvm.c:96-103 | user pages below sz and all tables are freed, each once; nothing for NULL or the kernel table |
| UvmState.ChildView | src/mm/uvm.c:287-324 | a child that started empty sees exactly the picked pages with the parent contents |
| UvmState.CopiesAgree | src/mm/uvm.c:112-324 | for trees built by mappages below sz, the tree copy and the linear copy give the same view if and only if every mapped page has R, W or X |
| Uvm.BothCopies | src/mm/uvm.c:112-324 | running both copies on the same parent into an empty child: when both succeed, the two children see the same memory if and only if every mapped page has R, W or X |
| UvmState.CopiesDiffer | src/mm/uvm.c:119-135 | one user page mapped with no access bits: the linear copy takes it, the tree copy does not |
| UvmState.CopyThenFree | src/mm/uvm.c:260-324 | copying a tree and freeing the copy leaves memory as before, without the child tables |
| UvmState.StillThere | src/mm/uvm.c:269-272 | the next frame to be freed has not been freed yet |
| Bcache.BlockCache.ReadAt | src/fs/ext4/ext4.c:26-47 | the bytes of the flat store, at any offset and length, across evictions; the store does not change, and what was up to date on the disk still is |
| Bcache.BlockCache.WriteAt | src/fs/ext4/ext4.c:51-75 | exactly those bytes of the flat store change, on any device, and the blocks written are up to date on the disk |
| Bcache.BlockCache.WriteBlock | src/fs/ext4/ext4.c:54-73 | one block: read, patched, written through to the disk; other blocks that were up to date there still are |
| BcacheState.SliceIs | src/fs/ext4/ext4.c:29-45 | byte n of a device is byte n modulo 512 of its block n / 512 |
| BcacheState.WroteIs | src/fs/ext4/ext4.c:55-73 | after a write every byte of every block is the one written there, or as before |
| BcacheState.WriteBackSettles | src/mm/bcache.c:93-100 | writing back a victim leaves what was up to date on the disk so |
| Bcache.BlockCache.Bread | src/mm/bcache.c:144-157 | the buffer holds what the store holds for the block |
| Bcache.BlockCache.Bwrite | src/mm/bcache.c:159-171 | the contents become the store and the disk contents of the block; an invalid buffer is not written |
| Bcache.BlockCache.Brelse | src/mm/bcache.c:173-184 | one user less; the last puts the buffer at the end of the list and of the order of use |
| Bcache.BlockCache.Get | src/mm/bcache.c:108-142 | the one buffer of the block; with a buffer to spare "no free buffers" is unreachable; a block that was not cached gets the spare buffer given up last |
| Bcache.BlockCache.Lookup | src/mm/bcache.c:60-73 | finds the buffer of a block if and only if there is one |
| Bcache.BlockCache.Evict | src/mm/bcache.c:79-106 | the last spare clean buffer, else a dirty one after writing it back; fails exactly when every buffer is in use |
| Bcache.BlockCache.constructor | src/mm/bcache.c:29-52 | the empty cache stands for the device |
| BcacheState.RefinesReassign | src/mm/bcache.c:79-142 | giving a buffer to another block loses nothing, dirty or not |
| BcacheState.RefinesWrite | src/mm/bcache.c:159-171 | writing through makes the buffer the view of its block |
| BcacheState.ShapeReassign | src/mm/bcache.c:121-137 | a block never has two buffers, and each buffer is on the chain of its block |
| BcacheState.AtRest | src/mm/bcache.c:159-171 | with nothing dirty, every completed write is on the disk |
| BcacheState.WriteThenRead | src/fs/ext4/ext4.c:26-75 | reading what was written gives it back, and reading elsewhere gives what was there |
| BcacheState.BlockWrites | src/fs/ext4/ext4.c:51-75 | a write inside one filesystem block changes those bytes of it and no other block |
| BcacheState.ReplacesLeastRecent | src/mm/bcache.c:79-184 | over the order in which buffers were last given up: the buffer replaced is the spare one given up last, and it is the least recently used one if and only if no two buffers are spare |
| Bcache.TwoColdReads | src/mm/bcache.c:79-184 | on a fresh cache two blocks read in turn get the same buffer; the first is thrown out while all others are empty, and it was not the least recently used |
| BcacheState.OrderTake | src/mm/bcache.c:108-142 | taking a buffer to the head of the list keeps the idle ones in the order of their last use |
| BcacheState.OrderGive | src/mm/bcache.c:173-184 | so does giving one up to the end |
| Bcache.BlockCache.Scan | src/mm/bcache.c:81-92 | from the end, the first unused clean buffer, else the first unused dirty one, else all are in use |
| Ext4Device.WriteIsUpdate | src/fs/ext4/ext4.c:51-75 | seen in filesystem blocks, a write inside a block is an update of the disk at that block |
| Ext4Device.ReadIsPart | src/fs/ext4/ext4.c:26-47 | and a read inside a block is a part of it |
| Ext4Device.WriteInBlock | src/fs/ext4/ext4.c:51-75 | through the cache: the disk of the file model changes by exactly that update |
| Ext4Device.ReadInBlock | src/fs/ext4/ext4.c:26-47 | through the cache: the bytes of the disk of the file model, which stays |
| Ext4File.Ext4.WriteFile | src/fs/ext4/ext4.c:920-1022 | with n bytes written, exactly the first n bytes stand at the position cut to 32-bit blocks; the rest of the file and every other file are unchanged, and so is every other block in use that holds no records; in the records only bits of the bitmaps are set and counts of free blocks change; all bytes are written if and only if the block map reaches their end and, beforehand, as many blocks are free as are missing, with one more for a missing indirect block; that many are then taken |
| Ext4Layout.BytesOnDisk | src/fs/ext4/ext4.c:920-1022 | byte k of a write stands on the device in the block that the map gives for its position, at the offset there |
| Ext4Layout.MapIs | src/fs/ext4/ext4.c:244-278 | the block map in numbers: twelve words in the inode, then four bytes each, low byte first, in the block of the thirteenth |
| Ext4State.NeedIs | src/fs/ext4/ext4.c:280-325 | the blocks a write takes are the missing ones, and one for the indirect block if it is missing and one of them goes there |
| Ext4State.FreeSum | src/fs/ext4/ext4.c:389-443 | the group counts add up to zero if and only if no bit is clear |
| Ext4File.CompletesNext | src/fs/ext4/ext4.c:939-979 | after one round the rest of a write completes exactly when the whole would have, and leaves as many blocks free |
| Ext4File.CannotComplete | src/fs/ext4/ext4.c:946-963 | a block that cannot be had stops the write short |
| Ext4File.Ext4.WriteChunk | src/fs/ext4/ext4.c:939-979 | one round of the loop: the bytes up to the end of their block, or none exactly when the block cannot be had |
| Ext4File.Ext4.ReadData | src/fs/ext4/ext4.c:620-687 | the bytes of the file blocks, as many as asked for with the 64-bit sum the code forms, stopping early only at the end of the block map |
| Ext4File.WriteThenRead | src/fs/ext4/ext4.c:620-1022 | a write returning n, then a read of those n bytes, returns them, as long as the end of the write has 64 bits |
| Ext4File.Ext4.AllocBlock | src/fs/ext4/ext4.c:389-443 | decoded from the descriptors and bitmaps on the disk: the first clear bit of a group with a free count; the block is zeroed; 0 exactly when no group has a clear bit; no file changes; on the disk exactly one bit, two counters and the block change; the counts add up to one less |
| Ext4Layout.TakesBytes | src/fs/ext4/ext4.c:389-443 | what an allocation leaves on the device, byte by byte: a bit of the bitmap, the two numbers at 12 in the descriptor and in the superblock, the zeroed block, nothing else |
| Ext4Layout.TakenAt | src/fs/ext4/ext4.c:389-443 | the number of the block and the places of descriptor and superblock |
| Ext4File.Ext4.Mark | src/fs/ext4/ext4.c:413-424 | the three writes change one bit of the bitmap block, the count of the descriptor and the count of the superblock, and nothing else on the disk |
| Ext4File.Ext4.AppendBlock | src/fs/ext4/ext4.c:1173-1212 | a directory grows by a block with the given contents exactly when a block is free and the end is among the direct blocks; other files and other blocks as in WriteFile |
| Ext4Records.MarkKeeps | src/fs/ext4/ext4.c:413-424 | afterwards every descriptor again counts the clear bits of its bitmap and the superblock holds their sum |
| Ext4Records.MarkFields | src/fs/ext4/ext4.c:413-424 | descriptors and superblock change in the count of free blocks only |
| Ext4Records.DescsApart | src/fs/ext4/ext4.c:151-193 | two descriptors in one block do not overlap |
| Ext4Records.RecordsFrame | src/fs/ext4/ext4.c:151-193 | the records stay good as long as their blocks stay |
| Ext4State.TakeRecords | src/fs/ext4/ext4.c:410-437 | records and fields agree after an allocation, and only counts changed in the descriptors and the superblock |
| Ext4File.SmallImageOk | src/fs/ext4/ext4.c:86-142 | a device of five blocks with one free block satisfies the invariant |
| Bytes.BitSet | src/fs/ext4/ext4.c:412-413 | setting bit i of a bitmap sets that bit and no other |
| Bytes.OnIs | src/fs/ext4/ext4.c:415-416 | a bit is on when its power of two goes into the byte an odd number of times, and setting it adds that power |
| Ext4File.Ext4.GetBlock | src/fs/ext4/ext4.c:244-278 | the block a logical block is mapped to, 0 for none, ~0 past the map |
| Ext4File.Ext4.SetBlock | src/fs/ext4/ext4.c:280-325 | a spare block becomes that block of the file; the indirect block is added when needed, and the call fails exactly when that one cannot be had |
| Ext4File.Ext4.OpenBlock | src/fs/ext4/ext4.c:946-963 | the block is there afterwards, zeroed if new, exactly when the block map reaches it and enough blocks are free; otherwise no file changed |
| Ext4File.ReadBack | src/fs/ext4/ext4.c:920-1022 | what was written stands in the blocks of the file |
| Ext4File.ReadRest | src/fs/ext4/ext4.c:920-1022 | bytes of the file outside the write are what they were |
| Ext4File.ReadOther | src/fs/ext4/ext4.c:920-1022 | blocks of every other file are what they were |
| Ext4State.TakeKeeps | src/fs/ext4/ext4.c:389-443 | taking a clear bit gives a block nobody refers to, and moves no file |
| Ext4State.KeptTrans | src/fs/ext4/ext4.c:920-1022 | over any number of steps: blocks in use that are neither the file's nor records stay as they are, records change in bits and counts only, and blocks the file gains were free |
| Ext4State.TakeKept | src/fs/ext4/ext4.c:410-437 | allocation changes no block in use except those with records, and those in one bit and two counters |
| Ext4State.LinkKeeps | src/fs/ext4/ext4.c:292-307 | hanging it into the inode keeps every block owned once |
| Ext4State.EnterKeeps | src/fs/ext4/ext4.c:309-322 | entering it into the indirect table keeps every block owned once |
| Ext4State.WriteKeeps | src/fs/ext4/ext4.c:965-973 | writing a data block moves no block of any file |
| Ext4State.FileStep | src/fs/ext4/ext4.c:939-979 | one chunk of the loop extends what has been written by exactly that chunk |
| Ext4State.WrapPos | src/fs/ext4/ext4.c:940-941 | positions are cut to 32-bit block numbers |
| Ext4State.WrappedIs | src/fs/ext4/ext4.c:940-941 | a position is kept if and only if it is below 2^32 blocks |
| Ext4State.LandsWhereAsked | src/fs/ext4/ext4.c:920-1022 | a write is where it was asked for if and only if the position is below 2^32 blocks or the blocks of the file are as before |
| Ext4File.FarWriteReadsNear | src/fs/ext4/ext4.c:620-1022 | a write at 2^32 blocks is read back at position 0, and the size claims the far end |
| Ext4File.WriteThenReadAt | src/fs/ext4/ext4.c:620-1022 | what is written at one position is read at every position not above it with the same 32-bit block and offset |
| Ext4File.AsksWithin | src/fs/ext4/ext4.c:629-632 | a read asks for nothing beyond the end if and only if its end has 64 bits or wraps to beyond the end |
| Ext4File.AsksBeyond | src/fs/ext4/ext4.c:629-632 | in a file of 16 bytes a read at 8 whose end wraps asks for far more |
| Bytes.WordSet | src/fs/ext4/ext4.c:320 | setting one little-endian word leaves the others |
| Ext4Dir.Directory.Lookup | src/fs/ext4/ext4.c:695-743 | the inode of the first live record of that name, or 0 |
| Ext4Dir.Directory.AddEntry | src/fs/ext4/ext4.c:1057-1242 | records keep tiling the blocks; the new name stands for the inode and the type given if it was absent, every other name as before; a cleared record or the room behind the last record is used if it is large enough, and only otherwise does the directory grow, by a block; it fails exactly if none of these is to be had |
| Ext4Dir.Directory.Unlink | src/fs/ext4/ext4.c:1245-1317 | the name stands for nothing afterwards, every other name for the inode and type it did; the records keep their names; ENOENT exactly when no record, live or cleared, carries the name |
| Ext4Dir.UnlinkTwice | src/fs/ext4/ext4.c:1245-1317 | an entry added and unlinked is gone, and unlinking it again returns 0 |
| DirState.SameNamesStep | src/fs/ext4/ext4.c:1272-1286 | clearing an inode number leaves every name carried by the records |
| Ext4Dir.Directory.Rename | src/fs/ext4/ext4.c:1326-1377 | the inode moves to the new name, as a directory or a regular file, if the names differ, and is lost if they do not; other names keep theirs; it fails exactly when the new name is absent and cannot be added, and then nothing has changed |
| Ext4Dir.RenameToItself | src/fs/ext4/ext4.c:1326-1377 | an entry renamed to its own name is gone |
| Ext4Dir.RenameKind | src/fs/ext4/ext4.c:1356-1360 | the type survives a rename if and only if it is that of a directory or regular file as the inode says; a symbolic link becomes one of these |
| DirState.GoneLeavesRoom | src/fs/ext4/ext4.c:1108-1122 | a name that records carry and no lookup finds has left a cleared record large enough for it |
| DirState.Reuses | src/fs/ext4/ext4.c:1108-1122 | filling a cleared record adds exactly that name |
| DirState.Splits | src/fs/ext4/ext4.c:1133-1172 | splitting the last record adds exactly that name |
| DirState.Appends | src/fs/ext4/ext4.c:1173-1212 | a new block adds exactly that name |
| DirState.RawReads | src/fs/ext4/ext4.c:710-735 | what the bytes of a record say: inode in four bytes and record length in two, low bytes first, name length, type, name |
| DirState.RawWrites | src/fs/ext4/ext4.c:1108-1122 | the bytes an entry is written as; the others stay |
| DirState.LastIs | src/fs/ext4/ext4.c:1125-1135 | the record the scan ends on is the last one of the directory |
| DirState.UnlinkStep | src/fs/ext4/ext4.c:1272-1286 | clearing the inode of a record removes that name from what was passed, and nothing else |
| Getdents.DirStream.Readdir | src/fs/ext4/ext4.c:1553-1614 | the next live entries in order, fewer than fit only when they are all; names may hold any byte |
| Getdents.DirStream.Getdents | src/syscall/syscall.c:943-1017 | the records of those entries; empty only at the end of the directory when one struct dirent fits |
| Getdents.Convert | src/syscall/syscall.c:967-1003 | every entry becomes one record and none is dropped for want of room |
| Getdents.ListAll | src/syscall/syscall.c:943-1017 | calling until nothing comes lists every live entry exactly once, in order |
| Getdents.WalkAll | src/syscall/syscall.c:976-1003 | walking the buffer by d_reclen recovers inode, offset, type and the name up to its first NUL of every entry |
| Getdents.RecordBytes | src/syscall/syscall.c:976-1000 | the bytes of a record: inode, offset and length low byte first, type, name up to its first NUL, NULs up to the next multiple of eight |
| Getdents.ShownWhole | src/syscall/syscall.c:978-980 | a name is shown whole if and only if it has no NUL |
| Getdents.AddThenList | src/syscall/syscall.c:943-1017 | a new directory with one entry: its listing shows the inode, the type as 8, 4, 10 or 0 for 1, 2, 7 and others, and the name up to its first NUL; that name is found if and only if the name has no NUL |
| Getdents.ListingOk | src/fs/ext4/ext4.c:1585-1609 | the fields of every entry of a directory fit their records |
| Getdents.ListingFinds | src/fs/ext4/ext4.c:1585-1609 | what the listing shows under a name is the inode and type that the name stands for |
| Virtq.Virtqueue.constructor | src/hal/virtio/virtq.c:23-85 | all descriptors on the free list, nothing outstanding |
| Virtq.Virtqueue.AddBuf | src/hal/virtio/virtq.c:143-195 | refused exactly when too few descriptors are free; otherwise one more request with the buffers asked for, its chain off the free list, published without overwriting an unread entry; a call without buffers takes one descriptor and publishes an empty buffer at address 0 |
| Virtq.DescribesThem | src/hal/virtio/virtq.c:143-195 | what is published are the buffers asked for if and only if there is one |
| Virtq.NoBuffers | src/hal/virtio/virtq.c:143-195 | on a queue that has been used, a call without buffers publishes an empty buffer at address 0 and uses up a descriptor |
| Virtq.BlankRest | src/hal/virtio/virtq.c:123-131 | freed descriptors are zeroed, and building a chain leaves the free ones so |
| Virtq.Virtqueue.BuildChain | src/hal/virtio/virtq.c:154-185 | the chain holds the buffers in order with the right flags |
| Virtq.Virtqueue.GetBuf | src/hal/virtio/virtq.c:203-236 | nothing exactly when nothing is completed; otherwise the token of the oldest completed request and the length the device gave for it; its descriptors are free again |
| Virtq.Virtqueue.TakeOldest | src/hal/virtio/virtq.c:214-231 | token and length of the oldest completion; the freed chain goes back to the free list, every other chain stays |
| Virtq.Virtqueue.HasBuf | src/hal/virtio/virtq.c:243-247 | true exactly when something completed has not been taken, across index wrap |
| Virtq.Virtqueue.AllocDesc | src/hal/virtio/virtq.c:105-116 | the head of the free list |
| Virtq.Virtqueue.FreeDesc | src/hal/virtio/virtq.c:123-131 | the descriptor goes to the head of the free list |
| Virtq.Virtqueue.DeviceFetch | src/hal/virtio/virtq.c:187-190 | the device reads the next published head, never an overwritten one |
| Virtq.Virtqueue.DeviceComplete | src/hal/virtio/virtq.c:207-218 | a fetched request completes in any order, with any length, without overwriting an unread used entry |
| Virtq.Virtqueue.DeviceRead | src/hal/virtio/virtq.c:158-183 | following the chain from a head in flight gives the buffers of that request, in order |
| Virtq.EndToEnd | src/hal/virtio/virtq.c:143-236 | one request on a new queue: the device finds the first buffers to read and the others to write, and the driver gets back the token and the length the device gave |
| Virtq.Virtqueue.ExactlyOnce | src/hal/virtio/virtq.c:143-236 | in every reachable state no request is returned twice or queued to be returned again, none is returned that the device has not fetched, and when all descriptors are free all have been returned |
| Virtq.Virtqueue.OneOwner | src/hal/virtio/virtq.c:105-236 | in every reachable state each descriptor is on the num_free-long free list or in exactly one outstanding chain |
| VirtqState.OutstandingBound | src/hal/virtio/virtq.c:143-195 | outstanding requests and free descriptors together never exceed the queue size |
| VirtqState.SlotOfIndex | src/hal/virtio/virtq.c:187-190 | the 16-bit index modulo the size is the unbounded index modulo the size |
| VirtqState.SlotsNeedDivisor | src/hal/virtio/virtq.c:187-190 | the 16-bit index picks the right slot for every count of requests if and only if the queue size divides 2^16 |
| VirtqState.SlotsDiffer | src/hal/virtio/virtq.c:187-190 | indices less than a queue apart use different slots |
| VirtqState.AvailAdd | src/hal/virtio/virtq.c:187-190 | a new available entry leaves the unread ones |
| VirtqState.UsedAdd | src/hal/virtio/virtq.c:214-218 | a new used entry leaves the unread ones, with their lengths |
| VirtqState.TakeOwned | src/hal/virtio/virtq.c:154-185 | every descriptor is free or in exactly one chain after taking one |
| VirtqState.GiveOwned | src/hal/virtio/virtq.c:223-229 | and after giving one back |
| FutexState.ThreadJoin | src/syscall/syscall.c:738-749 | over every run: a thread clears its mapped word, wakes, and nobody touches the word from then on; then the word is 0 throughout, and from the wake-all on nobody of that space sleeps on it expecting anything else |
| FutexState.JoinAfterExit | src/syscall/syscall.c:719-756 | over every run: a thread that called exit, with a mapped word nobody touches from then on, is dead only when the word is 0 and nobody of that space sleeps on it expecting anything else |
| FutexState.ExitOrder | src/syscall/syscall.c:738-756 | over every run: after a call of exit with a word to clear, a thread clears it, then wakes, then dies, each before the next |
| FutexState.ExitStep | src/syscall/syscall.c:738-756 | an exit goes on by its own steps only, and a dead process takes none |
| FutexState.ExitStarts | src/syscall/syscall.c:719-738 | a call of exit leads to the clearing of the word if there is one |
| FutexState.WordAfter | src/syscall/syscall.c:745-746 | in every step a word changes only by a store or unmapping in its space, to what is stored or to none, or by the clearing of an exiting thread, to 0 |
| FutexState.StaysZero | src/syscall/syscall.c:745-746 | over every run: a word that is 0 stays so while user code does not touch it |
| FutexState.OnlyItself | src/task/sched.c:34-124 | what a process does, its space and its word to clear change by its own steps only |
| FutexState.DeadForever | src/syscall/syscall.c:751-754 | over every run: a zombie stays as it is |
| FutexState.StaysQuiet | src/syscall/syscall.c:3577-3616 | a word on which nobody waits for another value stays so while its value stays |
| FutexState.StepQuiet | src/syscall/syscall.c:3577-3616 | any step of any process that leaves the word alone keeps that; the check and the enqueue are one step |
| FutexState.WakeAllWakes | src/sync/wait.c:65-95 | a wake-all leaves nobody asleep on the address; each is runnable and queued |
| FutexState.StepKeeps | src/task/sched.c:34-124 | every step keeps: runnable exactly if on the run queue, asleep exactly if on one wait queue, each at most once, only the current process running |
| FutexState.RunKeeps | src/task/sched.c:34-124 | so does every run |
| FutexState.MovesUp | src/task/sched.c:67-124 | in one step a runnable process keeps its place; a switch moves it up by one or gives it the CPU |
| FutexState.KeepsItsTurn | src/task/sched.c:67-124 | over every run: after k switches, k not above its place n, a runnable process is at place n - k |
| FutexState.RunsAtItsTurn | src/task/sched.c:67-124 | over every run: the process at place n has the CPU right after the (n + 1)-th switch |
| FutexState.BoundedWaiting | src/task/sched.c:67-124 | every stretch of a run with n + 1 switches has a state, at the (n + 1)-th switch at the latest, in which the process that was at place n is running |
| FutexState.ChosenSplit | src/sync/wait.c:75-88 | the queue is split without loss into the first nr waiters of the address and the rest |
| FutexState.ChosenIff | src/sync/wait.c:75-88 | a waiter is chosen if and only if fewer than nr waiters on the same address, of whatever space, are ahead of it |
| FutexState.WakeReaches | src/sync/wait.c:65-95 | such a sleeper becomes runnable and queued; every other stays as it is |
| FutexState.UsedUp | src/syscall/syscall.c:3612-3623 | a run in which a process changes its word and wakes one: the sleeper of another space wakes, that of its own sleeps on |
| Futex.Kernel.WakeupAddr | src/sync/wait.c:65-95 | the loop wakes exactly the first nr waiters of the address, in order |
| Futex.Kernel.Wakeup | src/sync/wait.c:23-46 | the first nr of the queue, or all |
| Futex.Kernel.SchedYield | src/task/sched.c:67-124 | the running process goes to the end, the head of the queue runs, or the idle process; the branch that resumes the old process is unreachable |
| Futex.Kernel.QueueSleep | src/sync/wait.c:13-21 | joining a queue and sleeping is one step |
| Futex.Kernel.FutexWait | src/syscall/syscall.c:3586-3598 | EFAULT, EAGAIN or asleep on the word and last in its bucket, exactly by its value; otherwise back in user code |
| Futex.Kernel.FutexResume | src/syscall/syscall.c:3600-3611 | after the switch back: EFAULT, done, or around again, in user code or before the next check accordingly |
| Futex.Kernel.FutexCall | src/syscall/syscall.c:3564-3614 | EINVAL exactly for an unaligned address, nothing for a wake of none, otherwise the call goes on with its address and value |
| Futex.Kernel.FutexWake | src/syscall/syscall.c:3612-3623 | the first nr waiters of the address are woken; their number is returned |
| Futex.Kernel.ExitBegin | src/syscall/syscall.c:719-738 | the futex address is dropped; with a word to clear the store is next |
| Futex.Kernel.ExitClearTid | src/syscall/syscall.c:738-747 | the word of the space becomes 0 if it is mapped, and no other word changes; the wake-all is next |
| Futex.Kernel.ExitDie | src/syscall/syscall.c:751 | the process is a zombie |
| Futex.Kernel.SetTidAddress | src/syscall/syscall.c:761-776 | the word to clear is set for the caller only |
| Futex.Kernel.StartProc | src/syscall/syscall.c:1194-1243 | a new process is runnable, last in the run queue, with the space and the word given |
| Futex.Kernel.QueueResume | src/sync/wait.c:13-21 | after the switch back the process goes on |
| Futex.Kernel.ExitWakeAll | src/syscall/syscall.c:133-141 | nobody is left asleep on the address |
| Futex.Kernel.DequeueProc | src/task/sched.c:49-62 | the head of the run queue, or nobody |
| Radix.RxTree.Insert | src/misc/radix_tree.c:131-133 | the map is updated at one key and the normal form kept; on failure the map is unchanged; a node is lost, neither in the tree nor freed, exactly when the insertion succeeds and its way down ended at the leaf of another key, and then exactly one |
| Radix.RxTree.Lookup | src/misc/radix_tree.c:141-157 | the value of the key, or none |
| Radix.RxTree.Delete | src/misc/radix_tree.c:216-218 | the key leaves the map; EINVAL exactly when it is absent; the nodes taken out are freed, and no others |
| Radix.RxTree.constructor | src/misc/radix_tree.c:49-51 | the empty map |
| Radix.ShapeDependsOnKeysOnly | src/misc/radix_tree.c:61-208 | two trees with the same keys have the same shape |
| Radix.InsertNode | src/misc/radix_tree.c:61-122 | the in-place recursion computes the insertion on trees, touching only its own nodes; memory is balanced up to the one lost leaf; a failure frees all it allocated |
| Radix.SplitLeaf | src/misc/radix_tree.c:76-113 | splitting a leaf, in both branches; a leaf is always lost, and it is the old one exactly when the two keys differ in the next digit |
| Radix.SplitBelow | src/misc/radix_tree.c:86-99 | the branch of equal digits: both keys go below, the parent is freed |
| Radix.TwoLeaves | src/misc/radix_tree.c:100-111 | the branch of different digits: the parent gets two leaves; failing, it is freed with what it has |
| Radix.NodeFree | src/misc/radix_tree.c:31-43 | every node of the tree is freed, each once |
| Radix.RxTree.Free | src/misc/radix_tree.c:224-227 | the nodes left are exactly those lost before |
| Radix.TwoKeysThenFree | src/misc/radix_tree.c:61-227 | two keys inserted and the tree freed leave exactly one node allocated |
| Radix.LookupFrom | src/misc/radix_tree.c:145-156 | the loop finds what the tree contains |
| Radix.DeleteNode | src/misc/radix_tree.c:166-208 | the in-place recursion computes the deletion with its collapse and frees what it takes out |
| RadixSpec.SameKeysSameShape | src/misc/radix_tree.c:61-208 | normal-form trees with equal key sets have equal shapes, and are equal if their contents are |
| RadixSpec.InsertCorrect | src/misc/radix_tree.c:61-122 | insertion updates the map and keeps the normal form |
| RadixSpec.DeleteCorrect | src/misc/radix_tree.c:166-208 | deletion removes the key and restores the normal form |
| RadixSpec.LookupCorrect | src/misc/radix_tree.c:141-157 | lookup is the map |
| RadixSpec.InsertCommutes | src/misc/radix_tree.c:61-122 | insertion order leaves no trace |
| RadixSpec.InsertThenDelete | src/misc/radix_tree.c:61-208 | a deleted key leaves no trace |
| RadixSpec.DepthBounded | src/misc/radix_tree.c:81-82 | no path is deeper than 32 levels, so every shift is in range |
| Sha2.Sha256.Update | src/misc/sha2.c:235-264 | the context stands for the message so far, whatever the chunks |
| Sha2.Sha256.Final | src/misc/sha2.c:272-306 | the digest of the message padded as section 5.1.1 of FIPS 180-4 says |
| Sha2.Sha512.Update | src/misc/sha2.c:359-391 | the same for SHA-512, with the 128-bit length |
| Sha2.Sha512.Final | src/misc/sha2.c:399-446 | the digest of the message padded as section 5.1.2 of FIPS 180-4 says |
| Sha2.Stream256 | src/misc/sha2.c:235-306 | any split into updates followed by final equals folding the block function over the padded message |
| Sha2.Stream512 | src/misc/sha2.c:359-446 | the same for SHA-512 |
| Sha2.Absorb | src/misc/sha2.c:235-264 | buffering and whole blocks together fold the block function over the bytes so far |
| Sha2.Finish | src/misc/sha2.c:272-306 | one or two last blocks complete the padding |
| Sha2.Carry | src/misc/sha2.c:365-368 | the two-word bit count with its carry is the 128-bit sum |
| Sha2.Length256 | src/misc/sha2.c:288-295 | the eight length bytes are the bit length, big endian |
| Sha2.Length512 | src/misc/sha2.c:416-431 | the sixteen length bytes are the bit length, big endian |
| Sha2.PadAligned | src/misc/sha2.c:272-306 | padding ends on a block boundary with the fewest zeros |
| Sha2.LengthFieldExact | src/misc/sha2.c:288-295 | within the lengths the standard allows the field is exact |
| Sha2.PadIs | src/misc/sha2.c:272-297 | the padded message byte by byte: the message, 0x80, fewer zeros than a block, and in the last bytes the digits of the bit length, most significant first, modulo what they hold; whole blocks |
| Sha2.DigestAt | src/misc/sha2.c:299-305 | word k of the state stands at its place in the digest, most significant byte first |
| FdTable.Files.Dup | src/syscall/syscall.c:2320-2346 | the lowest free slot holds the same file, all else unchanged, no reference left over; it fails exactly when oldfd is not open (EBADF) or no slot can be had (EMFILE), and then changes nothing |
| FdTable.Files.Dup3 | src/syscall/syscall.c:2348-2397 | newfd gives up what it held and holds the file of oldfd; exactly when each error is returned; on failure only the table may have grown |
| FdTable.Files.DupFrom | src/syscall/syscall.c:2519-2553 | the lowest free slot from the argument on, without growing the table; EBADF exactly when fd is not open, else EMFILE exactly when there is no such slot |
| FdTable.Files.FdAlloc | src/fs/fd_table.c:104-148 | the lowest empty slot, doubling the table up to its limit; fails exactly when none is empty and the table cannot grow |
| FdTable.Files.GrowFor | src/syscall/syscall.c:2357-2381 | the table grows to hold newfd; EBADF exactly from 1024 on, ENOMEM exactly when it would have to grow without memory |
| FdTable.Files.FdFree | src/fs/fd_table.c:155-171 | the slot is emptied and its reference given up, releasing the file with the last one |
| FdTable.Files.FdGet | src/fs/fd_table.c:179-195 | the file of the slot with one more reference, or nothing |
| FdTable.Files.FdInstall | src/fs/fd_table.c:205-223 | the reference of the caller goes into the slot; each error exactly in its case |
| FdTable.Files.TableDup | src/fs/fd_table.c:70-96 | the first 32 descriptors are shared and later ones are not; the copy is whole if and only if nothing is open from 32 on |
| FdTable.LosesDescriptor | src/fs/fd_table.c:70-96 | open, dup3 to 32, copy the table: the copy has descriptor 0 and lacks 32 |
| FdTable.Files.TableFree | src/fs/fd_table.c:45-63 | every reference of the table is given up |
| FdTable.Files.TableAlloc | src/fs/fd_table.c:17-39 | 32 empty slots |
| FdTable.Files.FileAlloc | src/fs/file.c:38-62 | a new file with one reference |
| FdTable.Files.FileGet | src/fs/file.c:388-397 | one more reference |
| FdTable.Files.FilePut | src/fs/file.c:403-420 | one less; the last releases the file, exactly once |
| FdState.PutKeeps | src/fs/file.c:403-420 | every count stays the number of slots and borrowed references, and a file without any is released exactly once |
| FdState.InstallKeeps | src/fs/fd_table.c:205-223 | moving a reference into a slot keeps the counts |
| FdState.RemoveKeeps | src/fs/fd_table.c:155-171 | taking one out keeps the counts |
| FdState.SlotHeld | src/fs/fd_table.c:179-195 | no slot holds a released file |

## Left out

- Lz4.CompressGeneric: the memory at the destination exists as far as the scan writes, which is the capacity or the end of the header that does not fit; the end-of-block rules of the format are not claimed, since a match may run to the end of the input.
- Virtq.Virtqueue.AddBuf: a call without buffers needs a free descriptor; the write of the ring entry and of the index is one step.
- Virtq.Virtqueue.constructor: the size divides 2^16, since otherwise the 16-bit indices pick wrong slots (VirtqState.SlotsNeedDivisor), and is at most 32, the size of the token array.
- Uvm.UvmCopy: sz is at most 2^64 less a page, since the loop does not end beyond; the child's own user pages are allocated pages, one per entry.
- Uvm.FreeLevel: frames of user pages are assumed to be allocated pages, one per entry; mappings shared between address spaces are outside.
- Ext4File.Ext4.ReadData: reads of positions without a block go to block 0 of the device, as in the code.
- Ext4File.Ext4.WriteFile: positions are not bounded, so the overflow of loff_t is not modelled; kzalloc succeeds.
- Ext4File.Ext4.AllocBlock: the count of free blocks of a group is the number of clear bits that are searched and has 16 bits, as in a sound image; checksums are not modelled.
- Ext4Dir.Directory.AddEntry: whether a block can be appended is a parameter; Ext4File.Ext4.AppendBlock says when.
- Bcache.BlockCache.Get: user counts are unbounded.
- Futex.Kernel.SchedYield: one CPU, as CPU_NUM says; with more, a process could be resumed before it has left its first CPU.
- Lists.FindClear: the slab model keeps its bitmap unpacked; Bitmap.SearchesAgree joins it to the search on packed bytes.
- uvmalloc, uvmshare_tree, copyin, copyout and copyinstr: they would repeat the walk and copy results.
- ext4 extent maps, symbolic links, inode allocation and inode table bytes, and the i_blocks count.
- kmem_cache_flush and slab_destroy: nothing calls them.
- wait queues of parents and pipes beyond sleeping and waking, signals, sys_kill, CLONE_VM map propagation.
- Dentry, inode and path lookup caches, mount handling, pipes.
- MMIO, interrupt controller, timer, traps, assembly, device drivers and user programs.
