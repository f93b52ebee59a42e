# Verified models of the Tacos kernel

Tacos is a small RISC-V kernel, a Rust rework of Pintos. This project models the five parts of
it where correctness is hardest to see from the code, and proves what they promise:

1. the **buddy page allocator** whose free lists are threaded through the free pages themselves
   (`Bits.dfy`, `InMemList.dfy`, `BuddyBlocks.dfy`, `BuddyAllocator.dfy`);
2. the **slab heap** on top of it: size classes, arenas with headers in the same memory,
   accounting (`HeapArenas.dfy`, `HeapOwnership.dfy`, `Heap.dfy`, `KernelHeap.dfy`);
3. the **Sv39 page tables** (section 4.4 of the RISC-V Privileged Architecture), where user
   tables share the kernel's subtrees (`PageTable.dfy`, `Teardown.dfy`, `PrivateTables.dfy`, `AddressSpaces.dfy`);
4. the **disk file layer**: bitmap, contiguous extents, lazy shrink, growth in place or by
   relocation, chunked reads and writes (`FreeMap.dfy`, `DiskLayout.dfy`, `DiskFiles.dfy`);
5. the **thread manager** with its priority scheduler, semaphores, sleep locks, sleep queue and
   priority donation (`Scheduler.dfy`, `Threads.dfy`, `KernelSteps.dfy`, `Kernel.dfy`,
   `Donations.dfy`).

`dafny verify dfyconfig.toml` checks everything.

## How to read it

Each component has a mathematical part (values, predicates, lemmas) and an imperative part
(classes whose methods follow the source's loops and field updates). A class keeps an invariant
`Valid()` or `Inv()`; every method preserves it, so what follows from it holds in every reachable
state. The main results:

- **Buddy.** Free and live blocks always tile the range that was inserted, and free blocks are
  always exactly the maximal aligned free blocks. So a request fails only when no aligned run of
  free pages exists, and freeing everything restores the seeded blocks. The removal of the buddy
  in the merge loop works because the current block is always the list head, and writes inside
  live blocks never disturb a list.
- **Heap.** Live requests are aligned, large enough, in one page past the arena header, and
  disjoint, although headers, list links and client data share one memory. The counters and
  every header's free count are exact in every state.
- **Page tables.** The tree refines a flat map, `map` updates it exactly at the mapped pages, and
  it is stated exactly when a mapping in a clone is invisible to the kernel and the other clones.
  `destroy` returns each private table page and each user page once and leaves every other
  address space alone. Cloning, mapping and destroying gives back exactly the pages mapped and
  ends with the same tables and the same free pages.
- **Files.** Each file is a byte sequence. A write changes exactly the written range, also when
  the extent moves; all other files keep their bytes; inode sectors and extents stay disjoint and
  marked; close frees exactly the whole sectors of the lazily shrunk tail.
- **Threads.** In every run only the current thread runs, the queues hold exactly the ready
  threads, every blocked thread is on one wait list, no wake-up is lost, at most one thread is
  inside a sleep lock, sleepers wake in the tick they asked for, and a donation pass gives each
  thread reached the maximum priority of the recorded paths leading to it.

## Where the code does not do what one would expect

- `free_map.alloc` never tries the last start (`src/fs/disk/free_map.rs:83`): a run that ends at
  the end of the disk is missed (`FreeMaps.LastRunNeverTried`), and the contract of
  `FreeMaps.FreeMap.Alloc` says exactly when it fails. Its comment says that tested bits are
  skipped; each round of the `for` starts from its own counter, so they are tested again.
- `spilled_total` is documented as the pages used for spilled requests, but it counts the pages
  asked for (`src/mem/malloc.rs:168-170`), while the page allocator rounds up to a power of two:
  8193 bytes are counted with 16384 bytes and 3 pages (`HeapArenas.SpillUndercounted`). The
  counter is right exactly when every live spilled request asks for a power of two of pages, and
  then `allocated()` does not exceed `total()` (`KernelHeaps.Heap.AccountingExact`).
- The pointer for zero-sized requests is called well-aligned, but `dangling()` for bytes is
  address 1 (`src/mem/malloc.rs:152-153`, `KernelHeaps.DanglingMisaligned`). By the contract of
  `KernelHeaps.Heap.Alloc` a pointer is aligned exactly if the size is positive or the alignment 1.
- `write_at` and `resize` truncate the new length to 32 bits (`src/fs/disk/inode.rs:131`): writing
  one byte at 2^32 - 1 empties the file and writes nothing (`DiskFiles.WriteEmptiesFile`).
  `DiskFiles.WroteAll` says exactly when a write is complete.
- Closing a shrunk file can leave a sector marked that nobody owns: a file of 513 bytes shrunk to
  512 loses its second sector (`DiskLayout.SectorLost`); `DiskLayout.TailLost` is the condition.
- Growing the last file in place can reach past the disk and halt in an assertion of `get`
  instead of relocating (`src/fs/disk/free_map.rs:61,111`). `DiskFiles.DiskFs.Resize` says exactly
  when, and `DiskFiles.GrowthHaltsAtDiskEnd` gets there.
- A clone that maps pages through a slot the kernel uses writes into the kernel's table
  (`PageTables.SharedSlotLeaks`); `PageTables.IsolationExact` says exactly when isolation holds.
- After two donations, releasing both locks in reverse order restores the holder's priority if
  and only if the lock of the first donation has the smaller number, because only the smallest
  lock number is stored (`src/sync/sleep.rs:109-112`, `Donations.Donors.DonateTwice`).
- `Semaphore::up` asserts that the value was 0 when threads wait (`src/sync/sema.rs:68`); two ups
  before a woken thread runs break that (`Kernels.TwoUpsHalt`). `Kernels.Kernel.Up` halts exactly
  then, and never for sleep locks.

## Model

| member | source | states |
|---|---|---|
| `Bits.RoundUp` | src/mem/utils.rs:68-71 | the least multiple of the alignment that is not below the number |
| `Bits.RoundDown` | src/mem/utils.rs:73-76 | the greatest multiple of the alignment that is not above the number |
| `Bits.PrevPowerOfTwo` | src/mem/utils.rs:78-80 | the power of two with r <= n < 2r, and it is one |
| `Bits.TrailingZerosDivides` | src/mem/palloc.rs:44-48 | a word is a multiple of 2^k exactly when k is at most its trailing zeros |
| `Bits.XorSingleBit` | src/mem/palloc.rs:93 | exclusive or with one bit adds or subtracts that power of two |
| `InMemLists.ChainNeverRepeats` | src/mem/utils/list.rs:23-39 | a linked list that ends never visits a node twice, whatever the memory holds |
| `InMemLists.ChainUnique` | src/mem/utils/list.rs:5-39 | head and memory determine the list |
| `InMemLists.ChainUnlink` | src/mem/utils/list.rs:65-71 | redirecting the predecessor's word removes exactly that node |
| `InMemLists.InMemList.Push` | src/mem/utils/list.rs:23-26 | the list gets a new head, and one word of memory changes |
| `InMemLists.InMemList.Pop` | src/mem/utils/list.rs:29-39 | removes and returns the head; nothing when empty |
| `InMemLists.IterMut.Next` | src/mem/utils/list.rs:82-94 | yields the next node with the place of the pointer to it |
| `InMemLists.InMemList.Find` | src/mem/palloc.rs:95-97 | finds the node exactly when the address is in the list |
| `InMemLists.InMemList.Unlink` | src/mem/utils/list.rs:65-71 | removal at any position, head field included; only list words change |
| `BuddyBlocks.BuddyShape` | src/mem/palloc.rs:93-103 | the block at the XOR address and the block are the halves of one aligned block of twice the size |
| `BuddyBlocks.BuddyInvolution` | src/mem/palloc.rs:93 | a block is the buddy of its buddy, with the same parent |
| `BuddyBlocks.NestedOrDisjoint` | src/mem/palloc.rs:36-112 | two aligned blocks are nested or disjoint |
| `BuddyBlocks.GreedyIsCanonical` | src/mem/palloc.rs:41-53 | greedy seeding of any range leaves no two free buddies |
| `BuddyBlocks.FreeRunInOneBlock` | src/mem/palloc.rs:83-109 | without free buddies, an aligned free run lies in one free block |
| `BuddyBlocks.FreeBlocksAreMaximal` | src/mem/palloc.rs:83-109 | the free blocks are exactly the maximal aligned blocks of the free pages, both directions |
| `BuddyBlocks.CanonicalFormUnique` | src/mem/palloc.rs:83-109 | the free pages determine the free blocks |
| `BuddyBlocks.ServableIffFreeRun` | src/mem/palloc.rs:57-80 | a large enough free block exists exactly when an aligned free run does |
| `BuddyAllocators.OrderFor` | src/mem/palloc.rs:60 | the least order whose block holds n pages |
| `BuddyAllocators.BuddyAllocator.SeedOrder` | src/mem/palloc.rs:44-50 | the chosen block is aligned, fits, and no larger one would |
| `BuddyAllocators.BuddyAllocator.InsertRange` | src/mem/palloc.rs:36-54 | the free blocks tile the rounded range in canonical form |
| `BuddyAllocators.BuddyAllocator.SplitStep` | src/mem/palloc.rs:65-73 | splitting keeps the tiling, the left half becomes the list head, no live word changes |
| `BuddyAllocators.BuddyAllocator.FindFit` | src/mem/palloc.rs:61-63 | the first list at or above the order that is not empty: all lists from the order up to it are empty |
| `BuddyAllocators.BuddyAllocator.TakeFrom` | src/mem/palloc.rs:65-75 | the lowest part of that list's first block becomes live, each list below it gains the right half left behind, no other list changes; live words are kept |
| `BuddyAllocators.BuddyAllocator.Alloc` | src/mem/palloc.rs:57-80 | the head of the least list that is large enough and not empty is split, so no free block of a size in between existed, and its lowest part becomes live; "too large" exactly above 256 pages, "exhausted" exactly when no aligned run is free; live words are kept |
| `BuddyAllocators.BuddyAllocator.MergeStep` | src/mem/palloc.rs:91-108 | merges exactly when the buddy is free; the two removals take out exactly the buddy and the block |
| `BuddyAllocators.BuddyAllocator.Dealloc` | src/mem/palloc.rs:83-112 | the block is no longer live and the canonical tiling is restored; live words are kept |
| `BuddyAllocators.BuddyAllocator.LiveWritesHarmless` | src/mem/utils/list.rs:23-94 | writes inside live blocks disturb no list |
| `BuddyAllocators.BuddyAllocator.AllFreedRestoresSeed` | src/mem/palloc.rs:36-112 | with nothing live, the free blocks are the seeded ones |
| `BuddyAllocators.BuddyAllocator.Conservation` | src/mem/palloc.rs:36-112 | allocated pages and free bytes add up to `total` |
| `HeapArenas.ArenaFits` | src/mem/malloc.rs:41-80 | for every block size up to 1024 the blocks start past the header, are aligned and end within the page, though offset and count use the sizes of different structs |
| `HeapArenas.ArenaFull` | src/mem/malloc.rs:74 | one more block would not fit behind the size of a descriptor |
| `HeapArenas.FirstBlock` | src/mem/malloc.rs:48-51 | the first block is the first multiple of the block size behind the header |
| `HeapArenas.BlockSizes` | src/mem/malloc.rs:140-141 | the block sizes start at 8 and double |
| `HeapArenas.GetBlockIsBlock` | src/mem/malloc.rs:41-52 | each index below the count gives a block of the arena, one after the other |
| `HeapArenas.ClassFits` | src/mem/malloc.rs:160-165 | the chosen descriptor exists, its blocks are large enough and suit the alignment |
| `HeapArenas.RoundedLeast` | src/mem/malloc.rs:160 | the rounded size is the least power of two that is large enough and suits the alignment |
| `HeapArenas.ClassLeast` | src/mem/malloc.rs:160-165 | the chosen descriptor is the least whose blocks are large enough and suit the alignment |
| `HeapArenas.SpilledIff` | src/mem/malloc.rs:160-167 | exactly the requests beyond 1024 bytes or an alignment of 1024 go to the page allocator |
| `HeapArenas.PagesLeast` | src/mem/malloc.rs:168 | the pages of a request are the least number that holds it |
| `HeapArenas.SpillFits` | src/mem/malloc.rs:167-172 | the pages of a spilled request hold it, and its alignment divides the page size |
| `HeapArenas.SpillPages` | src/mem/malloc.rs:160-172 | the pages taken hold exactly the rounded size |
| `HeapArenas.SpillCountedExactly` | src/mem/malloc.rs:131-133 | the pages counted are the pages taken, and cover the bytes counted, exactly for a power of two of pages |
| `HeapOwnership.SpillTotalsExact` | src/mem/malloc.rs:131-133 | over all live spilled requests, the pages counted hold the bytes taken if and only if each asks for a power of two of pages; then they cover the bytes counted |
| `HeapArenas.SpillUndercounted` | src/mem/malloc.rs:167-172 | a request of 8193 bytes is counted with 16384 bytes and 3 pages |
| `HeapArenas.BlockTaken` | src/mem/malloc.rs:99-107 | handing out a block keeps all arenas and headers exact |
| `HeapArenas.BlockReturned` | src/mem/malloc.rs:112-119 | taking back a block keeps all arenas and headers exact |
| `HeapArenas.ArenaAdded` | src/mem/malloc.rs:84-97 | a page whose blocks are all free joins the arenas |
| `HeapOwnership.LiveBlockServes` | src/mem/malloc.rs:150-173 | a live block is aligned and large enough as requested, small ones in one page past the header |
| `HeapOwnership.LiveBlocksDisjoint` | src/mem/malloc.rs:150-195 | two live requests share no byte |
| `HeapOwnership.AllocatedIsSum` | src/mem/malloc.rs:206-211 | the counters add up to what each live request is accounted with |
| `HeapOwnership.FootprintIs` | src/mem/malloc.rs:99-100 | a request is accounted with the block size of its descriptor, or with its rounded size |
| `Heaps.Desc.FromBlock` | src/mem/malloc.rs:31-38 | returns the arena of the block; none of its assertions fails |
| `Heaps.Desc.Fill` | src/mem/malloc.rs:90-93 | the free list holds exactly the blocks of the new page |
| `Heaps.Desc.AddArena` | src/mem/malloc.rs:84-97 | succeeds exactly when a page is free; the page gained is the block that became live; live words are kept |
| `Heaps.Desc.Take` | src/mem/malloc.rs:99-107 | the head of the free list becomes used, and only its page changes |
| `Heaps.Desc.Give` | src/mem/malloc.rs:112-119 | the block becomes the head of the free list, and only its page changes |
| `Heaps.Desc.Alloc` | src/mem/malloc.rs:83-107 | the head of the free list, after adding one arena exactly if it was empty; fails exactly when the list is empty and no page is free; everything live outside its pages is kept |
| `Heaps.Desc.Write` | src/mem/malloc.rs:60-67 | a client's write into a used block disturbs neither list nor header |
| `KernelHeaps.Heap.Alloc` | src/mem/malloc.rs:150-173 | each kind of answer exactly when it is due; a pointer is a multiple of the alignment exactly if the size is positive or the alignment 1; what is served was not live; an arena is added only when the free list was empty, a spilled request takes exactly its page block; all invariants are kept |
| `KernelHeaps.DanglingMisaligned` | src/mem/malloc.rs:151-154 | the pointer for zero-sized requests is no multiple of 8 |
| `KernelHeaps.Heap.Dealloc` | src/mem/malloc.rs:176-195 | exactly that request is no longer live, a spilled one returns exactly its page block, and all invariants are kept; null is ignored |
| `KernelHeaps.Heap.ClientStore` | src/mem/malloc.rs:122-134 | a client's write inside its request disturbs nothing |
| `KernelHeaps.Heap.Free` | src/mem/malloc.rs:198-203 | all blocks of all arenas that are not live, in bytes |
| `KernelHeaps.Heap.Allocated` | src/mem/malloc.rs:206-211 | the sum over all live requests of the bytes each is accounted with |
| `KernelHeaps.Heap.Total` | src/mem/malloc.rs:214-219 | the pages of all arenas and those asked for by live spilled requests |
| `KernelHeaps.Heap.HeapSafe` | src/mem/malloc.rs:55-59 | in every state: aligned, large enough, past the header, pairwise disjoint |
| `KernelHeaps.Heap.ArenaHeaderExact` | src/mem/malloc.rs:16-27 | in every state each header counts the free blocks of its page, and the rest are live |
| `KernelHeaps.Heap.AccountingExact` | src/mem/malloc.rs:131-133 | in every state `spilled_total` is right exactly when each live spilled request is for a power of two of pages; then `allocated` is at most `total` |
| `KernelHeaps.ArenaBytesFit` | src/mem/malloc.rs:213-219 | the blocks of the arenas never exceed the pages counted for them |
| `PageEntries.FlagBits` | src/mem/pagetable/entry.rs:15-27 | valid is bit 0, global bit 5, and a leaf any of bits 1 to 3, as arithmetic on the word |
| `PageEntries.EntryRoundTrip` | src/mem/pagetable/entry.rs:37-97 | the address and each of the eight flags of an entry give back what it was made of; it is a leaf exactly when R, W or X was given |
| `PageTables.PageNumber` | src/mem/pagetable.rs:158-164 | the three indices are the digits of the page number in base 512 |
| `PageTables.WrittenOnce` | src/mem/pagetable.rs:158-164 | across all crossings of tables, the pages of a range of up to 2^27 pages have different indices |
| `PageTables.WalkAfterLink` | src/mem/pagetable.rs:139-156 | a new table changes one walk and no other |
| `PageTables.LinkMiddle` | src/mem/pagetable.rs:146-156 | a new level-1 table changes no translation of any root |
| `PageTables.LinkBottom` | src/mem/pagetable.rs:146-156 | a new level-0 table changes no translation of any root |
| `PageTables.WriteLeaf` | src/mem/pagetable.rs:75 | a level-0 entry changes that page for exactly the roots that share the slot |
| `PageTables.MappedRange` | src/mem/pagetable.rs:66-79 | pages of the range get their address and flags, all others keep their translation |
| `PageTables.IsolationExact` | src/mem/pagetable.rs:66-79 | a clone's mapping is invisible to all others if and only if, in slots shared with the kernel, it repeats the kernel's translations |
| `PageTables.CloneIsolation` | src/mem/pagetable.rs:14-20 | through slots that are empty in the kernel table it is always invisible |
| `PageTables.SharedSlotLeaks` | src/mem/pagetable.rs:146-156 | a clone mapping a page through a slot of the kernel changes the kernel's translation |
| `PageTables.CloneRoot` | src/mem/pagetable.rs:176-180 | a clone translates as the kernel does, and nobody else changes |
| `AddressSpaces.AddressSpaces.constructor` | src/mem/pagetable.rs:112-122 | a new kernel table translates nothing |
| `AddressSpaces.AddressSpaces.WalkOrCreate` | src/mem/pagetable.rs:146-156 | fails exactly when a table is missing and memory is out; else links exactly one new table or none; no translation changes |
| `AddressSpaces.AddressSpaces.MapPage` | src/mem/pagetable.rs:73-75 | one page of `map`: fails exactly when more tables are missing than pages are left; the flat map changes at that page for the roots sharing the slot; what a clone owns stays exact |
| `AddressSpaces.AddressSpaces.Map` | src/mem/pagetable.rs:66-79 | every root's flat map is the old one updated by the mapped range; page j of it has the address pa plus j pages and exactly the given flags; stops early exactly when no page is left for a missing table |
| `AddressSpaces.AddressSpaces.Clone` | src/mem/pagetable.rs:176-180 | a new root with the kernel's translations |
| `AddressSpaces.AddressSpaces.DestroyImp` | src/mem/pagetable.rs:92-107 | the loop over the entries returns what the recursive definition collects |
| `Teardown.DestroyReturnsPrivate` | src/mem/pagetable.rs:92-107 | completes exactly when no level-0 entry points further down; returns exactly the private tables and user pages |
| `Teardown.TablesReturnedOnce` | src/mem/pagetable.rs:92-107 | no table page is returned twice |
| `Teardown.UsersReturnedOnce` | src/mem/pagetable.rs:92-107 | no user page is returned twice when its leaves are apart |
| `Teardown.RootApart` | src/mem/pagetable.rs:91-109 | the private tables of every root form a tree |
| `Teardown.InjectiveUsersApart` | src/mem/pagetable.rs:91-109 | injectively mapped leaves are apart |
| `Teardown.DepthIffLeaves` | src/mem/pagetable.rs:100-104 | recursion stays above level 0 exactly when all private level-0 entries are leaves |
| `Teardown.SharedTablesStay` | src/mem/pagetable.rs:97 | no table of another root or behind a global entry is returned |
| `Teardown.DestroyKeepsOthers` | src/mem/pagetable.rs:91-109 | all other roots keep their translations without the returned pages |
| `AddressSpaces.AddressSpaces.Destroy` | src/mem/pagetable.rs:91-109 | returns each private table page and each user page exactly once; all other address spaces keep their translations |
| `PrivateTables.PrivateIsOwned` | src/mem/pagetable.rs:95-106 | the tables returned are the root and those linked through slots the kernel leaves empty |
| `PrivateTables.OwnLeaf` | src/mem/pagetable.rs:97-101 | the entries whose pages are returned are the non-global translations in such slots |
| `AddressSpaces.AddressSpaces.CloneMapDestroy` | src/mem/pagetable.rs:66-180 | a clone with any non-global readable, writable or executable pages in its own slots can be destroyed: exactly the pages mapped come back, once each; tables, free pages and other address spaces are as before |
| `FreeMaps.BitAfterSet` | src/fs/disk/free_map.rs:65-68 | setting a bit sets that sector and no other |
| `FreeMaps.BitAfterReset` | src/fs/disk/free_map.rs:70-73 | clearing a bit clears that sector and no other |
| `FreeMaps.MaskValues` | src/fs/disk/free_map.rs:62 | bit s % 8 of a byte counts from the lowest |
| `FreeMaps.FreeMap.Get` | src/fs/disk/free_map.rs:60-63 | whether the sector is in the set of marked sectors |
| `FreeMaps.FreeMap.Set` | src/fs/disk/free_map.rs:65-68 | adds the sector to the marked ones |
| `FreeMaps.FreeMap.Reset` | src/fs/disk/free_map.rs:70-73 | removes the sector from the marked ones |
| `FreeMaps.FreeMap.Alloc` | src/fs/disk/free_map.rs:76-103 | marks exactly the first free run that starts below size - cnt; fails, without change, exactly when there is none |
| `FreeMaps.LastRunNeverTried` | src/fs/disk/free_map.rs:83 | with 4 sectors and the first 2 marked, the free run of 2 is not found |
| `FreeMaps.FreeMap.InPlaceAlloc` | src/fs/disk/free_map.rs:106-121 | granted, refused and halted exactly when the sectors are free, in use, or past the end |
| `FreeMaps.FreeMap.Dealloc` | src/fs/disk/free_map.rs:124-131 | clears the marked sectors up to the first one that is not marked; halts exactly when it runs past the end |
| `DiskLayout.InodeRoundTrip` | src/fs/disk/inode.rs:21-38 | an inode sector gives back start, length and magic |
| `DiskLayout.InodeBytes` | src/fs/disk/inode.rs:16-38 | every byte of an inode sector's three little-endian words |
| `DiskLayout.ContentAt` | src/fs/disk/inode.rs:217-218 | byte r of the i-th sector is byte 512 i + r of the file |
| `DiskLayout.NewExtent` | src/fs/disk/inode.rs:130-191 | when an extent of fresh or own sectors replaces a file's, ownership holds, other files keep their bytes, and the common prefix is kept |
| `DiskLayout.MovedExtent` | src/fs/disk/inode.rs:174-187 | the same for relocation: copy, mark the new run, free the old |
| `DiskLayout.RebookedMoved` | src/fs/disk/inode.rs:174-186 | after relocation the marks of the old extent are gone and those of the new one are there, no other changed |
| `DiskLayout.PatchMore` | src/fs/disk/inode.rs:279-314 | one more chunk extends the written range and touches nothing else |
| `DiskLayout.PatchedContent` | src/fs/disk/inode.rs:279-314 | the written chunks make up the overwritten byte sequence |
| `DiskLayout.AddFile` | src/fs/disk/inode.rs:79-102 | a new inode with fresh sectors keeps ownership and all other files |
| `DiskLayout.TailBounds` | src/fs/disk/inode.rs:328-337 | kept sectors plus the freed tail are within the extent and miss at most one sector |
| `DiskLayout.TailLost` | src/fs/disk/inode.rs:328-337 | one sector of the tail is missed exactly if the bytes left in the last kept sector are fewer than those beyond the tail's whole sectors |
| `DiskLayout.SectorLost` | src/fs/disk/inode.rs:328-337 | 513 bytes shrunk to 512 keep a second sector that close does not free |
| `DiskLayout.TrimFile` | src/fs/disk/inode.rs:328-338 | freeing the tail keeps ownership, the file's bytes and all others |
| `DiskLayout.DropFile` | src/fs/disk/inode.rs:339-348 | removing a file keeps ownership and all other files |
| `DiskFiles.DiskFs.Resize` | src/fs/disk/inode.rs:319-323 | for every size, truncated to 32 bits: what `ResizeTo` states |
| `DiskFiles.DiskFs.ResizeTo` | src/fs/disk/inode.rs:130-191 | the new length with the common prefix kept, lazily kept bytes counted, the start kept or the first run that fits, and exactly the old extent's marks replaced by the new one's, so no sector is leaked or freed twice; "no space" and the halt exactly when; on failure nothing changes; other files keep their bytes |
| `DiskFiles.GrowthHaltsAtDiskEnd` | src/fs/disk/inode.rs:166-172 | a run of calls on a disk of 4 sectors that ends in the halt |
| `DiskFiles.DiskFs.GrowInPlace` | src/fs/disk/inode.rs:166-172 | keeps the start and takes exactly the sectors behind the extent; refused and halted exactly when |
| `DiskFiles.DiskFs.Relocate` | src/fs/disk/inode.rs:174-187 | moves to the first free run with all bytes kept, or fails without change |
| `DiskFiles.DiskFs.CopySectors` | src/fs/disk/inode.rs:178-182 | the sectors are copied and no other changes |
| `DiskFiles.DiskFs.ReadChunk` | src/fs/disk/inode.rs:227-245 | the direct and the bounce-buffer branch both store the chunk's bytes |
| `DiskFiles.DiskFs.ReadLoop` | src/fs/disk/inode.rs:215-251 | the loop fills the buffer with the slice of the file's bytes |
| `DiskFiles.DiskFs.ReadAt` | src/fs/disk/inode.rs:203-254 | returns the number of bytes left, at most the buffer's, and exactly that slice; the rest of the buffer is kept |
| `DiskFiles.DiskFs.WriteChunk` | src/fs/disk/inode.rs:290-309 | both branches put the chunk into its sector and keep the sector's other bytes |
| `DiskFiles.DiskFs.WriteLoop` | src/fs/disk/inode.rs:279-314 | the buffer is written chunk by chunk, as far as the length allows |
| `DiskFiles.DiskFs.WriteAt` | src/fs/disk/inode.rs:256-317 | denied exactly when writes are denied, no space and the halt exactly when growing meets them, and then nothing changes; else the bytes written, the new length, all old bytes outside kept, the tags kept, the shrunk tail used first, no sector leaked, other files unchanged |
| `DiskFiles.WroteAll` | src/fs/disk/inode.rs:272-274 | the new length is the maximum, and all bytes are written, exactly if the write ends below 2^32 |
| `DiskFiles.WriteEmptiesFile` | src/fs/disk/inode.rs:131 | a byte written at 2^32 - 1 makes the length 0 and is not written |
| `DiskFiles.DiskFs.WriteThenRead` | src/fs/disk/inode.rs:203-317 | reading back a written range gives what was written |
| `DiskFiles.DiskFs.CreateInode` | src/fs/disk/inode.rs:79-102 | a new file of zeros; all other files are unchanged |
| `DiskFiles.DiskFs.CreateFile` | src/fs/disk.rs:151-158 | a new empty file on the first free sector; fails exactly when no sector is found |
| `DiskFiles.DiskFs.OpenInode` | src/fs/disk/inode.rs:109-128 | opens exactly sectors with the magic, with the recorded start and length |
| `DiskFiles.DiskFs.MarkRemoved` | src/fs/disk/inode.rs:71-73 | only the removal tag changes |
| `DiskFiles.DiskFs.Close` | src/fs/disk/inode.rs:325-349 | frees exactly the whole sectors of the shrunk tail, and all of a removed file; exactly when a sector of the tail stays marked |
| `Schedulers.UpdateConserves` | src/thread/scheduler/priority.rs:78-91 | no thread is lost or doubled, each is in the queue of its priority |
| `Schedulers.KeepOrder` | src/thread/scheduler/priority.rs:80-85 | threads that stay in a queue keep their order |
| `Schedulers.SettledStays` | src/thread/scheduler/priority.rs:78-91 | if no priority changed, the queues stay as they are |
| `Schedulers.UpdatedParts` | src/thread/scheduler/priority.rs:80-89 | threads that move into a queue stand behind those that were in it |
| `Schedulers.PriorityScheduler.Register` | src/thread/scheduler/priority.rs:21-29 | one more occurrence, at the front of the queue of its priority |
| `Schedulers.PriorityScheduler.Drain` | src/thread/scheduler/priority.rs:80-89 | one queue keeps its own threads in order and passes on the others in order |
| `Schedulers.PriorityScheduler.UpdatePriority` | src/thread/scheduler/priority.rs:78-91 | all queues: those that did not move stay in order, before those that moved in |
| `Schedulers.PriorityScheduler.Schedule` | src/thread/scheduler/priority.rs:31-74 | a maximum-priority thread, or none exactly when the queues are empty or the running thread strictly outranks them all |
| `Schedulers.PriorityScheduler.FirstComeFirstServed` | src/thread/scheduler/priority.rs:21-74 | of two threads of one priority the one registered first is chosen |
| `Threads.SomebodyIsReady` | src/thread/manager.rs:86-90 | if the current thread cannot run on, the idle thread is queued |
| `Threads.SwitchedOk` | src/thread/manager.rs:96-155 | a switch keeps the status and queue invariants |
| `KernelSteps.RescheduledMeans` | src/thread/manager.rs:96-155 | a reschedule keeps all priorities and all other threads, and parks the previous thread by its status |
| `Threads.TopAfterSwitch` | src/thread/manager.rs:81-131 | after scheduling, no ready thread outranks the running one |
| `Threads.WaitOnSema` | src/sync/sema.rs:40-47 | joining the waiters keeps wait lists and semaphore counts |
| `Threads.CompleteDown` | src/sync/sema.rs:48 | so does taking the value |
| `Threads.UpWakes` | src/sync/sema.rs:57-72 | so does raising the value and waking one waiter |
| `Threads.NoLostWakeUp` | src/sync/sema.rs:36-97 | while threads wait and the value is positive, one inside `down` is ready or running |
| `Threads.MutualExclusion` | src/sync/sleep.rs:74-143 | two threads between acquire and release of one lock are the same |
| `Threads.AwakenDue` | src/sbi/timer.rs:55-64 | waking a due sleeper takes out none of those who sleep on |
| `Kernels.Kernel.constructor` | src/thread/manager.rs:29-61 | the initial and the idle thread satisfy the invariant |
| `Kernels.Kernel.Schedule` | src/thread/manager.rs:81-162 | keeps the invariant; the current thread runs on exactly if it is running and strictly outranks all ready ones, else a ready thread of top priority runs; "no thread is ready", the status assertion and the unreachable case never fire |
| `Kernels.Kernel.SwitchTo` | src/thread/manager.rs:103-155 | the next thread runs and the previous one is parked by its status |
| `Kernels.Kernel.Spawn` | src/thread/imp.rs:218-229 | a new ready thread with a new id, and then a reschedule; top priority runs |
| `Kernels.Kernel.Exit` | src/thread.rs:44-57 | the thread is gone; that it never returns is `Kernels.Kernel.Run` with `Threads.GoneForGood` |
| `Kernels.Kernel.Block` | src/thread.rs:61-69 | the thread is blocked and another one runs |
| `Kernels.Kernel.SetPriority` | src/thread.rs:84-90 | the current thread has the new priority, which is remembered, and then a reschedule; top priority runs |
| `Kernels.Kernel.Down` | src/sync/sema.rs:36-52 | one round of `down`: completes exactly when the value is positive and is then counted, else the thread waits |
| `Kernels.Kernel.MaxWaiter` | src/sync/sema.rs:99-111 | the last waiter of maximum priority, with its priority |
| `Kernels.Kernel.Up` | src/sync/sema.rs:55-97 | halts exactly when threads wait and the value is positive, never for a sleep lock; else the value and the count of ups rise, the chosen waiter becomes ready, and the caller gives way exactly if that one outranks it |
| `Kernels.Kernel.TakeHolder` | src/sync/sleep.rs:83 | the holder is the one thread inside |
| `Kernels.Kernel.DropHolder` | src/sync/sleep.rs:89-92 | the assertion holds exactly when the caller is the holder |
| `Kernels.Kernel.Sleep` | src/thread.rs:100-121 | nothing for non-positive ticks; else the thread is asleep until now + ticks |
| `Kernels.Kernel.Earliest` | src/sleepq.rs:18-22 | the entry with the least wake time |
| `Kernels.Kernel.Tick` | src/sbi/timer.rs:41-68 | exactly the sleepers whose time is the new tick become ready; the rest sleep on, in the future |
| `Kernels.Kernel.WakeOne` | src/thread.rs:73-81 | the sleeper was blocked, becomes ready and is queued |
| `Threads.GoneForGood` | src/thread/manager.rs:145-148 | a thread that is gone stays gone wherever ids only grow |
| `Kernels.TwoUpsHalt` | src/sync/sema.rs:55-72 | a run of calls in which two threads wait and two ups end in the halt |
| `Kernels.Kernel.TakeStep` | src/thread/manager.rs:81-162 | every step keeps the invariant and has exactly its effect on every part of the state (`KernelSteps.StepTo`): a sleep queues the thread until now + ticks and blocks it, an exit removes it, a spawn adds a ready thread, and so on; it halts only in the two assertions named above |
| `Kernels.Kernel.Run` | src/thread/manager.rs:81-162 | after every run: the states follow each other by exactly the given steps; the invariant; each sleeper of the first state is still asleep exactly until its time; no thread that was gone is back; initial values of semaphores are kept and their counts have not fallen |
| `Donations.AcyclicDescends` | src/thread/imp.rs:76-84 | edges without a cycle can be ranked so that each descends |
| `Donations.DescendsAcyclic` | src/thread/imp.rs:76-84 | and edges that descend have no cycle |
| `Donations.EdgesMean` | src/thread/imp.rs:79 | an edge is a donation made by the thread itself, for another lock |
| `Donations.Donors.DonationWrapped` | src/sync/sleep.rs:44-71 | the acceptor never stays below the donor; a donation is recorded on both sides with both old priorities exactly when it raises; edges for other locks stay |
| `Donations.Donors.FindAndDonate` | src/thread/imp.rs:76-84 | terminates on ranked edges and passes the priority along all of them |
| `Donations.PassMaximum` | src/sync/sleep.rs:74-80 | each thread reached has the maximum old priority of the paths leading to it; nobody else changes |
| `Donations.Donors.AcquirePass` | src/sync/sleep.rs:74-80 | the same for the pass of `acquire`, for recorded edges without a cycle |
| `Donations.Donors.DeleteDonation` | src/thread/imp.rs:86-96 | returns the first entry for the lock, if any, and removes exactly all of them |
| `Donations.ForgottenEntries` | src/sync/sleep.rs:97-106 | exactly the entries tying donor and holder to each other, or the donor to the lock, are gone |
| `Donations.Donors.ReleasePriority` | src/sync/sleep.rs:94-138 | if the first entry for the lock is d, exactly the entries tying the two or naming the lock are gone, (lock, d's previous priority) is stored exactly if the stored lock was greater, and the priority is the maximum of the stored one and the remaining donations; without an entry nothing changes; a set priority wins; others keep theirs |
| `Donations.Donors.DonateAndRelease` | src/sync/sleep.rs:44-138 | a donation and its release give back exactly the old priority |
| `Donations.Donors.DonateTwice` | src/sync/sleep.rs:44-138 | of two donations the later release leaves the earlier donor's priority, and the second one restores the old priority if and only if its lock has the smaller number |
| `Donations.Donors.SetPriority` | src/thread.rs:84-90 | takes effect and is remembered; priorities stay queue indices |

## Left out

- Assembly, traps, PLIC, SBI, console, context-switch registers, satp and TLB; `switch` is an atomic change of the current thread.
- The VirtIO device and user-buffer translation: sectors are read and written as array elements, and buffers are kernel buffers.
- Machine words, counters and ids are unbounded numbers; overflow is not modelled.
- Kernel memory is word-addressed; overlapping unaligned words are not modelled.
- BuddyAllocators.BuddyAllocator.InsertRange: one insertion into an empty allocator, as the kernel does; several ranges in one allocator are not modelled.
- Other users of the page allocator between heap operations; their blocks may be live, but only the heap's own calls are modelled.
- KernelHeaps.Heap.Dealloc: zero-sized layouts are excluded, because the source would push the dangling pointer onto a free list.
- AddressSpaces.AddressSpaces.WalkOrCreate: links in the kernel root must carry the global flag, as all of the kernel's own do.
- AddressSpaces.AddressSpaces.MapPage: the same for mappings; table pages come from an abstract pool instead of the heap.
- AddressSpaces.AddressSpaces.Map: the same for ranges; misaligned addresses, which the source asserts against, are excluded.
- `get_pte` entries that are present but invalid, large pages, and clearing of the accessed and valid bits.
- DiskFiles.DiskFs.ResizeTo: bytes gained by growth are not cleared by the source and nothing is said about them.
- DiskFiles.DiskFs.OpenInode: a sector that still has the magic number but belongs to no file, such as the inode sector of a removed file, is excluded; one in-memory inode per number is a precondition; the root directory, its locking and the inode table are not modelled.
- DiskFiles.DiskFs.Close: the removal of the directory entry is not modelled.
- Flushing and loading the free map, formatting, and the counters of denied writers.
- Donations.Donors.ReleasePriority: it is not claimed that the base priority returns after the last release, because the source keeps the smallest lock ever released.
- Donations.Donors.AcquirePass: the calls to the scheduler inside the pass are left out, so the pass is one step.
- Donations.Donors.SetPriority: the reschedule between the two stores is left out here; `Kernels.Kernel.SetPriority` has it, and takes both stores as one step.
- Kernels.Kernel.Up: one step, without the gap between restoring interrupts and calling the scheduler.
- Kernels.Kernel.Sleep: queueing and blocking are one step, without the gap between restoring interrupts and blocking.
- Kernels.Kernel.Earliest: the binary heap of sleepers is a sequence searched for its minimum; the order among equal wake times is any.
- Kernels.Kernel.TakeStep: a donated priority is any priority in range, set in one step.
- Stack overflow checks, thread names, stacks and contexts.
- ELF loading, system calls, user processes, the in-memory file system, swap and tools: easy members, I/O or library calls.
