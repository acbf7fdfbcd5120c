# EarlnuxOS kernel: verified models

This project models parts of the EarlnuxOS kernel in Dafny and proves what they keep.  Each
component has a specification on values (`...Spec.dfy`) and, where the kernel updates state in
place, a class whose methods follow the code and are proved to take the steps of that
specification.  `Basics` holds what they share.  `dafny verify dfyconfig.toml` checks everything.

**Buddy page-frame allocator** (`Bits`, `Dyadic`, `FreeSets`, `PmmSpec`, `PmmLists`,
`PmmMoves`, `Pmm`).  `Pmm.Pmm` holds the descriptor array and the zones with their per-order
doubly linked lists.  Free blocks and outstanding allocations tile the managed frames in every
reachable state, and the merge rule makes the free set canonical: it is the set of maximal
natural blocks of the free frames.  Hence the free blocks do not depend on the order of frees,
freeing everything restores the first state, and an allocation fails only when no natural run
of that size is free in the two zones it may use.  The merge test reads flags and orders that
are stale inside blocks; `PmmMoves.MergeTestExact` shows that it is exact nevertheless.

**Two-level page tables** (`Paging`, `VmmSpec`, `CloneSpec`, `Vmm`), after section 4.3 of
volume 3A of the Intel SDM.  Physical memory is an array of 1024-word frames.  A directory
stands for a flat map from virtual pages to entries; mapping, unmapping, range mapping and
translation are an update, a delete, a bulk update and a lookup on it.  Cloning is a deep copy,
and clone followed by destroy gives the allocator back the identical state.

**RAM filesystem and VFS** (`Paths`, `Mounts`, `RamfsSpec`, `FileSpec`, `Ramfs`, `Namespace`,
`Vfs`).  Inodes form a tree with exact link counts; directories are lists of entries, newest
first, in which a name may occur twice.  Creating, unlinking and opening are related to what
every path resolves to, and growable buffers to plain byte sequences.

**Kernel heap** (`HeapSpec`, `HeapWords`, `Heap`), for callers that free in stack order: headers
tile the heap, live payloads are disjoint, aligned and large enough, and blocks never merge
backwards.  For every 32-bit size the outcome of a request is a value, worked out with the code's
own 32-bit sums, and it is the right one exactly under a condition the caller can check.

**Small kernels.**  The keyboard ring as interleaved steps of an interrupt handler and a
consumer (`KeyboardSpec`, `Keyboard`); the Internet checksum of section 1 of RFC 1071 and the
ICMP echo messages (`Checksum`, `Icmp`); numerals and the two format interpreters (`Numerals`,
`PrintfSpec`, `Printf`); dotted-quad addresses (`Ip4`).

Inputs the kernel takes from elsewhere are parameters: whether each `kmalloc` in the filesystem
succeeds (and then gives the bytes asked for), the interrupts that arrive, the memory ranges
given to the allocator.

## Where the code differs from its promise

- File writes and truncations mix 64-bit sizes with 32-bit allocations.  A write is the overwrite
  it should be exactly when its end does not wrap and lies within the capacity or doubles to less
  than 4 GB (`FileSpec.WriteMeetsIff`), a truncation exactly below 4 GB (`TruncateMeetsIff`), a
  whole run exactly when every operation is safe (`RunRefinesIff`).  Inputs that fail:
  `WriteAtMinusOne`, `WritePast2G`, `TruncatePast4G`.
- O_CREAT is meant not to duplicate a name.  Opening a new path twice does exactly when the entry
  made lies at another path than the one given (`Namespace.CreatedIsFound`, `OpenedTwice`): below 1024
  characters when the last name is over 255 characters and its rest is not "." or ".."
  (`EntryIsPath`, `LongNameExample`), and for longer paths also when the path buffers cut them
  (`LongPathExample`).
- mkdir of a path that ends in a slash, "." or ".." makes an entry that no path leads to
  (`Namespace.EntryUnreachable`).
- `vmm_map_range` rounds the size up in 32 bits.  The pages mapped are those of the size exactly
  up to 0xFFFFF000 bytes; beyond, the sum wraps and no page is mapped, without failure
  (`Vmm.Vmm.PagesIff`; `NoPages` for 0xFFFFFFFF).
- `kmalloc` rounds a request and grows the heap by 32-bit sums.  A request is answered as it
  should be exactly when it is `Sound` (`Heap.Heap.AnsweredIff`); otherwise the code hands out a
  block that is too small, or takes memory outside the heap.
  - The test for room is right exactly when the growth stays below 4 GB, or wraps to one page that
    does not fit (`HeapWords.GrowthIff`).  On the kernel's heap of 256 MB a request for 768 MB
    passes it, and the heap's end becomes 0x3000 (`GrowthWraps`).
  - For sizes 0xFFFFFFE1 to 0xFFFFFFF0 the growth wraps to one page, in which the retry finds no
    room, so that it grows again until every page of the heap is taken, and only then refuses:
    65534 times with two pages in use (`TopRequest`).  For all others the retry is never
    retried (`Heap.Heap.RetriedOnceIff`).
  - Larger sizes round to 0 (`HeapWords.RoundingWraps`): any free block is handed out for them.
    With none they are refused, as they should be, but a page was added (`ZeroRequest`).
- "Longest matching mount point": a target also matches a path that merely begins with its text
  (`Mounts.MountSplit` gives the exact condition, `GluedExample` an input).
- `ip4_parse` accepts text after a fourth dot and reduces octets modulo 256 (`Ip4.ParsedIff`,
  `Ip4.ParseThenPrint`).
- The two format interpreters differ on `%p`, and only there (`PrintfSpec.Agree`).
- `ramfs_rename` ignores the new directory, `SEEK_END` does not move the position, and
  `ramfs_symlink` leaves an entry without target when memory runs out.  The model does the same.

## Model

| member | source | states |
|---|---|---|
| `FreeSets.CanonicalIsMaximal` | kernel/mm/pmm.c:125-151 | A set of natural blocks with no two free buddies is exactly the set of maximal natural blocks of the frames it covers |
| `FreeSets.CanonicalUnique` | kernel/mm/pmm.c:125-151 | Two canonical free sets over the same frames are the same set of blocks |
| `FreeSets.RunInsideOneBlock` | kernel/mm/pmm.c:77-81 | In a canonical set every natural run of free frames lies inside one free block |
| `Dyadic.BuddyFacts` | kernel/mm/pmm.c:36-39 | Flipping one bit is an involution on natural blocks of that order; block and buddy are disjoint and together are the parent |
| `Dyadic.Halves` | kernel/mm/pmm.c:90-95 | Splitting gives two natural blocks that are buddies and tile the block |
| `Dyadic.ApartOrNested` | kernel/mm/pmm.c:44-162 | Natural blocks never overlap partially |
| `Bits.MaskTest` | kernel/mm/pmm.c:50-53 | The mask test `pfn & (2^order - 1) == 0` holds iff the frame is naturally aligned |
| `Bits.AlignedMultiple` | kernel/mm/pmm.c:50-53 | An aligned frame number is a multiple of 2^order, its order-th part being the factor |
| `PmmSpec.RunIffLargeBlock` | kernel/mm/pmm.c:75-81 | A zone holds a natural run of 2^order free frames iff some free block of that zone has at least that order |
| `PmmSpec.RunByAddress` | kernel/mm/pmm.c:167-171 | A zone that is allocated from holds a run iff 2^order free frames in a row, starting at a multiple of 2^order, lie between its addresses: 0 to 16 MB, 16 MB to 896 MB; one of the two does iff such a run lies below 896 MB |
| `PmmSpec.BlockInOneZone` | kernel/mm/pmm.c:167-188 | No natural block crosses 16 MB or 896 MB |
| `PmmSpec.BuddyInZone` | kernel/mm/pmm.c:126-150 | A merge never leaves the zone |
| `PmmSpec.MaximalCanonical` | kernel/mm/pmm.c:44-70 | For any set of frames its maximal blocks are natural, disjoint, contain no two buddies, and cover exactly these frames |
| `PmmSpec.FreeFromUsed` | kernel/mm/pmm.c:44-162 | In a partitioned state the free blocks are a function of the outstanding allocations |
| `PmmSpec.PartitionFromUsed` | kernel/mm/pmm.c:44-162 | Conversely, the maximal blocks of the unallocated frames complete a partition |
| `PmmSpec.StepKeepsPartition` | kernel/mm/pmm.c:75-162 | Every allocation and every release keeps free blocks and allocations a disjoint tiling of the managed frames |
| `PmmSpec.RunKeepsPartition` | kernel/mm/pmm.c:44-162 | Safety over all runs: every reachable state is such a partition |
| `PmmSpec.Confluence` | kernel/mm/pmm.c:118-162 | The free blocks after any run depend only on the frames still allocated, not on the order of allocations and frees |
| `PmmSpec.Restoration` | kernel/mm/pmm.c:118-162 | A run that ends with nothing allocated is back in the state the initial tiling built |
| `PmmMoves.MergeTestExact` | kernel/mm/pmm.c:126-132 | For the block being freed, flag FREE and equal order of the XOR buddy hold iff that buddy heads a free block of that order, and then it is on the same zone's list of that order, although interior frames keep stale flags and orders |
| `PmmMoves.Split` | kernel/mm/pmm.c:90-107 | Halving the block in hand keeps the tiling, both halves being in hand |
| `PmmMoves.Merge` | kernel/mm/pmm.c:134-150 | Absorbing a free buddy keeps the tiling |
| `PmmMoves.Finish` | kernel/mm/pmm.c:153-161 | Freeing the block in hand keeps the tiling and the absence of free buddies, when its buddy is not free |
| `PmmMoves.GreedyNotBuddy` | kernel/mm/pmm.c:46-69 | Greedy tiles of one range are never buddies |
| `PmmLists.PushLinked` | kernel/mm/pmm.c:153-161 | Pushing a descriptor keeps all lists well-formed doubly linked chains with exact lengths and page counts |
| `PmmLists.UnlinkLinked` | kernel/mm/pmm.c:134-142 | Unlinking from any place does the same |
| `PmmLists.OneMoreBlock` | kernel/mm/pmm.c:65-66 | One more block of order o adds 2^o to the sum over all orders of 2^o times the list length |
| `Pmm.SelectZoneOfPfn` | kernel/mm/pmm.c:167-171 | The zone a block is freed into is the zone its frames belong to |
| `Pmm.Pmm.constructor` | kernel/mm/pmm.c:44-70 | A fresh allocator over one range per zone holds exactly the maximal blocks of the ranges, whatever the descriptors held |
| `Pmm.Pmm.LargestFit` | kernel/mm/pmm.c:48-55 | The order chosen is natural at that frame, fits the range, and is the largest that does |
| `Pmm.Pmm.BuddyFreeRange` | kernel/mm/pmm.c:44-70 | Greedy tiling moves exactly the frames of the range to the free side and leaves a partition without free buddies |
| `Pmm.Pmm.LinkIn` | kernel/mm/pmm.c:153-161 | The whole new array of descriptors and zones after linking in a head |
| `Pmm.Pmm.LinkOut` | kernel/mm/pmm.c:134-142 | The whole new array of descriptors and zones after linking out |
| `Pmm.Pmm.PushFront` | kernel/mm/pmm.c:153-161 | The block joins the free set; lists, counts and descriptors stay coherent |
| `Pmm.Pmm.Unlink` | kernel/mm/pmm.c:134-143 | The block leaves the free set; lists, counts and descriptors stay coherent |
| `Pmm.Pmm.SmallestOrder` | kernel/mm/pmm.c:77-81 | The order found is the smallest non-empty one from the request up; it passes the maximum iff the zone holds no natural run of that size |
| `Pmm.Pmm.TakeSmallest` | kernel/mm/pmm.c:76-88 | The first block of that list is taken in hand |
| `Pmm.Pmm.SplitDown` | kernel/mm/pmm.c:90-107 | The block in hand is halved to the requested order at the same frame; right halves become free |
| `Pmm.Pmm.BuddyAlloc` | kernel/mm/pmm.c:75-113 | 0 iff the zone has no natural run of that size, and then nothing changes; otherwise a wholly free natural block at the start of a smallest sufficient block is allocated and the free set is the maximal blocks of the remaining frames; its count becomes 1 and no other count changes |
| `Pmm.Pmm.BuddyFree` | kernel/mm/pmm.c:118-162 | A release gives exactly that allocation back and leaves the maximal blocks of the free frames; an address beyond memory changes nothing; its count becomes 0 and no other count changes |
| `Pmm.Pmm.AllocPages` | kernel/mm/pmm.c:255-261 | 0 iff not ready or no run of 2^order free frames, starting at a multiple of 2^order, lies below 896 MB, and then nothing changes; otherwise a run that ends below 896 MB, and starts below 16 MB only if none lies between 16 MB and 896 MB; a best fit of NORMAL, then DMA; the count of its first frame becomes 1, all others stay |
| `Pmm.Pmm.FreePages` | kernel/mm/pmm.c:267-271 | The exact inverse for outstanding allocations; null and addresses beyond memory change nothing |
| `Pmm.Pmm.AllocPage` | kernel/mm/pmm.c:251-253 | 0 iff not ready or no frame below 896 MB is free; otherwise one such frame moves to the allocations, and one below 16 MB only if none from 16 MB to 896 MB is free |
| `Pmm.Pmm.FreePage` | kernel/mm/pmm.c:263-265 | One frame moves back |
| `Paging.IndexBits` | kernel/mm/mm.h:106-107 | Directory and table index are the two halves of the virtual page number |
| `Paging.ByDivision` | kernel/mm/mm.h:104-107 | Page number, directory index, frame and offset of an address are quotients and remainder by 4096 and 4 MB; the user half of a directory is the addresses below 0xC0000000 |
| `Paging.PageEntryFacts` | kernel/mm/vmm.c:66-68 | A page entry is present, points to the frame asked for, and carries just the permitted flags |
| `Paging.PageEntryBits` | kernel/mm/vmm.c:66-68 | Bit by bit: present; write, user, write-through, no-cache and global exactly as in the flags; accessed, dirty, 4 MB and the three spare bits clear; the frame of the address |
| `Paging.TableEntryFacts` | kernel/mm/vmm.c:59-60 | A directory entry made for a table is present, not huge, and points to the table |
| `Paging.TableEntryBits` | kernel/mm/vmm.c:59-60 | Bit by bit: present and writable, user exactly as in the flags, every other low bit clear |
| `Paging.RepointedFacts` | kernel/mm/vmm.c:178-181 | An entry of a clone points to the new frame and keeps the source's low 12 bits |
| `VmmSpec.FreshTable` | kernel/mm/vmm.c:55-60 | Hanging a zeroed table into an absent slot leaves the flat map unchanged |
| `VmmSpec.TableWrite` | kernel/mm/vmm.c:65-68 | Writing one table entry is a point update of the flat map when tables are distinct |
| `VmmSpec.RangeProgress` | kernel/mm/vmm.c:119-121 | One page of a range: the map grows by it, and each table allocated is one missing table fewer |
| `VmmSpec.RangeByAddress` | kernel/mm/vmm.c:113-122 | After a complete range, page i is mapped to the i-th frame with the flags asked for, bit by bit, both modulo 4 GB |
| `VmmSpec.TranslatedAddress` | kernel/mm/vmm.c:107 | Masking and joining gives the entry's frame, by division, and the address modulo 4096 |
| `VmmSpec.HugeAddress` | kernel/mm/vmm.c:99-101 | The same for 4 MB pages: the entry's 4 MB and the address modulo 4 MB |
| `Vmm.Vmm.AllocPageTable` | kernel/mm/vmm.c:36-43 | A new frame of 1024 zeros, or null with nothing changed |
| `Vmm.Vmm.EnsureTable` | kernel/mm/vmm.c:52-63 | The slot gets a table without any address becoming mapped, its entry present, writable and user iff asked; or out of memory and nothing changed |
| `Vmm.Vmm.MapPage` | kernel/mm/vmm.c:48-71 | A point update of the flat map that writes only one directory slot and its table: the address leads to the frame asked for with the flags asked for, bit by bit; -1 iff a table is needed and no frame is left, and then the map and memory are as before |
| `Vmm.Vmm.UnmapPage` | kernel/mm/vmm.c:76-86 | A point delete that writes only one table; nothing is allocated or freed |
| `Vmm.Vmm.VirtToPhys` | kernel/mm/vmm.c:91-108 | A lookup in the flat map: 0 for unmapped, otherwise the entry's frame and the address modulo 4096, for 4 MB entries modulo 4 MB |
| `Vmm.Vmm.MapNext` | kernel/mm/vmm.c:119-121 | One page of a range, a failure being ignored |
| `Vmm.Vmm.MapRange` | kernel/mm/vmm.c:113-122 | For sizes up to 0xFFFFF000, over the size divided by 4096 and rounded up: pages outside the range keep their entries, those inside map to consecutive frames or stay as they were; with a free frame for every missing table it is the bulk update, with wrap-around at 4 GB.  For larger sizes memory and allocator are as before |
| `Vmm.Vmm.PagesIff` | kernel/mm/vmm.c:117 | The number of pages computed is the size in pages, rounded up, iff the size is at most 0xFFFFF000; otherwise it is 0 |
| `Vmm.Vmm.NoPages` | kernel/mm/vmm.c:117 | A range of 0xFFFFFFFF bytes is taken for no page, where it has 2^20 |
| `CloneSpec.ClonePart` | kernel/mm/vmm.c:139-185 | A clone has a user table or page wherever its source has one, in the frame placed for it |
| `CloneSpec.DeepCopy` | kernel/mm/vmm.c:158-181 | Below 0xC0000000 every mapped page maps in the clone to a formerly free frame with equal contents and low 12 bits; unmapped addresses stay unmapped |
| `CloneSpec.PagesDistinct` | kernel/mm/vmm.c:171-178 | Different pages of the clone below 0xC0000000 never share a frame, even where the source's did |
| `CloneSpec.KernelShared` | kernel/mm/vmm.c:147-156 | From 0xC0000000 on the directory words present are the source's |
| `CloneSpec.CloneByAddress` | kernel/mm/vmm.c:139-185 | Both, for every address |
| `CloneSpec.SourceKept` | kernel/mm/vmm.c:139-185 | The source's map, directory, tables and pages are untouched |
| `CloneSpec.CloneUnshared` | kernel/mm/vmm.c:139-203 | No two parts of a clone share a frame, so destroying it frees no frame twice |
| `CloneSpec.FramesByAddress` | kernel/mm/vmm.c:190-203 | The frames a destroy gives back are the directory and the tables and pages of its addresses below 0xC0000000 |
| `CloneSpec.CloneIsDirectory` | kernel/mm/vmm.c:139-185 | A clone is a directory: its tables are in memory, distinct and not free, and no entry maps 4 MB |
| `CloneSpec.CloneSeparate` | kernel/mm/vmm.c:139-185 | No directory or user table of a clone is a frame of its source, and none of the source's is a frame of the clone |
| `CloneSpec.CloneNeedsFrames` | kernel/mm/vmm.c:139-185 | A complete copy exists only if there is a frame for every part |
| `CloneSpec.Isolated` | kernel/mm/vmm.c:48-86 | Of two directories so separate, a write to one user slot and its table of one leaves the other's map, tables and pages as they were, and the two separate |
| `CloneSpec.RunIsolated` | kernel/mm/vmm.c:48-86 | However often pages are mapped and unmapped in the user half of one, the other's map, tables and pages are as before the run |
| `CloneSpec.FillSlot` | kernel/mm/vmm.c:145-182 | Writing a directory slot completes the copy up to that slot |
| `CloneSpec.CopiedLeaf` | kernel/mm/vmm.c:171-178 | Copying a page and writing its entry extends the copy by that page |
| `Vmm.Vmm.ClonePage` | kernel/mm/vmm.c:171-178 | The page of one entry is copied and the clone's entry points to the copy |
| `Vmm.Vmm.CloneEntry` | kernel/mm/vmm.c:165-179 | One entry of a user table, mapped or not |
| `Vmm.Vmm.CloneTable` | kernel/mm/vmm.c:162-179 | A user table, entry by entry |
| `Vmm.Vmm.CloneUserSlot` | kernel/mm/vmm.c:158-181 | A user slot: table allocated, filled, hung in last |
| `Vmm.Vmm.CloneSlot` | kernel/mm/vmm.c:145-182 | One directory slot: absent, shared, or copied |
| `Vmm.Vmm.CloneDir` | kernel/mm/vmm.c:139-185 | With a free frame for each part: below 0xC0000000 every address has a formerly free frame with equal contents, or is unmapped as in the source; from there on the directory words are the source's; the clone is a directory separate from its source and the source from it, and exactly the frames of its parts were taken |
| `Vmm.Vmm.MapInClone` | kernel/mm/vmm.c:48-71 | A later mapping below 0xC0000000 in the clone leaves the source as it was, and one in the source leaves the clone: its map, tables and pages; it is one step of such a run |
| `Vmm.Vmm.UnmapInClone` | kernel/mm/vmm.c:76-86 | The same for unmapping |
| `Vmm.Vmm.ReleaseTable` | kernel/mm/vmm.c:192-200 | The pages of one table and then the table are freed |
| `Vmm.Vmm.DestroyDir` | kernel/mm/vmm.c:190-203 | Exactly the frames of the directory's user half are freed: the directory, and the tables and pages of its addresses below 0xC0000000 |
| `Vmm.Vmm.CloneThenDestroy` | kernel/mm/vmm.c:139-203 | Conservation: clone and destroy return the allocator to the identical free blocks and allocations and leave the source's map, tables and page contents identical |
| `Paths.NamesJoin` | kernel/fs/ramfs.c:24-43 | Walking `d/b` reads the components of d, then those of b |
| `Paths.SplitSteps` | kernel/fs/vfs.c:229-266 | A path that fits the buffers asks for the look-ups of its dirname, then those of its basename |
| `Paths.PathParts` | kernel/fs/vfs.c:229-266 | dirname and basename of a name alone, a name under the root, and a name in a directory, when they fit the buffers |
| `Paths.FinalStep` | kernel/fs/vfs.c:255-266 | A proper final name is one more look-up |
| `Paths.DotDotIgnored` | kernel/fs/ramfs.c:37-38 | ".." leads nowhere, like ".": between two paths either asks for the look-ups of the first, then those of the second, as a slash does |
| `Paths.StepsOfName` | kernel/fs/ramfs.c:28-35 | What a walk makes of one name: nothing for empty, "." and "..", itself up to 255 characters, otherwise its first 255 characters and more |
| `Paths.FindLastSlash` | kernel/fs/vfs.c:233 | The last slash, or none |
| `Paths.PathDirname` | kernel/fs/vfs.c:229-253 | dirname: "." without a slash, "/" for a leading one only, cut to the buffer |
| `Paths.PathBasename` | kernel/fs/vfs.c:255-266 | basename, cut to the buffer |
| `Mounts.FindMount` | kernel/fs/vfs.c:35-58 | The longest non-empty target that is a text prefix of the path, the first in the list among equals, and the rest without leading slashes; none iff no target is a prefix |
| `Mounts.MountSplit` | kernel/fs/vfs.c:31-57 | The path's components are the target's and then the remainder's exactly when the cut is clean: at a slash or the end, after a target that ends in a slash, or after a full 255-character piece |
| `Mounts.GluedExample` | kernel/fs/vfs.c:41-46 | Target /mnt serves /mntfoo, whose components are not those of /mnt and then foo |
| `RamfsSpec.WalkAppend` | kernel/fs/ramfs.c:20-44 | A walk of concatenated steps is a walk from where the first part led |
| `RamfsSpec.CreateKeepsTree` | kernel/fs/ramfs.c:93-111 | Creating an entry keeps the tree: one entry per inode, every inode below its directory, link counts exact |
| `RamfsSpec.CreatedNode` | kernel/fs/ramfs.c:59-112 | The inode made is of the kind and permissions asked for, linked once and empty; its entry comes first, cut to 255 characters; the directory's other entries and all other inodes are as they were |
| `RamfsSpec.UnlinkKeepsTree` | kernel/fs/ramfs.c:118-140 | Unlinking keeps the tree |
| `RamfsSpec.RenameKeepsTree` | kernel/fs/ramfs.c:144-154 | Renaming keeps the tree |
| `RamfsSpec.RenamedLookup` | kernel/fs/ramfs.c:144-154 | After a rename the new name leads to the inode renamed, unless a newer entry has that name; the old name to the next entry of that name, if any; every other name where it led |
| `RamfsSpec.UnlinkedLookup` | kernel/fs/ramfs.c:118-140 | After an unlink the name leads to the next entry of that name, if any; every other name where it led |
| `RamfsSpec.ReclaimedIsEmpty` | kernel/fs/ramfs.c:125-132 | Unlink reclaims an inode iff it is the victim, has no entries of its own and at most one reference |
| `RamfsSpec.UniquePath` | kernel/fs/ramfs.c:16-45 | Only one list of names leads to an inode |
| `RamfsSpec.WalkDown` | kernel/fs/ramfs.c:16-45 | Walking down strictly increases inode numbers, so there are no cycles |
| `RamfsSpec.PassesIffPrefix` | kernel/fs/ramfs.c:16-45 | A walk passes an entry iff its names begin with the entry's path |
| `RamfsSpec.NamespaceFrame` | kernel/fs/ramfs.c:93-111 | After a create the entry's path leads to the new inode, nothing lies beyond it, and every other path leads where it led before |
| `RamfsSpec.CreateThenUnlink` | kernel/fs/ramfs.c:93-140 | Unlinking the entry just made restores every inode, shadowed duplicates included |
| `Ramfs.Ramfs.constructor` | kernel/fs/ramfs.c:62-80 | A fresh filesystem is a tree of one directory |
| `Ramfs.Ramfs.SameName` | kernel/fs/ramfs.c:85 | Names compare equal iff they agree in their first 255 characters |
| `Ramfs.Ramfs.IndexOf` | kernel/fs/ramfs.c:84-89 | The newest entry of that name |
| `Ramfs.Ramfs.FindChild` | kernel/fs/ramfs.c:82-91 | Look-up of the newest entry of that name, which gains a reference |
| `Ramfs.Ramfs.NextName` | kernel/fs/ramfs.c:24-35 | One turn of the scanning loop reads exactly the next component |
| `Ramfs.Ramfs.PathWalk` | kernel/fs/ramfs.c:16-45 | The character scan resolves a path as its list of components does, and raises the reference count of each inode it looks up |
| `Ramfs.WalkRefsBelow` | kernel/fs/ramfs.c:82-91 | A walk leaves the counts of inodes beyond its end alone |
| `Ramfs.FlagBits` | kernel/fs/vfs.h:51-54 | The three flags an open looks at are the bits of weight 0x40, 0x200 and 0x400 |
| `Ramfs.OpenedFor` | kernel/fs/ramfs.c:276-290 | Opened with 0x241 a file is empty afterwards; with 0x440 a file that was there leaves every inode as it was, and one made is empty |
| `Ramfs.Ramfs.Create` | kernel/fs/ramfs.c:93-111 | The new inode becomes the newest entry, with no check for the name; failure of either allocation changes nothing but the inode counter |
| `Ramfs.Ramfs.Unlink` | kernel/fs/ramfs.c:118-140 | The newest entry of that name goes, its inode too iff nothing else holds it; otherwise -1 and nothing changes |
| `Ramfs.Ramfs.Rename` | kernel/fs/ramfs.c:144-154 | The newest entry of the old name in the old directory is renamed in place; the new directory is ignored, as in the code |
| `Ramfs.Ramfs.Symlink` | kernel/fs/ramfs.c:156-166 | The entry is made first and stays when memory for the target runs out |
| `Ramfs.Ramfs.Truncate` | kernel/fs/ramfs.c:185-201 | The new buffer, with the recorded capacity and size in 64 bits and the allocation in 32; -1 and nothing changed; or the copy leaves the new buffer |
| `Ramfs.Ramfs.FindParent` | kernel/fs/ramfs.c:293-297 | The directory the last name belongs to, or none |
| `Ramfs.Ramfs.FsMkdir` | kernel/fs/ramfs.c:292-299 | A directory entry for the basename in the dirname's directory, or -1 and the same inodes |
| `Ramfs.Ramfs.FsUnlink` | kernel/fs/ramfs.c:301-307 | The newest entry of the basename in the dirname's directory is removed, or -1 |
| `Ramfs.Ramfs.OpenNode` | kernel/fs/ramfs.c:277-285 | The inode found, or made by O_CREAT in the dirname's directory |
| `Ramfs.Ramfs.FsOpen` | kernel/fs/ramfs.c:276-290 | Success iff the path resolves or a file is created; the bit of weight 0x200 empties it, the bit of weight 0x400 starts at its size, that of 0x40 allows the creation; no inode but the one opened and the directory it is made in changes |
| `Namespace.PathSplit` | kernel/fs/vfs.c:229-266 | Walking the whole path equals looking the basename up in the directory the dirname leads to, repeated slashes and slash-free paths included |
| `Namespace.PathFrame` | kernel/fs/ramfs.c:276-299 | After mkdir or a creating open: the entry's path resolves to the new inode, paths beyond it to nothing, every other path as before |
| `Namespace.EntryIsPath` | kernel/fs/ramfs.c:292-299 | Below 1024 characters the entry made for a path lies at that path iff the last name is non-empty, not "." or "..", and read whole by a walk |
| `Namespace.EntryUnreachable` | kernel/fs/ramfs.c:292-299 | An entry made for a path that ends in an empty name, "." or "..", as by mkdir of "a/", is one that no path leads to; all paths resolve as before |
| `Namespace.NoDuplicate` | kernel/fs/ramfs.c:277-283 | When O_CREAT makes a file at the path given, of any length, the directory had no entry of that name |
| `Namespace.CreatedIsFound` | kernel/fs/ramfs.c:277-283 | After a creating open the path resolves to the new file iff the entry made lies at the path, for paths of every length; otherwise it does not resolve and would be created again, in the same directory |
| `Namespace.OpenedTwice` | kernel/fs/ramfs.c:277-283 | In that other case two creating opens leave two entries of the same name in front of the old ones, and the path still does not resolve |
| `Namespace.LongNameExample` | kernel/fs/ramfs.c:29-31 | Two creating opens of a 256-letter name in an empty filesystem leave two entries of the same 255 letters |
| `Namespace.LongPathExample` | kernel/fs/ramfs.c:279-281 | "./" 600 times and then "d/x", opened twice, leaves two entries x in the root: the path buffer cuts the directory off before d |
| `Namespace.ParentKept` | kernel/fs/ramfs.c:292-307 | The unlink after a mkdir finds the same directory and does not touch the new inode's count |
| `Namespace.MkdirThenUnlink` | kernel/fs/ramfs.c:292-307 | mkdir and unlink of the same path restore every inode, hence every resolution |
| `FileSpec.WriteRefines` | kernel/fs/ramfs.c:228-245 | A roomy write with memory at hand overwrites the abstract bytes, extended by zeros when it starts past the end; the slack stays zero |
| `FileSpec.GrownCapacity` | kernel/fs/ramfs.c:231-238 | A buffer that grows gets 4096 bytes for an end below that, twice the end from there on |
| `FileSpec.WriteMeetsIff` | kernel/fs/ramfs.c:228-245 | A write with memory at hand is that overwrite iff its end does not wrap in 64 bits and lies within the capacity or doubles to less than 4 GB |
| `FileSpec.CrampedWrite` | kernel/fs/ramfs.c:231-242 | Otherwise it is refused, leaves the buffer, or records a size beyond it |
| `FileSpec.WriteAtMinusOne` | kernel/fs/ramfs.c:231-240 | Two bytes written at position -1 are copied to before the buffer |
| `FileSpec.WritePast2G` | kernel/fs/ramfs.c:233-240 | One byte written at 0x80000010 of an empty file goes far past a buffer of 34 bytes |
| `FileSpec.TruncateMeetsIff` | kernel/fs/ramfs.c:185-201 | A truncation with memory at hand cuts, or extends with zeros, iff the size is below 4 GB |
| `FileSpec.TruncatePast4G` | kernel/fs/ramfs.c:191-199 | Truncation to 4 GB and a byte allocates one byte and records the larger size |
| `FileSpec.ReadBack` | kernel/fs/ramfs.c:217-245 | What was written is read back, holes are zero, all else is as before |
| `FileSpec.PlainBytes` | kernel/fs/ramfs.c:185-245 | The plain file byte by byte: what an overwrite, a slice and a resize hold at every place, and how long they are |
| `FileSpec.ReadRefines` | kernel/fs/ramfs.c:217-226 | A read returns exactly the available slice and moves past it |
| `FileSpec.StepRefines` | kernel/fs/ramfs.c:185-245 | An operation does to the buffer what it does to one plain byte sequence iff it is safe: its guard is a test on position, length, capacity and memory that a caller can make first; a failed operation changes nothing |
| `FileSpec.RunRefines` | kernel/fs/ramfs.c:185-245 | Over every run of safe reads, writes, seeks and truncations through any descriptors, results are those of one plain byte sequence |
| `FileSpec.RunRefinesIff` | kernel/fs/ramfs.c:185-245 | Every step of a run does what the plain file does iff every operation is safe when its turn comes |
| `Vfs.Vfs.Open` | kernel/fs/vfs.c:111-138 | Success iff the mount serves the path, memory and a slot are there, and the rest of the path resolves or can be created; then the first free slot holds the inode and position the filesystem gave, the file emptied if asked; a failure changes neither table nor inodes |
| `Vfs.RootRemainder` | kernel/fs/vfs.c:50-57 | Under the root mount the remainder asks for the same look-ups as the path |
| `Vfs.SignedWords` | kernel/fs/ramfs.c:225 | The count or position returned is the one signed word congruent to it modulo 2^32 or 2^64: the number itself below half of that |
| `Vfs.Vfs.Close` | kernel/fs/vfs.c:140-147 | Exactly that slot is freed; -1 for a slot not in use |
| `Vfs.Vfs.Read` | kernel/fs/vfs.c:149-154 | One read step of the file behind the descriptor; the number of bytes is returned, as a signed word congruent to it modulo 2^32, and as it is below 2^31; other files and other positions are unaffected; nothing is read from an inode without a buffer |
| `Vfs.Vfs.Write` | kernel/fs/vfs.c:156-161 | One write step of the file behind the descriptor, whatever the position; a finished write returns the number of bytes, likewise; under the guard of a safe write the filesystem stays valid |
| `Vfs.Vfs.Seek` | kernel/fs/vfs.c:163-173 | The new position modulo 2^64, returned as a signed word; SEEK_END leaves it alone, as in the code |
| `HeapSpec.ExpandOk` | kernel/mm/heap.c:40-57 | Growing keeps the heap invariant: headers tile the heap, the free list holds the blocks not live, back pointers name the live block just before, older than this one |
| `HeapSpec.TakeOk` | kernel/mm/heap.c:155-160 | Marking a free block used keeps it, and no back pointer names that block |
| `HeapSpec.SplitOk` | kernel/mm/heap.c:73-88 | Splitting the newest live block keeps it |
| `HeapSpec.AbsorbOk` | kernel/mm/heap.c:93-100 | Absorbing the free block after the newest live one keeps it |
| `HeapSpec.ReleaseOk` | kernel/mm/heap.c:198-213 | Marking the newest live block free keeps it |
| `HeapSpec.NoBackwardMerge` | kernel/mm/heap.c:102-112 | Under stack-order frees the block before the one being freed is live: the backward merge never happens |
| `HeapWords.RoundingWraps` | kernel/mm/heap.c:149 | In 32-bit words the rounded request covers the request iff it is at most 2^32 - 16; larger ones round to 0 |
| `HeapWords.GrowthIff` | kernel/mm/heap.c:41-42 | The 32-bit test for room is right iff the growth stays below 4 GB, or wraps to one page that does not fit |
| `HeapWords.GrowthWraps` | kernel/mm/heap.c:41-45 | With the kernel's heap of 256 MB, two pages in use, a request for 768 MB passes the test and moves the end to 0x3000 |
| `HeapWords.RetryFits` | kernel/mm/heap.c:41-47 | The block of a growth is large enough for the request iff the request and a header fit into 4 GB, which only the topmost rounded size does not |
| `HeapWords.GrowsOnce` | kernel/mm/heap.c:168-174 | For every other size: one growth iff there is room, and then the request is served; otherwise null or, when the sum wraps, memory outside the heap |
| `HeapWords.GrowsUntilFull` | kernel/mm/heap.c:168-174 | For the topmost size the heap grows by each page left, and then the answer is null, unless the next page wraps |
| `HeapWords.RetriedIff` | kernel/mm/heap.c:168-174 | The heap grows more than once iff the size is the topmost one and two pages fit |
| `HeapWords.GrowthAnswerIff` | kernel/mm/heap.c:168-174 | With nothing free for it, a request gets a block when there is room and null otherwise iff the growth is sound, or takes pages until none fits without wrapping then |
| `HeapWords.ZeroGrowth` | kernel/mm/heap.c:168-174 | A request that rounds to 0 adds a page if one fits and is then refused, unless the page wraps |
| `HeapWords.TopRequest` | kernel/mm/heap.c:168-174 | On the kernel's heap with two pages in use, sizes 0xFFFFFFE1 to 0xFFFFFFF0 are refused after 65534 growths |
| `HeapWords.ZeroRequest` | kernel/mm/heap.c:147-174 | There 0xFFFFFFFF is refused after one growth |
| `Heap.Heap.constructor` | kernel/mm/heap.c:125-145 | A fresh heap: nothing live; it is in order unless the first growth takes memory outside it; with room for two pages it is one free block of 8160 bytes |
| `Heap.Heap.Expand` | kernel/mm/heap.c:40-57 | One block at the old end becomes the head of the free list, or null iff the 32-bit test says the limit would be passed, and then nothing changes; a third outcome says that the block does not lie inside the heap |
| `Heap.Heap.AnsweredIff` | kernel/mm/heap.c:147-175 | A request gets null for size 0 or when nothing fits and the heap has no room, and a block otherwise, iff it is `Sound`: a test on size, free list and end of the heap that the caller can make; otherwise it gets a block too small, or memory outside the heap |
| `Heap.Heap.RetriedOnceIff` | kernel/mm/heap.c:168-174 | The retry is not retried iff the size is 0, something free fits, size and header stay within 4 GB, or fewer than two pages are left |
| `Heap.Heap.FirstFit` | kernel/mm/heap.c:151-166 | The first block of the list that is large enough; null iff there is none |
| `Heap.Heap.MaybeSplit` | kernel/mm/heap.c:73-88 | Split iff the rest can hold a header and 16 bytes; the rest heads the free list |
| `Heap.Heap.Carve` | kernel/mm/heap.c:155-163 | The block is live, large enough, with less than 48 bytes to spare; used_bytes grows by its size |
| `Heap.Heap.Kmalloc` | kernel/mm/heap.c:147-175 | For every 32-bit size the answer and the number of growths are those worked out by `AnswerFor` and `GrowthsFor`, the heap ending that many growths further; null changes no live block; a block is the first fit or the one just grown, 16-aligned, with less than 48 bytes to spare over the rounded request, large enough when served and smaller than the request when the rounding wrapped; other live blocks keep their sizes; other free blocks stay free, and what a block does not keep of its size is the free block after it; the counters and the peak follow |
| `Heap.Heap.PayloadsDisjoint` | kernel/mm/heap.c:147-175 | Live payloads never overlap, headers included |
| `Heap.Heap.PayloadInside` | kernel/mm/heap.c:147-175 | Every live payload lies inside the heap |
| `Heap.Heap.Kfree` | kernel/mm/heap.c:198-213 | The newest block is released and used_bytes drops by its size; if the block after it is free the two are one, of both sizes and a header, and the follower leaves the list; the freed block heads the list and the rest keeps its order; null and blocks not in use change nothing |
| `Heap.Heap.KmallocThenKfree` | kernel/mm/heap.c:93-213 | After a request that gets a block and the free of that block the live blocks are the same and every size that fitted before fits again |
| `KeyboardSpec.StepRefines` | kernel/drivers/keyboard.c:97-117 | Every interrupt and every consumer step of the ring is the step of a queue bounded at 127 |
| `KeyboardSpec.RunRefines` | kernel/drivers/keyboard.c:97-117 | The same for every interleaving of interrupts with the consumer's test, read and advance |
| `KeyboardSpec.StepKeepsQueue` | kernel/drivers/keyboard.c:109-117 | The character the consumer holds is always the oldest undelivered one |
| `KeyboardSpec.Fifo` | kernel/drivers/keyboard.c:97-117 | Accepted characters are those delivered followed by those in the ring, in order, at most 127 waiting |
| `KeyboardSpec.Lossless` | kernel/drivers/keyboard.c:97-104 | If never more than 127 typed characters are ahead of the consumer, every typed character is accepted |
| `KeyboardSpec.NoOverwrite` | kernel/drivers/keyboard.c:99-103 | The handler never writes a slot still to be delivered |
| `KeyboardSpec.ModifierCodes` | kernel/drivers/keyboard.c:77-90 | The make codes of the shift keys, control and alt set exactly their own modifier, their break codes clear it, no other code touches one |
| `KeyboardSpec.KeyRows` | kernel/drivers/keyboard.c:25-46 | The four rows of keys and what each types, with shift and without |
| `KeyboardSpec.OtherKeys` | kernel/drivers/keyboard.c:25-46 | Escape, backspace, tab, enter, star and space type themselves, every other code nothing |
| `KeyboardSpec.ShiftIsUpperCase` | kernel/drivers/keyboard.c:25-46 | A key types a letter with shift iff it types one without, and then the same one in upper case |
| `Keyboard.Driver.constructor` | kernel/drivers/keyboard.c:67-69 | An empty ring, no modifier down |
| `Keyboard.Driver.HandleScancode` | kernel/drivers/keyboard.c:75-106 | One interrupt step: modifiers, translation tables, drop when full |
| `Keyboard.Driver.HasData` | kernel/drivers/keyboard.c:119-122 | The consumer's emptiness test |
| `Keyboard.Driver.ReadSlot` | kernel/drivers/keyboard.c:114 | The consumer's read |
| `Keyboard.Driver.Advance` | kernel/drivers/keyboard.c:115 | The consumer's tail advance, which delivers the character read |
| `Keyboard.Driver.GetChar` | kernel/drivers/keyboard.c:109-117 | A whole call, with the interrupts that arrive while it waits, is one interleaved run; it delivers one character, or the ring is still empty |
| `Checksum.Compute` | kernel/net/icmp.c:42-52 | The two loops compute the ones' complement of the ones' complement sum of the little-endian words, the accumulator being 32 bits wide |
| `Checksum.CarryBack` | kernel/net/icmp.c:50 | Adding the carries back leaves the ones' complement value |
| `Checksum.SumByPairs` | kernel/net/icmp.c:44-49 | The sum counts each pair of bytes once, low byte first, and a last byte alone |
| `Checksum.ExampleSum` | kernel/net/icmp.c:42-52 | The example of section 3 of RFC 1071 |
| `Checksum.VerifiesIff` | kernel/net/icmp.c:42-52 | Up to 131074 bytes the accumulator cannot wrap, and the checksum is 0 iff the word sum is a positive multiple of 65535 |
| `Checksum.StoredVerifies` | kernel/net/icmp.c:33-34 | Storing the checksum computed over a zeroed aligned field makes the whole message's checksum 0 |
| `Checksum.ChangeNoticed` | kernel/net/icmp.c:42-52 | Changing one word of a verified message keeps it verified iff the change is between the two ones' complement zeros |
| `Checksum.ByteOrderFree` | kernel/net/icmp.c:44-49 | A big-endian host computes the same two bytes |
| `Icmp.Endpoint.Ping` | kernel/net/icmp.c:17-40 | The 40 bytes of a ping: type 8, identifier and number low byte first, 32 letters from 'A' on, each the successor of the one before with 'A' after 'Z', and a checksum that verifies |
| `Icmp.Endpoint.Receive` | kernel/net/icmp.c:54-84 | Short messages and other types are ignored; a request is answered by type 0 and, from the fifth byte on, its own bytes, cut to 1024, and the reply verifies |
| `Icmp.Endpoint.Seal` | kernel/net/icmp.c:80 | The checksum is stored and the message verifies |
| `Icmp.ReplyChecksum` | kernel/net/icmp.c:66-80 | The reply to a verified request carries its checksum plus 8, modulo 65535 |
| `Numerals.ToStr` | kernel/lib/printf.c:15-35 | The digit loops print the numeral and a terminator at the given place, inside the scratch array of 32 or 64 characters |
| `Numerals.Collect` | kernel/lib/printf.c:20 | The first loop collects the digits, lowest first |
| `Numerals.CopyBack` | kernel/lib/printf.c:21-23 | The second loop reverses them |
| `Numerals.NumeralUnique` | kernel/lib/printf.c:15-24 | The numeral denotes its value and is the only digit string without a leading zero that does, in every base from 2 to 16 |
| `Numerals.NumeralLength` | kernel/lib/printf.c:17 | At most 32 digits for 32 bits (64 for 64), half that from base 4 on |
| `Printf.SkipSpec` | kernel/lib/printf.c:56-66 | Sign, width and precision are skipped, an `l` is noted |
| `Printf.IntToStr` | kernel/lib/printf.c:37-40 | A signed numeral |
| `Printf.Console.Convert` | kernel/lib/printf.c:68-109 | The console's switch sends the text of the conversion |
| `Printf.Console.Kvprintf` | kernel/lib/printf.c:45-112 | The console receives exactly the text the format and arguments mean, and for a format written piece by piece what its pieces mean |
| `Printf.SBuf.PutChar` | kernel/lib/printf.c:131-133 | The first size - 1 characters put are kept |
| `Printf.SBuf.Convert` | kernel/lib/printf.c:154-187 | The buffer's switch sends the text of the conversion |
| `Printf.SBuf.Format` | kernel/lib/printf.c:140-188 | The buffer receives exactly the text the format and arguments mean |
| `Printf.Kvsnprintf` | kernel/lib/printf.c:135-191 | Stores the first n - 1 characters, then NUL, nothing beyond n, and returns the stored length; without `%p` it is a prefix of the console's text |
| `PrintfSpec.Agree` | kernel/lib/printf.c:45-191 | The two interpreters mean the same text iff the format has no `%p` |
| `PrintfSpec.FormatMeans` | kernel/lib/printf.c:45-112 | A format written piece by piece means what its pieces mean: plain characters themselves, each conversion the text of its letter, whatever its sign, width and precision |
| `PrintfSpec.WidthIgnored` | kernel/lib/printf.c:56-62 | One conversion with any sign, width and precision shows its argument as without them |
| `PrintfSpec.LetterMeans` | kernel/lib/printf.c:68-109 | Which letters take an argument, and what they show: the base-16 or base-10 numeral of its value, a minus sign and magnitude, one character modulo 256, a string or "(null)", "0x" and a numeral |
| `PrintfSpec.PaddedExamples` | kernel/lib/printf.c:56-62 | `%-30s` is the string itself, `%08X` the base-16 numeral |
| `Ip4.ToStr` | kernel/net/net.c:58-63 | The dotted text of every address fits the 16-character buffer untruncated |
| `Ip4.DottedOutput` | kernel/net/net.c:60-61 | What the format `%u.%u.%u.%u` means for four octets |
| `Ip4.ReadOctet` | kernel/net/net.c:39-43 | A run of digits is read modulo 256 |
| `Ip4.Parse` | kernel/net/net.c:32-56 | The parser's loop computes the parsing function |
| `Ip4.ParsedIff` | kernel/net/net.c:32-56 | A text is accepted as an address iff it begins with four digit strings with dots between, followed by the end or another dot, and their values modulo 256 are the octets |
| `Ip4.AddressOrder` | kernel/net/net.h:36 | Octets count from the left: the larger first differing octet makes the larger address |
| `Ip4.AddressExample` | kernel/net/net.h:36 | 192.168.0.1 is 0xC0A80001, both ways |
| `Ip4.PrintThenParse` | kernel/net/net.c:32-63 | Parsing the text of any address gives the address |
| `Ip4.ParseThenPrint` | kernel/net/net.c:32-63 | Printing an accepted text's address gives the text back iff nothing follows the fourth part and every part is below 256 without a leading zero |
| `Ip4.TrailingIgnored` | kernel/net/net.c:36-50 | Whatever follows an accepted text after a dot is ignored |
| `Ip4.OctetWraps` | kernel/net/net.c:39-43 | 256.0.0.1 is accepted as 0.0.0.1 |

## Left out

- Heap.Heap.Kmalloc: when a growth takes memory outside the heap the answer says so, and nothing is promised of what the code does from then on.
- Heap.Heap.Expand: the same; a size is below 4 GB, as any `size_t` is there.
- Heap.Heap.constructor: requires that the heap ends below 4 GB; when its first growth takes memory outside it, nothing is promised.
- Heap.Heap.Kfree: requires that a block in use is the newest one; for other orders the code does not maintain the following block's back pointer (kernel/mm/heap.c:77-87, 96-107), so merging is not sound in general.
- Vfs.Vfs.Write: when the copy would leave the buffer the outcome says so, and nothing is promised of what the code overwrites then; an inode whose recorded size already lies beyond its buffer is not written further, nor is a symbolic link.
- Vfs.Vfs.Read: requires an inode that still exists and whose buffer is absent or in order.
- Vfs.Vfs.Open: the mount list is the one RAM filesystem the kernel mounts (kernel/kernel.c:126); `Mounts.FindMount` is proved for every list.
- Vmm.Vmm.CloneDir: requires a free frame for every part, without which there is no complete copy (`CloneSpec.CloneNeedsFrames`); what the code does instead, skipping entries and leaving them unwritten (kernel/mm/vmm.c:160, 173), is not modelled.
- CloneSpec.DeepCopy: requires that none of the source's directory, tables and pages is itself a free frame, and that no directory entry maps 4 MB.
- Ramfs.Ramfs.Symlink: requires a target shorter than 4 GB, as any string in a 32-bit memory is.
- Ramfs.Ramfs.FsMkdir: does not check for an existing entry, because the code does not; a second mkdir shadows the first.
- Printf.Console.Kvprintf: formats that end inside a conversion and arguments of the wrong type are excluded; they read past the format or the argument list.
- Printf.IntToStr: negates modulo 2^32, while the code negates the smallest int as a signed value, which C leaves undefined.
- Checksum.StoredVerifies: for messages up to 131074 bytes; beyond, the 32-bit accumulator can wrap.
- Pmm.Pmm.constructor: starts from one page range per zone; the rest of `pmm_init` adds a region from 16 MB up to NORMAL twice (kernel/mm/pmm.c:217-230) and flags kernel frames that are already listed (kernel/mm/pmm.c:238-243), after which the invariants do not hold.
- Pmm.Pmm.BuddyFree: requires an outstanding allocation of that order; the code does not detect double frees.
- Frame numbers, counters and link counts are unbounded integers; at most 262144 frames exist, so allocator sums stay far from 32 bits.
- Descriptors and zones are records in arrays linked by index; a block taken off a list and not yet put back is tracked by ghost state.
- Page contents are copied word by word instead of byte by byte; the nested loops of clone and destroy are methods of their own.
- TLB and CR3 instructions, the effective user permission of a mapping, and `vmm_identity_map`.
- Inode lifetime across open descriptors: look-ups raise the reference count and nothing lowers it; the model keeps counts but an unlinked inode still open is not followed.
- The heap's free list is a sequence field; its intrusive links are not modelled (those of the page allocator are).  `free_bytes`, which the code over-counts on a split, `kmalloc_aligned` and `krealloc` are not modelled.
- readdir, readlink, chmod, chown, mounting and registering filesystems; file type bits are an enumeration.
- Waking from the halt between the emptiness test and the next interrupt; scancode delivery by the hardware.
- `ksprintf`, which assumes a buffer of 65536 characters; sending packets.
- Boot, GDT, IDT, drivers, shell, TCP, UDP, DHCP and the other parts of the kernel: hardware effects and stubs.
