# A verified model of the kernel's resource managers

This project models the parts of a small i386 kernel that hand out and move
things: physical frames, page tables, the kernel heap, disk slots and disk
bytes, the ready queue, the context switch, the keyboard ring and the integer
printer. Code that the kernel writes as loops over mutable state is a class or a
method here, proved against functions and predicates on values; the laws over
whole runs are lemmas about those functions.

`dafny verify dfyconfig.toml` checks everything.

| file | models |
|---|---|
| `Bitmap.dfy`, `Bytes.dfy`, `Seqs.dfy`, `Runs.dfy` | byte-packed bitmaps, little-endian memory, sequences, induction over runs |
| `FrameAllocator.dfy` | `memory/pmm.c` |
| `PageTables.dfy`, `PageFifo.dfy` | `memory/vmm.c`: two-level tables, the recursive slot, the page queue |
| `Slab.dfy`, `SlabCaches.dfy`, `LargePages.dfy`, `LargeRecords.dfy`, `HeapContents.dfy`, `HeapFrames.dfy`, `Kmalloc.dfy` | `memory/kmalloc.c` |
| `Boot.dfy` | the heap from `pmm_init` and `vmm_init` on |
| `DiskSlots.dfy`, `AtaDrive.dfy`, `DiskTransfer.dfy` | `drivers/disk.c` |
| `ContextSwitch.dfy` | `processes/context_switch.asm` and the first frame built in `processes/process.c` |
| `Scheduler.dfy` | `processes/scheduler.c` |
| `Keyboard.dfy` | the ring of `drivers/keyboard.c` |
| `IntText.dfy` | `int_to_string` and `atoi` of `std/stdlib.c` |

How the pieces join: `Kmalloc.Heap` calls `PageTables.AddressSpace`, which calls
`FrameAllocator.Pmm`; large allocations are stated in terms of the frames that
the frame allocator shows as used, and slabs in terms of the bytes of memory.
The heap range is mapped twice, onto itself by `vmm_init` and from base above by
`create_slab`; the model keeps each of its bytes under the slab's address, and
`Kmalloc.Heap.SameByte` shows from the page tables that both addresses are it. No
other byte of the heap has two names: the frames behind slabs and blocks are apart
(`Kmalloc.Heap.LiveBytesApart`), which is part of what a valid heap means and is
what boot sets up (`Boot.Start`).

## Where the code falls short of what it is for

Each of these is modelled as the code has it, with the condition under which the
code does what it is for.

- `disk_free_slots` declines a run that ends at the last slot
  (`drivers/disk.c:74`): `DiskSlots.FreeWorksExactlyBelowTheEnd`.
- `disk_write` does not `kfree` its temporary buffer when the partial last sector
  cannot be patched (`drivers/disk.c:663-667`): it does for whole sectors, and where
  nothing else fails it does not exactly when that sector lies just off the disk
  (`DiskTransfer.DiskWrite`, `DiskTransfer.WritePastTheEnd`). This counts calls of
  `kfree`; a buffer of up to 2048 bytes is a slab object, which `kfree` does not
  release in any case (`Kmalloc.Heap.KfreeSmall`).
- `disk_read` rounds up in 32 bits (`drivers/disk.c:564`), so a length within one
  sector of 2^32 reads nothing, and no other does for that reason
  (`DiskTransfer.DiskRead`).
- Slab addresses carry the heap base twice (`memory/kmalloc.c:125-127,164-166`),
  so `kfree` never reaches `slab_free` with a small object
  (`Kmalloc.Heap.KfreeSmall`) and the record of a freed large block stays
  allocated (`Kmalloc.Heap.LargeFree`). A pointer into the heap range is taken for
  a slab object: the heap survives if and only if it names no existing slab
  (`Kmalloc.Heap.Kfree`). The one such pointer `kmalloc` hands out is the first
  large block, which is then not freed (`Kmalloc.Heap.KfreeFirstBlock`).
- The bound check admits one page too many. Slabs have their own frames if and only
  if the bump address has not passed the heap range
  (`HeapFrames.SlabFramesExactly`). The frame of the extra slab was never reserved;
  a block or a page table may have it (`Kmalloc.Heap.ExtraFrameOwner`), and then
  each byte of the slab is a byte of theirs (`HeapFrames.ExtraSlabIsBlock`,
  `HeapFrames.ExtraSlabIsTable`): a page of zeros stored in the block leaves no slab
  (`Slab.ZeroedPage`). The laws of the heap therefore hold up to that slab, and a
  run that makes it ends there (`Kmalloc.Heap.Drive`).
- The rounding of a large size wraps above 2^32 - 4096 (`LargeRecords.AlignedCovers`),
  and the caller gets an address with nothing behind it (`Kmalloc.Heap.KmallocWrapped`).
- `vmm_init` makes every directory entry present, all sharing frame 0, although
  its comment says Not Present: `PageTables.InitDirectoryShares`; a mapping is
  local exactly when its table is not shared: `PageTables.LocalExactlyWhenUnshared`.
- Frame 0 doubles as "no frame": an allocation reports none and takes a frame all
  the same if and only if frame 0 is the cached one (`FrameAllocator.NoFrameExactly`).
- The switch stores the saved ebp as the context's flags
  (`processes/context_switch.asm:49-50`): `ContextSwitch.ContextFlags`. Resuming
  reads the stack frame, so the registers come back all the same.
- Removing the head leaves the ring broken, and exactly then:
  `Scheduler.ReadyQueue.Remove`.
- The keyboard ring looks empty at 256 pending characters, and a backspace can
  take the only character from under a reader: `Keyboard.StepExactlyWhenSafe`.
- The minimum integer prints as "-(" and reads back as 8; the parser's
  intermediates leave the 32-bit range above 2147483599:
  `IntText.RoundTrip`, `IntText.ParseOverflow`.

## Model

| member | source | states |
|---|---|---|
| `FrameAllocator.Pmm.AllocFrame` | memory/pmm.c:58-98 | for every state, frame 0 cached included: the cached frame, else the cyclically first free frame from the cursor byte on; exactly that bit is set; a result of 0 otherwise means every frame from byte 1 up is used |
| `FrameAllocator.Pmm.Search` | memory/pmm.c:68-98 | the next-fit part, with the cursor left on the byte found |
| `FrameAllocator.Pmm.Scan` | memory/pmm.c:69-80 | the first free frame of a byte range, or all of the range is used |
| `FrameAllocator.Pmm.FreeFrame` | memory/pmm.c:101-106 | of any frame the assertion accepts: exactly its bit is cleared and it becomes the cached one; the allocator stays sound if and only if it is not frame 0 |
| `FrameAllocator.Pmm.IsFrameFree` | memory/pmm.c:108-112 | reads the frame's bit |
| `FrameAllocator.Pmm.Init` | memory/pmm.c:114-142 | for an image linked at a block boundary no address of it is left in a free frame; with room for the heap the used bits are exactly the blocks that hold an address of the image or of the heap's 108 blocks from the first boundary at or above the stack top, the stack's pages and the VGA buffer |
| `FrameAllocator.ReservedIsTaken` | memory/pmm.c:121-141 | the blocks the marking loops reach are those, block by block |
| `FrameAllocator.RunIsRange` | memory/pmm.c:123-125 | marking upward from an aligned start, with the count rounded up, marks exactly the blocks that hold an address of the range |
| `FrameAllocator.StepKeepsAccount` | memory/pmm.c:58-106 | one alloc or free, of frame 0 too, keeps "used = reserved + owned + lost" and a cached frame free; an allocated frame was nobody's |
| `FrameAllocator.RunIsAccounted` | memory/pmm.c:15-21 | over every run that frees no reserved frame: cursor in range, cached frame free, nothing lost but frame 0, no reserved or owned frame handed out, and 0 returned exactly when frame 0 is cached or nothing from byte 1 up is free |
| `FrameAllocator.NothingLost` | memory/pmm.c:58-106 | over every run that never frees frame 0 nothing is lost and 0 means exhaustion |
| `FrameAllocator.NoFrameExactly` | memory/pmm.c:58-98 | for every state: 0 is returned if and only if frame 0 is cached or nothing from byte 1 up is free, and that leaves the bitmap alone if and only if frame 0 is not cached |
| `FrameAllocator.FreeingFrameZeroBreaksAlloc` | memory/pmm.h:15 | after `pmm_free_frame(0)` the next `pmm_alloc_frame` reports none, however many frames are free, and takes frame 0 |
| `Bitmap.MarkUsed` | memory/pmm.c:43-45 | one bit of the byte-packed map is set, all others stay |
| `Bitmap.MarkFree` | memory/pmm.c:47-49 | one bit is cleared, all others stay |
| `Bitmap.FullByte` | memory/pmm.c:51-53 | a byte is 0xFF exactly when its eight bits are set |
| `PageTables.RecursiveWindow` | memory/vmm.c:50-65 | the two-level walk of the window address of table i plus 4j reaches frame(entry i) + 4j, for every i and j |
| `PageTables.AddressSpace.TableFrame` | memory/vmm.c:58-65 | the paged and the unpaged branch name the same table |
| `PageTables.WriteEffect` | memory/vmm.c:75-86 | exactly which pages a table write changes, shared tables included |
| `PageTables.LocalExactlyWhenUnshared` | memory/vmm.c:341-344 | mapping a page leaves all others alone if and only if no other entry shares its table (or nothing changes) |
| `PageTables.InitDirectoryShares` | memory/vmm.c:512-515 | after `vmm_init`'s first loop one mapping shows up under all 1024 entries |
| `PageTables.HangTable` | memory/vmm.c:321-339 | a cleared table under an absent entry keeps well-formedness and every page |
| `PageTables.RewriteSlot` | memory/vmm.c:341-344 | one slot rewritten: well-formed still, that page changed, no other |
| `PageTables.MapTranslates` | memory/vmm.c:441-446 | after a mapping every address of the page translates to frame plus offset and every other address as before |
| `PageTables.AddressSpace.AllocPermanentPage` | memory/vmm.c:262-277 | takes one unused frame into the entry, or fails with nothing changed and all frames used |
| `PageTables.AddressSpace.AllocPage` | memory/vmm.c:283-295 | the same, and without a queue node the frame is given back and the flags are restored |
| `PageTables.AddressSpace.MakeTable` | memory/vmm.c:321-339 | a missing table appears empty, its entry with exactly its old flags, PRESENT and PAGE_WRITEABLE, without any page changing; failure without paging means all frames used |
| `PageTables.AddressSpace.MapPage` | memory/vmm.c:307-347 | the target page maps to the frame with exactly its old flags, those asked for and PRESENT, every other page is unchanged, the directory stays well-formed, failure only when the table was missing |
| `PageTables.AddressSpace.GetPageEntry` | memory/vmm.c:388-404 | the entry the walk reaches |
| `PageTables.AddressSpace.CalcPhysAddr` | memory/vmm.c:441-446 | agrees with the two-level translation |
| `PageTables.AddressSpace.UnmapPage` | memory/vmm.c:354-370 | the page is gone, every other page stays, exactly its frame is freed |
| `PageFifo.Queue.FifoEnqueue` | memory/vmm.c:139-147 | the node joins at the end |
| `PageFifo.Queue.Enqueue` | memory/vmm.c:149-158 | the address joins at the end, or nothing changes when no node is granted |
| `PageFifo.Queue.Dequeue` | memory/vmm.c:160-169 | the oldest address leaves, NULL when empty; the stale tail is harmless |
| `PageFifo.Queue.Drive` | memory/vmm.c:139-169 | any sequence of enqueues and dequeues on the linked queue is a run of the sequence below, so what left and what is queued is what entered, and count is its length |
| `PageFifo.FirstInFirstOut` | memory/vmm.c:139-169 | over every run, what left followed by what is queued is what entered, in order |
| `Slab.ChainUnique` | memory/kmalloc.c:145-153 | memory determines the free list: two chains from one head are equal |
| `Slab.AllocKeepsRep` | memory/kmalloc.c:145-153 | taking the head leaves an acyclic chain of the others and a matching count |
| `Slab.FreeKeepsRep` | memory/kmalloc.c:155-159 | pushing a live object does too |
| `Slab.FreshRep` | memory/kmalloc.c:130-142 | the threaded page is a slab with all objects free, in address order |
| `Slab.CountsAddUp` | memory/kmalloc.c:130-159 | free_count plus live objects is the slab's capacity |
| `Slab.ForeignHead` | memory/kmalloc.c:155-159 | a page whose list head points below it represents no slab, whatever objects one takes |
| `Slab.ZeroedPage` | memory/kmalloc.c:26-33 | a page of zeros, which a client may store into its block, represents no slab |
| `Slab.ClientWrite` | memory/kmalloc.c:26-33 | a write inside a live object alters no list of any slab |
| `Slab.RunKeepsHeap` | memory/kmalloc.c:130-159 | over every run of allocs, frees and client writes each slab's list is an acyclic chain of free_count distinct objects, and free and live objects partition the slab |
| `Kmalloc.Heap.InitSlab` | memory/kmalloc.c:130-142 | the chain through the page's objects, ending in NULL, and the header words |
| `Kmalloc.Heap.AllocFromSlab` | memory/kmalloc.c:145-153 | the first free object, or NULL with nothing changed when the slab is full |
| `Kmalloc.Heap.SlabFree` | memory/kmalloc.c:155-159 | a live object goes to the front of its slab's list |
| `Kmalloc.Heap.CreateSlab` | memory/kmalloc.c:161-175 | within the heap range a fresh slab at base plus the bump address, mapped writeable to the bump frame, every other byte and page as before; at the bound the extra page is mapped to the frame after the range, and the result says so |
| `Kmalloc.Heap.GetCache` | memory/kmalloc.c:177-184 | the smallest cache that fits |
| `SlabCaches.CacheRoundsUp` | memory/kmalloc.c:177-184 | that is 16 or a power of two up to 2048 below twice the request |
| `Slab.CapacityMaximal` | memory/kmalloc.c:130-142 | a slab holds as many objects as fit behind its header, and no more |
| `Kmalloc.MapSlabPage` | memory/kmalloc.c:167 | the slab's page gets exactly its old flags, PAGE_WRITEABLE and PRESENT over its frame |
| `Kmalloc.Heap.FirstFit` | memory/kmalloc.c:203-211 | an object of some slab of the list, NULL only when every slab of it is full |
| `Kmalloc.Heap.AllocFromCache` | memory/kmalloc.c:198-221 | one object moves from free to live, all other objects' bytes stay; anything else happens only with every slab of the cache full |
| `Kmalloc.Heap.LinkSlab` | memory/kmalloc.c:218-219 | the new slab heads its cache's list, the other lists stay |
| `Kmalloc.Heap.SmallAlloc` | memory/kmalloc.c:271-281 | the object comes from the smallest fitting cache |
| `Kmalloc.Heap.FillRecord` | memory/kmalloc.c:50-61 | the four words of a record, and nothing else |
| `Kmalloc.Heap.InsertLargeAlloc` | memory/kmalloc.c:73-83 | the record heads the doubly linked list |
| `Kmalloc.Heap.LargeAllocRemove` | memory/kmalloc.c:85-99 | exactly that record leaves with its pointer and links NULL, the order of the others stays, links agree both ways |
| `Kmalloc.Heap.GetLargeAllocByPtr` | memory/kmalloc.c:101-110 | the record with this pointer, NULL exactly when there is none |
| `LargeRecords.Inserted` | memory/kmalloc.c:73-83 | the stores of an insertion keep the list well linked |
| `LargeRecords.Removed` | memory/kmalloc.c:85-99 | so do the stores of a removal, at either end or between |
| `LargeRecords.AlignedCovers` | memory/kmalloc.c:231 | the rounded size covers the request exactly when the sum does not wrap |
| `LargePages.MapFresh` | memory/kmalloc.c:233-244 | success maps n distinct frames that were free at n new pages, each writeable; failure undoes every mapping, returns every data frame and happens only with fewer than n frames free |
| `LargePages.MapOne` | memory/kmalloc.c:235-243 | one turn: a frame that was free, mapped with exactly the slot's old flags, PAGE_WRITEABLE and PRESENT; no other page changes |
| `LargePages.UnmapRange` | memory/kmalloc.c:262-265 | exactly the run's pages and frames go |
| `Kmalloc.Heap.KmallocLarge` | memory/kmalloc.c:229-250 | all or nothing: a block of ceil(size/4096) fresh frames, mapped writeable at the bump address, with its record and every client's bytes kept, or NULL, with fewer frames free than asked for and heap, data frames and mappings as before |
| `Kmalloc.Heap.KmallocWrapped` | memory/kmalloc.c:229-250 | a size within a page of 2^32 is given the bump address with no page behind it, and the address is not bumped |
| `Kmalloc.Heap.LargeFree` | memory/kmalloc.c:252-268 | releases exactly the block's frames and pages and keeps every client's bytes; false exactly for a pointer that is no block |
| `Kmalloc.Heap.Kmalloc` | memory/kmalloc.c:271-281 | what the callers hold gains one result not held before, of the size asked for, with every other result's bytes kept; NULL changes nothing |
| `Kmalloc.Heap.Kfree` | memory/kmalloc.c:283-292 | the heap stays valid if and only if the pointer does not name a slab through the heap range; which pointers release a block; that a pointer outside the range that is no block changes nothing |
| `Kmalloc.Heap.KfreeFirstBlock` | memory/kmalloc.c:286-291 | the first large block, the one result in that range, is kept and its first words are overwritten |
| `Kmalloc.Heap.KfreeSmall` | memory/kmalloc.c:283-292 | `kfree` of a small object frees nothing |
| `Kmalloc.Heap.StraySlabFree` | memory/kmalloc.c:286-291 | what the slab path writes for a pointer of the heap range, by the bytes' slab names: the list head of that page becomes the pointer |
| `Kmalloc.Heap.HitSlabIsGone` | memory/kmalloc.c:286-291 | such a write on an existing slab leaves a page that is no slab |
| `Kmalloc.Heap.FreeSmall` | memory/kmalloc.c:155-159 | `slab_free` on the masked address takes exactly that result from what is held; the bytes of the others are kept |
| `Kmalloc.Heap.FreeLarge` | memory/kmalloc.c:252-268 | so does the large free |
| `Kmalloc.Heap.ClientStore` | memory/kmalloc.c:271-281 | a client's store within its object or block changes exactly those bytes of what is held and keeps the whole heap valid |
| `Kmalloc.Heap.LiveResultsDisjoint` | memory/kmalloc.c:198-292 | live results have pairwise disjoint ranges of at least the size asked for |
| `Kmalloc.Heap.Drive` | memory/kmalloc.c:198-292 | over any sequence of requests, releases and writes, up to a panic or the extra slab, the heap is to its callers a map from results to bytes: each command changes what it names and nothing else, and no two results meet |
| `Kmalloc.Heap.SameByte` | memory/kmalloc.c:164-167 | the slab's address and the one base below it translate to the same physical byte |
| `Kmalloc.Heap.LiveBytesApart` | memory/kmalloc.c:198-292 | no two bytes of different live results are one byte of physical memory |
| `Kmalloc.Heap.LiveBytesWriteable` | memory/kmalloc.c:167-243 | every byte of every live result lies on a page whose entry is present and writeable |
| `HeapFrames.SlabFramesExactly` | memory/kmalloc.c:161-167 | every slab's frame is kept for it if and only if the bump address has not passed the heap range |
| `HeapFrames.ExtraSlabIsBlock` | memory/kmalloc.c:162-167 | if a block has the extra slab's frame, each byte of the slab is a byte of the block: one byte under two addresses |
| `HeapFrames.ExtraSlabIsTable` | memory/kmalloc.c:162-167 | if a page table has it, each entry of the table is a word of the slab |
| `Kmalloc.Heap.ExtraFrameOwner` | memory/kmalloc.c:162-167 | that frame is in use if and only if a block or a page table has it |
| `HeapContents.FreedClients` | memory/kmalloc.c:155-159 | giving an object back keeps the bytes of every other client's object |
| `HeapContents.GrantsKept` | memory/kmalloc.c:198-292 | what keeps the clients' objects and the bytes below the slabs keeps every live result |
| `HeapFrames.HeldGrows` | memory/pmm.c:133-138 | a new block takes no frame of the heap range and changes nothing for the frame after it |
| `HeapFrames.HeldShrinks` | memory/kmalloc.c:261-265 | nor does releasing a block |
| `HeapFrames.Aliased` | memory/vmm.c:543-548 | the identity mapping of the heap range and the slab mapping lead to the same bytes |
| `Kmalloc.Heap.SmallResultInSlab` | memory/kmalloc.c:289-290 | a small result lies in one page after the header, so masking finds its slab |
| `Kmalloc.Heap.Init` | memory/kmalloc.c:295-306 | a valid heap with one all-free slab per cache |
| `Boot.StartsBacked` | memory/pmm.c:133-138 | the frames `pmm_init` reserves are the heap's own, and the one after them nobody's |
| `Boot.MapHeap` | memory/vmm.c:542-548 | the heap range is mapped onto itself, present and writeable, every other page as before |
| `Boot.MapOwn` | memory/vmm.c:546-547 | one turn: the page gets exactly its old flags and 0x103 over the frame of its own number |
| `Boot.Start` | memory/kmalloc.c:295-306 | `pmm_init`, that mapping and `init_kmalloc` make a valid heap: nothing the heap laws assume is left to assume |
| `DiskSlots.SlotMap.AreSlotsFree` | drivers/disk.c:46-54 | true exactly when the run is in range and free |
| `DiskSlots.SlotMap.MarkSlotsUsed` | drivers/disk.c:57-59 | sets exactly the run's bits |
| `DiskSlots.SlotMap.FreeSlots` | drivers/disk.c:73-77 | clears exactly the run's bits, or declines when it reaches the last slot |
| `DiskSlots.SlotMap.AllocSlots` | drivers/disk.c:85-114 | the cyclically first free run from the cursor byte, exactly its bits set and the cursor on the byte of the slot after it; no slot, with nothing changed, exactly when no run fits |
| `DiskSlots.SlotMap.Search` | drivers/disk.c:89-112 | the first fitting start of a byte range |
| `DiskSlots.AllocAccounted` | drivers/disk.c:85-114 | an allocated run is disjoint from all held ones |
| `DiskSlots.FreeAccounted` | drivers/disk.c:73-77 | a free gives back exactly its run, or the run becomes stuck |
| `DiskSlots.RunIsAccounted` | drivers/disk.c:61-114 | over every run live extents are disjoint and the set bits are exactly the live and the stuck ones |
| `DiskSlots.FreeWorksExactlyBelowTheEnd` | drivers/disk.c:74 | a free works if and only if the run ends below the last slot |
| `DiskSlots.OneStuckExtent` | drivers/disk.c:74 | at most one extent is ever stuck |
| `AtaDrive.LbaRegisters` | drivers/disk.c:127-142 | the drive decodes the four registers to the address if and only if it is below 2^28 |
| `AtaDrive.Issue` | drivers/disk.c:381-409 | the select register is 0xE0 or 0xF0 as the drive is master or slave, plus the top address bits, so this drive and not its neighbour starts the command asked for, a count of 0 meaning 256 |
| `AtaDrive.AcceptsExactly` | drivers/disk.c:373-379 | the checks pass if and only if the drive is usable and all the sectors are on it |
| `AtaDrive.ReadSectors` | drivers/disk.c:369-432 | success fills the buffer with the sectors' bytes, each sector moved only after a wait for it; a drive that never fails serves every accepted range |
| `AtaDrive.WriteSectors` | drivers/disk.c:451-508 | a prefix of the buffer is stored, all of it on success, nothing else changes; each sector is moved only after a wait for it |
| `DiskTransfer.CeilIsSectors` | drivers/disk.c:564 | the rounded-up quotient is the number of sectors touched |
| `DiskTransfer.WrapsToNothing` | drivers/disk.c:564 | within one sector of 2^32 the rounded-up quotient is 0 |
| `DiskTransfer.ReadPlanStep` | drivers/disk.c:567-603 | one loop turn keeps the account of bytes delivered and sectors to go |
| `DiskTransfer.DiskRead` | drivers/disk.c:553-606 | r bytes equal to the disk's, the rest of the buffer untouched, a short r a multiple of 256 sectors; 0 for a length within one sector of 2^32, and where nothing fails and the range is on the disk r = len if and only if the length is not such |
| `DiskTransfer.WriteTail` | drivers/disk.c:656-670 | the partial sector keeps its other bytes; a failed patch changes nothing and leaves one buffer without its `kfree` |
| `DiskTransfer.DiskWrite` | drivers/disk.c:618-672 | the disk is the old one with exactly a prefix of the buffer laid over it, the whole buffer when len is returned; a short r is all whole sectors, or the bytes of the commands that succeeded, one for each `kmalloc` but the last, and less than one command's bytes are stored beyond it; every `kmalloc` is matched by a `kfree` for whole sectors, and where nothing else fails one is not if and only if the partial sector lies just off the disk |
| `DiskTransfer.WritePastTheEnd` | drivers/disk.c:660-667 | part of a sector written just past the end: 0 is returned and a buffer is left without its `kfree` |
| `DiskTransfer.WriteThenRead` | drivers/disk.c:553-672 | a full read after a full write returns what was written |
| `DiskTransfer.WriteAll` | drivers/disk.c:618-672 | after any sequence of writes the disk is the replay of their log |
| `DiskTransfer.WriteAllThenRead` | drivers/disk.c:553-672 | after any sequence of writes, overlapping or not, a range no later one meets reads back as written |
| `DiskTransfer.LastWriteWins` | drivers/disk.c:618-672 | after any log of writes each byte is that of the last write covering it |
| `DiskTransfer.ReadBack` | drivers/disk.c:553-672 | a written range reads back as long as no later write reaches into it |
| `ContextSwitch.Machine.PushFrame` | processes/context_switch.asm:25-28 | the ten words below the old stack pointer, the return address above them |
| `ContextSwitch.Machine.StoreContext` | processes/context_switch.asm:30-52 | the fields of the saved context, as the code fills them |
| `ContextSwitch.Machine.CallVmSwitch` | processes/context_switch.asm:60-62 | the address space loaded is the one passed on the stack |
| `ContextSwitch.Machine.ProcessSwitch` | processes/context_switch.asm:24-72 | the whole switch as one step on registers, stack memory, contexts, current process and loaded address space |
| `ContextSwitch.SwitchSavesContext` | processes/context_switch.asm:30-52 | the context left behind, field by field: the caller's registers, its return address and where its frame is |
| `ContextSwitch.SpaceFollows` | processes/context_switch.asm:54-62 | over every run the loaded address space is that of the running process |
| `ContextSwitch.Machine.CreateFrame` | processes/process.c:68-83 | a zeroed frame with flags and entry point below the stack top, nothing else changed |
| `ContextSwitch.SaveThenRestore` | processes/context_switch.asm:24-72 | restoring a saved frame gives back every register with the call undone |
| `ContextSwitch.ContextFlags` | processes/context_switch.asm:49-50 | the stored flags are the flags exactly when ebp happens to equal them, and the stored ebp is the caller's exactly when that is the frame's address |
| `ContextSwitch.SelfSwitch` | processes/context_switch.asm:24-72 | switching to oneself is a return |
| `ContextSwitch.StepKeepsSuspended` | processes/context_switch.asm:24-72 | a step of another process leaves a suspended one as it was, or resumes it with its saved registers |
| `ContextSwitch.ResumeRestores` | processes/context_switch.asm:24-72 | over every run a process resumes with all registers, flags, return address and stack pointer it had |
| `ContextSwitch.FreshStarts` | processes/process.c:68-83 | over every run a new process starts at its entry with zeroed registers, EFLAGS 0x202 and its stack top |
| `Scheduler.ReadyQueue.Init` | processes/scheduler.c:144-152 | a ring of the one process |
| `Scheduler.ReadyQueue.AddProcess` | processes/scheduler.c:46-61 | the process joins at the tail, order and current kept, still a ring |
| `Scheduler.ReadyQueue.GetNextProcess` | processes/scheduler.c:63-75 | the current node moves one place on |
| `Scheduler.ReadyQueue.HandleTick` | processes/scheduler.c:127-138 | every tenth tick advances, and switches only to a different process |
| `Scheduler.ReadyQueue.Find` | processes/scheduler.c:95-122 | the first node with the process and its predecessor |
| `Scheduler.ReadyQueue.Remove` | processes/scheduler.c:77-123 | for a process that is not the head exactly it goes and the order stays; the ring is broken if and only if it is the head's |
| `Scheduler.ReadyQueue.Drive` | processes/scheduler.c:46-152 | over one init and any sequence of adds, advances, ticks and removals of other than the head's process the list is a ring of count distinct nodes in the order the actions say |
| `Scheduler.CurrentKept` | processes/scheduler.c:77-123 | adds and removals keep the current process, and its own removal hands over to its successor |
| `Scheduler.SwitchEveryTenTicks` | processes/scheduler.c:127-138 | n ticks make exactly n/10 switch points |
| `Scheduler.RingOrder` | processes/scheduler.c:63-75 | with no adds, k switch points move k places round the ring |
| `Scheduler.RoundRobin` | processes/scheduler.c:63-75 | a process is selected within its distance, plus the adds if it lies behind the current one |
| `Scheduler.NewcomerIsServed` | processes/scheduler.c:46-75 | a new process is selected within count switch points whatever is added later |
| `Scheduler.EveryoneIsServed` | processes/scheduler.c:46-75 | everyone is selected within count plus adds switch points |
| `Keyboard.Buffer.PutChar` | drivers/keyboard.c:88-91 | one put step of the ring |
| `Keyboard.Buffer.RemoveLast` | drivers/keyboard.c:22-27 | one backspace step |
| `Keyboard.Buffer.Poll` | drivers/keyboard.c:99 | the check step of a get |
| `Keyboard.Buffer.ReadChar` | drivers/keyboard.c:100 | the read step copies the oldest character |
| `Keyboard.Buffer.TakeChar` | drivers/keyboard.c:101-102 | the advance step returns the character read |
| `Keyboard.PutWorks` | drivers/keyboard.c:88-91 | with fewer than 255 pending a put appends |
| `Keyboard.BackspaceWorks` | drivers/keyboard.c:22-27 | a backspace drops the newest unless a reader holds the only one |
| `Keyboard.StepExactlyWhenSafe` | drivers/keyboard.c:17-103 | each step does what it is for if and only if its guard holds |
| `Keyboard.OverflowLooksEmpty` | drivers/keyboard.c:88-91 | the 256th pending character makes the ring look empty |
| `Keyboard.ErasedUnderReader` | drivers/keyboard.c:22-27 | the erased read leaves the ring looking 255 characters full |
| `Keyboard.ReaderGetsTheText` | drivers/keyboard.c:17-103 | over every interleaving of safe steps the returned characters are a prefix of the edited text |
| `IntText.IntToString` | std/stdlib.c:15-47 | the buffer holds the number in decimal, an optional '-' and digits '0' to '9' without a leading zero, and its terminator within 12 characters; "-(" for the minimum |
| `IntText.TextIsDecimal` | std/stdlib.c:15-47 | the text is the number in decimal if and only if it is not the minimum |
| `IntText.DecimalUnique` | std/stdlib.c:15-47 | a number has one decimal text |
| `IntText.NumeralIsDigits` | std/stdlib.c:25-29 | every numeral is the digits of its value |
| `IntText.RawIsDigits` | std/stdlib.c:25-29 | the digit loop writes the digits backwards |
| `IntText.TextFits` | drivers/screen.c:85-92 | text and terminator fit 12 characters |
| `IntText.Atoi` | std/stdlib.c:54-72 | of any text, digits or not: its value in base ten modulo 2^32, negated behind a '-' |
| `IntText.ParseIsValue` | std/stdlib.c:54-72 | wrapping at every step is wrapping the value once |
| `IntText.RoundTrip` | std/stdlib.c:15-72 | parsing undoes printing if and only if the number is not the minimum |
| `IntText.PrintThenParse` | std/stdlib.c:15-72 | the same through the buffer |
| `IntText.ParseOverflow` | std/stdlib.c:54-72 | all intermediates fit 32 bits exactly when the magnitude is at most 2147483599 or the number is the minimum |

## Left out

- Page swapping (`memory/vmm.c:196-257`): an entry here is never swapped out.
- `PageTables.AddressSpace.AllocPermanentPage`: out of frames, the source first
  swaps a queued page out and rewrites that page's entry (`memory/vmm.c:266`);
  this is not modelled, so "nothing changed" leaves that page out. The swap frees
  no frame, so the call fails all the same.
- `PageTables.AddressSpace.AllocPage`: whether a queue node can be had is a free
  choice, the call back into `kmalloc` for it is not modelled, and neither is the
  swap on exhaustion.
- `PageTables.AddressSpace.MakeTable`: does not model that swap either.
- `PageTables.AddressSpace.MapPage`: is stated for aligned frames, tables that are
  neither shared nor swapped, and the loaded directory; for another directory the
  code writes through the loaded one's recursive window when paging is on.
- `PageTables.AddressSpace.UnmapPage`: is not stated for a swapped page, whose
  disk slots the source frees, nor for a page backed by frame 0 or by a table.
- `vmm_destroy_page_directory`, the creation of address spaces and the page fault
  handler: they free or share tables as if each directory owned all of them, so no
  statement about ownership survives them.
- `Boot.Start`: starts from a directory with no table of its own yet, and leaves out
  the mappings of the image, the stack and the VGA buffer.
- The kernel's own first directory: the mapping laws need distinct tables, which
  `InitDirectoryShares` shows it does not have.
- `Kmalloc.Heap.CreateSlab`: past the heap range the kernel formats the page and goes
  on; the model ends there, since those bytes are not the heap's.
- `Kmalloc.Heap.KmallocLarge`: asks that the bump address stays at or below the
  slab region, which the code does not check.
- `Kmalloc.Heap.Kmalloc`: asks the same of large requests.
- `Kmalloc.Heap.FreeSmall`: does not go through `kfree`, which never reaches
  `slab_free` with a small object.
- `DiskSlots.SlotMap.FreeSlots`: does not model a slot plus count that wraps at
  2^32, where the code would write outside its bitmap.
- Memory that appears when a page is mapped: heap memory is one byte sequence of
  the whole address space.
- Waiting for the drive, delays, IDENTIFY and the cache flush: a wait succeeds or
  fails, a flush changes nothing; one drive per model, which ignores commands to the
  other one, with a positive even sector size below 2^24 bytes and at most 2^28
  sectors.
- `AtaDrive.WriteSectors`: waits without a time limit before the command
  (`drivers/disk.c:468`); the model goes on from where that wait ends.
- `Kmalloc.Heap.LiveBytesWriteable`: is about page entries. A table made for a mapping
  is entered writeable (`PageTables.AddressSpace.MakeTable`), an older directory
  entry keeps the flags it has.
- `ContextSwitch.Machine.ProcessSwitch`: has one flat memory; the change of address
  space inside it is a callee that records which one is loaded, clobbers the
  caller-saved registers and writes below the stack pointer. Process, control block
  and context are one map entry.
- `ContextSwitch.FreshStarts`: is about stacks at disjoint addresses. The source
  gives every new process the same stack top in an address space of its own, and
  returns from the switch of address spaces on the old stack's address.
- Mapping the stack of a new process (`processes/process.c:51-66`): it relies on
  page faults, which are not part of this model.
- Scancodes, screen, shell, `printf`, PIDs, interrupts and device set-up: they hold
  no state that the modelled parts depend on.
